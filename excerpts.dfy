/** The entry points of src/index.js: the fallback text `getWholeWordsWithMaxChars`, the
    assembly loop `excerptFromArr`, and the `SearchExcerptGenerator` class with its query
    preprocessing and `generateExcerpt`. */
module Excerpts {
  import opened Wrappers
  import opened Text
  import opened Tokens
  import opened Windows
  import opened Render
  import opened Sections

  const NoContent: string := "No content"

  // ---------------------------------------------------------------------------------------
  // getWholeWordsWithMaxChars

  /** How many leading words fit a budget of `budget` characters (spaces not counted). */
  function FitCount(ws: seq<string>, budget: int): (k: nat)
    ensures k <= |ws|
    decreases |ws|
  {
    if ws == [] || |ws[0]| > budget then 0 else 1 + FitCount(ws[1..], budget - |ws[0]|)
  }

  /** `FitCount` is the largest number of leading words whose characters add up to no more
      than the budget. */
  lemma {:induction false} FitCountSpec(ws: seq<string>, budget: int, k: nat)
    requires 0 < k <= |ws|
    ensures k <= FitCount(ws, budget) <==> TotalLength(ws[..k]) <= budget
    decreases |ws|
  {
    TotalLengthCons(ws[0], ws[1..][..k - 1]);
    assert ws[..k] == [ws[0]] + ws[1..][..k - 1];
    if |ws[0]| <= budget && k > 1 {
      FitCountSpec(ws[1..], budget - |ws[0]|, k - 1);
    }
  }

  /** `getWholeWordsWithMaxChars(s, maxLength)`: "No content" for a text without words,
      otherwise the leading words that fit the character budget, joined by spaces. */
  function WholeWords(s: string, maxLength: int): string {
    var ws := Words(s);
    if ws == [] then NoContent else JoinWords(ws[..FitCount(ws, maxLength)])
  }

  /** For a text with words, the fallback shows the first `k` of them, where the first `k`
      fit the budget and one more would not (or there is none). */
  lemma WholeWordsSpec(s: string, maxLength: int)
    requires Words(s) != []
    ensures exists k ::
              && 0 <= k <= |Words(s)|
              && WholeWords(s, maxLength) == JoinWords(Words(s)[..k])
              && Words(WholeWords(s, maxLength)) == Words(s)[..k]
              && (k > 0 ==> TotalLength(Words(s)[..k]) <= maxLength)
              && (k < |Words(s)| ==> TotalLength(Words(s)[..k + 1]) > maxLength)
  {
    var ws := Words(s);
    var k := FitCount(ws, maxLength);
    if k > 0 {
      FitCountSpec(ws, maxLength, k);
    }
    if k < |ws| {
      FitCountSpec(ws, maxLength, k + 1);
    }
    WordsOfJoin(ws[..k]);
  }

  /** The loop of `getWholeWordsWithMaxChars`. */
  method GetWholeWordsWithMaxChars(s: string, maxLength: int) returns (r: string)
    ensures r == WholeWords(s, maxLength)
  {
    var words := Words(s);
    var length := 0;
    if |words| == 0 {
      return NoContent;
    }
    var i := 0;
    while i < |words|
      invariant 0 <= i <= |words|
      invariant FitCount(words, maxLength) == i + FitCount(words[i..], maxLength - length)
    {
      if |words[i]| + length > maxLength {
        return JoinWords(words[..i]);
      }
      assert words[i..][1..] == words[i + 1..];
      length := length + |words[i]|;
      i := i + 1;
    }
    assert words[..|words|] == words;
    return JoinWords(words);
  }

  // ---------------------------------------------------------------------------------------
  // excerptFromArr

  /** `excerptFromArr(body, indicies, maxLength, contextOptions)`: the fallback text for no
      matches, otherwise the rendering of the greedily assembled window. */
  function ExcerptOf(body: string, ix: seq<nat>, maxLength: int, opts: ContextOptions): string
    requires ValidIndices(Words(body), ix)
  {
    if ix == [] then WholeWords(body, maxLength - 3) + Ellipsis
    else Html(Assembled(Words(body), ix, maxLength, opts))
  }

  method ExcerptFromArr(body: string, ix: seq<nat>, maxLength: int, opts: ContextOptions) returns (html: string)
    requires ValidIndices(Words(body), ix)
    ensures html == ExcerptOf(body, ix, maxLength, opts)
  {
    if |ix| == 0 {
      var text := GetWholeWordsWithMaxChars(body, maxLength - 3);
      return text + Ellipsis;
    }
    var words := Words(body);
    var section := new Section(ix[0], words, opts);
    var i := 1;
    while i < |ix|
      invariant 1 <= i <= |ix|
      invariant Greedy(section.Value(), words, ix[i..], maxLength, opts) == Assembled(words, ix, maxLength, opts)
    {
      var next := new Section(ix[i], words, opts);
      var merged := section.Join(next);
      var n := merged.Length();
      assert ix[i..][0] == ix[i] && ix[i..][1..] == ix[i + 1..];
      if n > maxLength {
        break;
      }
      section := merged;
      i := i + 1;
    }
    assert section.Value() == Assembled(words, ix, maxLength, opts);
    html := section.ToHtml();
  }

  // ---------------------------------------------------------------------------------------
  // SearchExcerptGenerator

  /** The options a caller passes; a missing key is `None` (and so is `regex: null`). */
  datatype UserOptions = UserOptions(words: Option<nat>, regex: Option<BoundaryRule>)

  /** `extend({words: 4, regex: null}, contextOptions)`. */
  function WithDefaults(u: UserOptions): ContextOptions {
    ContextOptions(if u.words.Some? then u.words.value else 4, u.regex)
  }

  /** The match positions are increasing and index the body's own words. */
  lemma MatchesValid(tokens: seq<string>, body: string)
    ensures ValidIndices(Words(body), Matches(tokens, Words(Lower(body))))
    ensures Increasing(Matches(tokens, Words(Lower(body))))
  {
    WordsLower(body);
    MatchesSpec(tokens, Words(Lower(body)));
  }

  /** `generateExcerpt(body)` of a generator with these tokens, budget and options. */
  function Excerpt(tokens: seq<string>, maxLength: int, opts: ContextOptions, body: string): string {
    if tokens == [] then ExcerptOf(body, [], maxLength, opts)
    else
      MatchesValid(tokens, body);
      ExcerptOf(body, Matches(tokens, Words(Lower(body))), maxLength, opts)
  }

  /** The body of the constructor's loop for one lower-cased query word: normalise it, split
      off its compound piece, and push every piece that is no stop word. */
  method PushTokens(found: seq<string>, word: string) returns (pushed: seq<string>)
    ensures pushed == found + Contribution(word)
  {
    pushed := found;
    var token := Normalise(word);
    if token.None? {
      return;
    }
    var pieces := SplitCompound(token.value);
    var j := 0;
    while j < |pieces|
      invariant 0 <= j <= |pieces|
      invariant pushed == found + Kept(pieces[..j])
    {
      assert pieces[..j + 1][..j] == pieces[..j];
      var kept := StopWordFilter(pieces[j]);
      if kept.Some? {
        pushed := pushed + [kept.value];
      }
      j := j + 1;
    }
    assert pieces[..|pieces|] == pieces;
  }

  class ExcerptGenerator {
    const tokens: seq<string>
    const maxLength: int
    const options: ContextOptions

    /** `new SearchExcerptGenerator(query, maxLength, contextOptions)`: the query's tokens,
        the budget and the options with their defaults. */
    constructor (query: string, maxLength: int, userOptions: UserOptions)
      ensures tokens == QueryTokens(query)
      ensures this.maxLength == maxLength && options == WithDefaults(userOptions)
    {
      var queryWords := Words(Lower(query));
      var found: seq<string> := [];
      var i := 0;
      while i < |queryWords|
        invariant 0 <= i <= |queryWords|
        invariant found == TokensOf(queryWords[..i])
      {
        TokensOfStep(queryWords, i);
        found := PushTokens(found, queryWords[i]);
        assert found == TokensOf(queryWords[..i + 1]);
        i := i + 1;
      }
      assert queryWords[..|queryWords|] == queryWords;
      tokens := found;
      this.maxLength := maxLength;
      options := WithDefaults(userOptions);
    }

    /** `generateExcerpt(body)`. */
    method GenerateExcerpt(body: string) returns (html: string)
      ensures html == Excerpt(tokens, maxLength, options, body)
    {
      if |tokens| == 0 {
        html := ExcerptFromArr(body, [], maxLength, options);
        return;
      }
      var words := Words(Lower(body));
      var ix := MatchIndices(tokens, words);
      MatchesValid(tokens, body);
      html := ExcerptFromArr(body, ix, maxLength, options);
    }
  }

  // ---------------------------------------------------------------------------------------
  // What an excerpt is

  /** A body without words gives "No content…", whatever the tokens. */
  lemma EmptyBody(tokens: seq<string>, maxLength: int, opts: ContextOptions, body: string)
    requires Words(body) == []
    ensures Excerpt(tokens, maxLength, opts, body) == NoContent + Ellipsis
  {
    WordsLower(body);
    assert Words(Lower(body)) == [];
  }

  /** When no body word matches (or there are no tokens), the excerpt is the fallback text
      with the ellipsis appended. */
  lemma NoMatchFallback(tokens: seq<string>, maxLength: int, opts: ContextOptions, body: string)
    requires forall i :: 0 <= i < |Words(body)| ==> !IsMatch(tokens, Lower(Words(body)[i]))
    ensures Excerpt(tokens, maxLength, opts, body) == WholeWords(body, maxLength - 3) + Ellipsis
  {
    var lw := Words(Lower(body));
    WordsLower(body);
    NoMatches(tokens, lw, |lw|);
  }

  /** A query of stop words only gives no tokens, so every excerpt is the fallback. */
  lemma StopWordQuery(query: string, maxLength: int, opts: ContextOptions, body: string)
    requires forall k :: 0 <= k < |Words(Lower(query))| ==> IsStopWord(Words(Lower(query))[k])
    ensures QueryTokens(query) == []
    ensures Excerpt(QueryTokens(query), maxLength, opts, body) == WholeWords(body, maxLength - 3) + Ellipsis
  {
    StopWordsOnlyQuery(Words(Lower(query)));
  }

  /** With a matching word there are match positions, and each of them is the position of a
      body word that matches the tokens once lower-cased. */
  lemma MatchedPositions(tokens: seq<string>, body: string)
    requires exists i :: 0 <= i < |Words(body)| && IsMatch(tokens, Lower(Words(body)[i]))
    ensures Matches(tokens, Words(Lower(body))) != []
    ensures forall k :: 0 <= k < |Matches(tokens, Words(Lower(body)))| ==>
              Matches(tokens, Words(Lower(body)))[k] < |Words(body)| &&
              IsMatch(tokens, Lower(Words(body)[Matches(tokens, Words(Lower(body)))[k]]))
  {
    var ws := Words(body);
    var lw := Words(Lower(body));
    WordsLower(body);
    MatchesSpec(tokens, lw);
    var ix := Matches(tokens, lw);
    var i :| 0 <= i < |ws| && IsMatch(tokens, Lower(ws[i]));
    assert lw[i] == Lower(ws[i]);
    assert i in ix;
    forall k | 0 <= k < |ix|
      ensures ix[k] < |ws| && IsMatch(tokens, Lower(ws[ix[k]]))
    {
      assert lw[ix[k]] == Lower(ws[ix[k]]);
    }
  }

  /** With a matching word the excerpt renders one window: it starts where the first match's
      window starts, has words from the body, emphasises only words that match the tokens,
      and is the first match's window alone or fits `maxLength`. */
  lemma MatchedExcerpt(tokens: seq<string>, maxLength: int, opts: ContextOptions, body: string)
    requires tokens != []
    requires exists i :: 0 <= i < |Words(body)| && IsMatch(tokens, Lower(Words(body)[i]))
    ensures var ws, ix := Words(body), Matches(tokens, Words(Lower(body)));
            && ix != [] && ValidIndices(ws, ix)
            && var w := Assembled(ws, ix, maxLength, opts);
            && Excerpt(tokens, maxLength, opts, body) == Html(w)
            && Sane(w, |ws|, s => IsMatch(tokens, Lower(s)))
            && w.start == WindowAt(ws, ix[0], opts).start
            && (w == WindowAt(ws, ix[0], opts) || Len(w) <= maxLength)
  {
    var ws := Words(body);
    var ix := Matches(tokens, Words(Lower(body)));
    MatchesValid(tokens, body);
    MatchedPositions(tokens, body);
    var hit := s => IsMatch(tokens, Lower(s));
    assert forall k :: 0 <= k < |ix| ==> hit(ws[ix[k]]);
    AssembledSane(ws, ix, maxLength, opts, hit);
  }

  /** Read as words, an excerpt with a match is the leading ellipsis (unless its window starts
      at the first body word), one escaped piece per window word with exactly the offsets
      emphasised, and the closing ellipsis. */
  lemma MatchedExcerptWords(tokens: seq<string>, maxLength: int, opts: ContextOptions, body: string)
    requires tokens != []
    requires exists i :: 0 <= i < |Words(body)| && IsMatch(tokens, Lower(Words(body)[i]))
    ensures var ws, ix := Words(body), Matches(tokens, Words(Lower(body)));
            && ix != [] && ValidIndices(ws, ix)
            && var w := Assembled(ws, ix, maxLength, opts);
            && Words(Excerpt(tokens, maxLength, opts, body))
                 == LeadWords(w.start) + Shown(w.words, w.offsets, |w.words|) + [Ellipsis]
  {
    MatchedExcerpt(tokens, maxLength, opts, body);
    var w := Assembled(Words(body), Matches(tokens, Words(Lower(body))), maxLength, opts);
    HtmlWords(w);
  }
}
