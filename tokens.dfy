/** Token normalisation, the compound rule, the Dutch stop list, query preprocessing and
    word matching (src/index.js, `stripTrailingLeadingPunctuation`, `stopWordFilter`, the
    `SearchExcerptGenerator` constructor and the loop of `generateExcerpt`). */
module Tokens {
  import opened Wrappers
  import opened Text

  predicate IsLetter(c: char) { 'a' <= c <= 'z' }

  predicate IsJoiner(c: char) { c == ':' || c == '-' }

  // ---------------------------------------------------------------------------------------
  // stripTrailingLeadingPunctuation: the first match of /[a-z].*[a-z]/

  /** The last letter position in `[from, hi)`: where the greedy `.*` stops backtracking. */
  function LastLetterIn(s: string, from: nat, hi: nat): (r: Option<nat>)
    requires hi <= |s|
    ensures r.Some? ==> from <= r.value < hi && IsLetter(s[r.value])
    ensures r.Some? ==> forall k :: r.value < k < hi ==> !IsLetter(s[k])
    ensures r.None? ==> forall k :: from <= k < hi ==> !IsLetter(s[k])
    decreases hi
  {
    if hi <= from then None
    else if IsLetter(s[hi - 1]) then Some(hi - 1)
    else LastLetterIn(s, from, hi - 1)
  }

  /** The leftmost match of /[a-z].*[a-z]/ starting at or after `p`. */
  function StripFrom(s: string, p: nat): Option<string>
    decreases |s| - p
  {
    if p >= |s| then None
    else
      var last := LastLetterIn(s, p + 1, |s|);
      if IsLetter(s[p]) && last.Some? then Some(s[p..last.value + 1])
      else StripFrom(s, p + 1)
  }

  /** `stripTrailingLeadingPunctuation`: `undefined` becomes `None`. */
  function Normalise(s: string): Option<string> {
    StripFrom(s, 0)
  }

  /** `v` is `s[i..j + 1]`, from the first letter at or after `p` to the last letter of `s`. */
  ghost predicate LetterSpan(s: string, p: nat, v: string, i: int, j: int) {
    && p <= i < j < |s| && IsLetter(s[i]) && IsLetter(s[j])
    && v == s[i..j + 1]
    && (forall k :: p <= k < i ==> !IsLetter(s[k]))
    && (forall k :: j < k < |s| ==> !IsLetter(s[k]))
  }

  lemma {:induction false} StripFromSpec(s: string, p: nat)
    requires p <= |s|
    ensures StripFrom(s, p).Some? <==>
              exists i, j :: p <= i < j < |s| && IsLetter(s[i]) && IsLetter(s[j])
    ensures StripFrom(s, p).Some? ==>
              exists i, j :: LetterSpan(s, p, StripFrom(s, p).value, i, j)
    decreases |s| - p
  {
    if p < |s| {
      var last := LastLetterIn(s, p + 1, |s|);
      if IsLetter(s[p]) && last.Some? {
        assert LetterSpan(s, p, StripFrom(s, p).value, p, last.value);
      } else {
        assert StripFrom(s, p) == StripFrom(s, p + 1);
        StripFromSpec(s, p + 1);
        if IsLetter(s[p]) {
          assert forall i, j :: p <= i < j < |s| && IsLetter(s[i]) ==> !IsLetter(s[j]);
        }
        if StripFrom(s, p).Some? {
          var v := StripFrom(s, p).value;
          var i, j :| LetterSpan(s, p + 1, v, i, j);
          assert LetterSpan(s, p, v, i, j);
        }
      }
    }
  }

  /** A token survives normalisation iff it holds two letters `a`–`z`; what survives runs from
      its first letter to its last, keeping everything in between. */
  lemma NormaliseSpec(s: string)
    ensures Normalise(s).Some? <==>
              exists i, j :: 0 <= i < j < |s| && IsLetter(s[i]) && IsLetter(s[j])
    ensures Normalise(s).Some? ==>
              exists i, j :: 0 <= i < j < |s| && IsLetter(s[i]) && IsLetter(s[j])
                && Normalise(s).value == s[i..j + 1]
                && (forall k :: 0 <= k < i ==> !IsLetter(s[k]))
                && (forall k :: j < k < |s| ==> !IsLetter(s[k]))
  {
    StripFromSpec(s, 0);
    if Normalise(s).Some? {
      var i, j :| LetterSpan(s, 0, Normalise(s).value, i, j);
    }
  }

  /** A normalised token is at least two characters long and starts and ends with a letter. */
  predicate LetterBounded(t: string) {
    |t| >= 2 && IsLetter(t[0]) && IsLetter(t[|t| - 1])
  }

  lemma NormaliseLetterBounded(s: string)
    requires Normalise(s).Some?
    ensures LetterBounded(Normalise(s).value)
  {
    NormaliseSpec(s);
  }

  // ---------------------------------------------------------------------------------------
  // The compound rule: the first match of /[a-z]+[:\-][a-z]+/

  /** End of the run of letters that starts at `i`. */
  function LetterRunEnd(s: string, i: nat): (e: nat)
    requires i <= |s|
    ensures i <= e <= |s|
    ensures forall k :: i <= k < e ==> IsLetter(s[k])
    ensures e < |s| ==> !IsLetter(s[e])
    decreases |s| - i
  {
    if i == |s| || !IsLetter(s[i]) then i else LetterRunEnd(s, i + 1)
  }

  /** A match of /[a-z]+[:\-][a-z]+/ starting exactly at `p`: the first `[a-z]+` takes the whole
      run (backtracking cannot help, a shorter run is followed by a letter), the joiner must
      follow it, and the second `[a-z]+` takes the whole run after the joiner. */
  function CompoundAt(s: string, p: nat): Option<string>
    requires p < |s|
  {
    if !IsLetter(s[p]) then None
    else
      var e := LetterRunEnd(s, p);
      if e + 1 < |s| && IsJoiner(s[e]) && IsLetter(s[e + 1]) then Some(s[p..LetterRunEnd(s, e + 1)])
      else None
  }

  function CompoundFrom(s: string, p: nat): Option<string>
    decreases |s| - p
  {
    if p >= |s| then None
    else if CompoundAt(s, p).Some? then CompoundAt(s, p)
    else CompoundFrom(s, p + 1)
  }

  /** `token.match(/[a-z]+[:\-][a-z]+/)`, first match only. */
  function FirstCompound(s: string): Option<string> {
    CompoundFrom(s, 0)
  }

  /** `token.match(/[a-z]+[:\-][a-z]+/) || [token]`: always exactly one piece. */
  function SplitCompound(t: string): (r: seq<string>)
    ensures |r| == 1
  {
    if FirstCompound(t).Some? then [FirstCompound(t).value] else [t]
  }

  /** Position `k` holds a joiner with a letter on each side. */
  predicate JoinerAt(s: string, k: int) {
    0 < k < |s| - 1 && IsLetter(s[k - 1]) && IsJoiner(s[k]) && IsLetter(s[k + 1])
  }

  /** `v` is `s[a..b]`, made of the whole letter runs on both sides of the joiner at `k`, and
      no joiner flanked by letters lies between `p` and `k`. */
  ghost predicate LeftmostCompound(s: string, p: nat, v: string, a: int, k: int, b: int) {
    && p <= a < k < b <= |s| && JoinerAt(s, k)
    && v == s[a..b]
    && (forall m :: a <= m < b && m != k ==> IsLetter(s[m]))
    && (a == 0 || !IsLetter(s[a - 1]))
    && (b == |s| || !IsLetter(s[b]))
    && (forall m :: p < m < k ==> !JoinerAt(s, m))
  }

  lemma {:induction false} CompoundFromSpec(s: string, p: nat)
    requires p <= |s|
    requires p == 0 || p == |s| || !IsLetter(s[p - 1]) || !JoinerAt(s, LetterRunEnd(s, p))
    ensures CompoundFrom(s, p).Some? <==> exists k :: p < k && JoinerAt(s, k)
    ensures CompoundFrom(s, p).Some? ==>
              exists a, k, b :: LeftmostCompound(s, p, CompoundFrom(s, p).value, a, k, b)
    decreases |s| - p
  {
    if p < |s| {
      if CompoundAt(s, p).Some? {
        assert CompoundFrom(s, p) == CompoundAt(s, p);
        CompoundHere(s, p);
      } else {
        assert CompoundFrom(s, p) == CompoundFrom(s, p + 1);
        CompoundSkip(s, p);
        CompoundFromSpec(s, p + 1);
        if CompoundFrom(s, p).Some? {
          var v := CompoundFrom(s, p).value;
          var a, k, b :| LeftmostCompound(s, p + 1, v, a, k, b);
          assert LeftmostCompound(s, p, v, a, k, b);
        }
      }
    }
  }

  /** A match that starts at `p` (the letter run starting there is whole) is the leftmost one
      from `p` on. */
  lemma CompoundHere(s: string, p: nat)
    requires p < |s| && CompoundAt(s, p).Some?
    requires p == 0 || !IsLetter(s[p - 1])
    ensures exists k :: p < k && JoinerAt(s, k)
    ensures exists a, k, b :: LeftmostCompound(s, p, CompoundAt(s, p).value, a, k, b)
  {
    var e := LetterRunEnd(s, p);
    var b := LetterRunEnd(s, e + 1);
    assert JoinerAt(s, e);
    assert forall m :: p < m < e ==> !JoinerAt(s, m) by {
      forall m | p < m < e ensures !JoinerAt(s, m) { assert IsLetter(s[m]); }
    }
    assert LeftmostCompound(s, p, CompoundAt(s, p).value, p, e, b);
  }

  /** When no match starts at `p`, none can use position `p + 1` as its joiner, and the search
      from `p + 1` starts on a whole letter run or past one without a joiner after it. */
  lemma CompoundSkip(s: string, p: nat)
    requires p < |s| && CompoundAt(s, p).None?
    requires p == 0 || !IsLetter(s[p - 1]) || !JoinerAt(s, LetterRunEnd(s, p))
    ensures !JoinerAt(s, p + 1)
    ensures p + 1 == |s| || !IsLetter(s[p]) || !JoinerAt(s, LetterRunEnd(s, p + 1))
  {
    if IsLetter(s[p]) {
      var e := LetterRunEnd(s, p);
      assert !JoinerAt(s, e);
      if p + 1 < e {
        assert IsLetter(s[p + 1]);
      }
      LetterRunEndShift(s, p);
    }
  }

  lemma LetterRunEndShift(s: string, p: nat)
    requires p < |s| && IsLetter(s[p])
    ensures p + 1 == |s| || !IsLetter(s[p]) || LetterRunEnd(s, p + 1) == LetterRunEnd(s, p)
  {
  }

  /** The compound rule fires iff the token holds a letter, a joiner `:`/`-` and a letter in a
      row; what it keeps is the substring made of the whole letter runs on both sides of the
      leftmost such joiner, and nothing else. */
  lemma FirstCompoundSpec(s: string)
    ensures FirstCompound(s).Some? <==> exists k :: JoinerAt(s, k)
    ensures FirstCompound(s).Some? ==>
              exists a, k, b :: 0 <= a < k < b <= |s| && JoinerAt(s, k)
                && FirstCompound(s).value == s[a..b]
                && (forall m :: a <= m < b && m != k ==> IsLetter(s[m]))
                && (a == 0 || !IsLetter(s[a - 1]))
                && (b == |s| || !IsLetter(s[b]))
                && (forall m :: 0 < m < k ==> !JoinerAt(s, m))
  {
    CompoundFromSpec(s, 0);
    if FirstCompound(s).Some? {
      var a, k, b :| LeftmostCompound(s, 0, FirstCompound(s).value, a, k, b);
    }
  }

  // ---------------------------------------------------------------------------------------
  // The stop list

  /** The Dutch stop words of `stopWordFilter`, verbatim and in order (52 entries), written as
      two halves of 26 so that the verifier can reason about membership case by case. */
  const DutchStopWords: seq<string> := StopWordsFirstHalf + StopWordsSecondHalf

  const StopWordsFirstHalf: seq<string> :=
    [ "aan", "af", "al", "als", "bij", "dan", "dat", "de", "die", "dit", "een", "en", "er",
      "had", "heb", "hem", "het", "hier", "hij", "hoe", "ik", "in", "is", "je", "kan", "me" ]

  const StopWordsSecondHalf: seq<string> :=
    [ "men", "met", "mij", "nog", "nu", "of", "ons", "ook", "te", "tot", "uit", "van", "veel",
      "voor", "was", "wat", "we", "wel", "wij", "zal", "ze", "zei", "zelf", "zich", "zo", "zou" ]

  predicate IsStopWord(w: string) { w in DutchStopWords }

  /** `stopWordFilter`: the word itself, or `false` (`None`) for a stop word. What the filter
      means for the stored tokens is proved below: `StopWordsAreLetters`,
      `CompoundIsNoStopWord` and `QueryTokensClean`. */
  function StopWordFilter(w: string): (r: Option<string>)
    ensures r.Some? <==> !IsStopWord(w)
    ensures r.Some? ==> r.value == w
  {
    if w !in DutchStopWords then Some(w) else None
  }

  predicate AllLetters(w: string) {
    forall k :: 0 <= k < |w| ==> IsLetter(w[k])
  }

  lemma FirstHalfAreLetters(w: string)
    requires w in StopWordsFirstHalf
    ensures AllLetters(w) && |w| >= 2
  {
  }

  lemma SecondHalfAreLetters(w: string)
    requires w in StopWordsSecondHalf
    ensures AllLetters(w) && |w| >= 2
  {
  }

  /** Every stop word is made of at least two letters and nothing else. */
  lemma StopWordsAreLetters(w: string)
    requires IsStopWord(w)
    ensures AllLetters(w) && |w| >= 2
  {
    if w in StopWordsFirstHalf {
      FirstHalfAreLetters(w);
    } else {
      SecondHalfAreLetters(w);
    }
  }

  // ---------------------------------------------------------------------------------------
  // Query preprocessing

  /** The pieces that pass the stop-word filter, in order. */
  function Kept(pieces: seq<string>): seq<string> {
    if pieces == [] then []
    else
      var last := pieces[|pieces| - 1];
      Kept(pieces[..|pieces| - 1]) + (if IsStopWord(last) then [] else [last])
  }

  /** What one lower-cased query word contributes to the token list. */
  function Contribution(word: string): seq<string> {
    if Normalise(word).None? then [] else Kept(SplitCompound(Normalise(word).value))
  }

  /** The tokens contributed by the lower-cased query words, in order. */
  function TokensOf(words: seq<string>): seq<string> {
    if words == [] then []
    else TokensOf(words[..|words| - 1]) + Contribution(words[|words| - 1])
  }

  /** One more query word adds its contribution. */
  lemma TokensOfStep(words: seq<string>, i: nat)
    requires i < |words|
    ensures TokensOf(words[..i + 1]) == TokensOf(words[..i]) + Contribution(words[i])
  {
    assert words[..i + 1][..i] == words[..i];
  }

  /** The generator's `tokens` for a query. */
  function QueryTokens(query: string): seq<string> {
    TokensOf(Words(Lower(query)))
  }

  /** A compound token (letters, joiner, letters) is never a stop word. */
  lemma CompoundIsNoStopWord(c: string, k: nat)
    requires k < |c| && IsJoiner(c[k])
    ensures !IsStopWord(c)
  {
    assert !IsLetter(c[k]);
    if IsStopWord(c) {
      StopWordsAreLetters(c);
      assert false;
    }
  }

  lemma KeptSingle(x: string)
    ensures Kept([x]) == (if IsStopWord(x) then [] else [x])
  {
    assert [x][..0] == [];
  }

  /** The first compound substring of a token starts and ends with a letter and is no stop
      word. */
  lemma CompoundClean(t: string)
    requires FirstCompound(t).Some?
    ensures LetterBounded(FirstCompound(t).value) && !IsStopWord(FirstCompound(t).value)
  {
    CompoundFromSpec(t, 0);
    var c := FirstCompound(t).value;
    var a, k, b :| LeftmostCompound(t, 0, c, a, k, b);
    assert c[0] == t[a] && c[|c| - 1] == t[b - 1];
    assert c[k - a] == t[k];
    CompoundIsNoStopWord(c, k - a);
  }

  /** One query word contributes nothing when it has fewer than two letters; otherwise it
      contributes its first compound substring as a single token when it has one, and else
      its normalised form unless that is a stop word. */
  lemma ContributionSpec(word: string)
    ensures Normalise(word).None? ==> Contribution(word) == []
    ensures Normalise(word).Some? && FirstCompound(Normalise(word).value).Some? ==>
              Contribution(word) == [FirstCompound(Normalise(word).value).value]
    ensures Normalise(word).Some? && FirstCompound(Normalise(word).value).None? ==>
              Contribution(word) == (if IsStopWord(Normalise(word).value) then [] else [Normalise(word).value])
  {
    if Normalise(word).Some? {
      var t := Normalise(word).value;
      if FirstCompound(t).Some? {
        CompoundClean(t);
        KeptSingle(FirstCompound(t).value);
      } else {
        KeptSingle(t);
      }
    }
  }

  /** Every token of a query word is letter-bounded and no stop word. */
  lemma ContributionClean(word: string)
    ensures forall t :: t in Contribution(word) ==> LetterBounded(t) && !IsStopWord(t)
  {
    ContributionSpec(word);
    if Normalise(word).Some? {
      var n := Normalise(word).value;
      if FirstCompound(n).Some? {
        CompoundClean(n);
      } else {
        NormaliseLetterBounded(word);
      }
    }
  }

  /** Every stored query token is letter-bounded and no stop word. */
  lemma {:induction false} TokensOfClean(words: seq<string>)
    ensures forall t :: t in TokensOf(words) ==> LetterBounded(t) && !IsStopWord(t)
    decreases |words|
  {
    if words != [] {
      TokensOfClean(words[..|words| - 1]);
      ContributionClean(words[|words| - 1]);
    }
  }

  lemma QueryTokensClean(query: string)
    ensures forall t :: t in QueryTokens(query) ==> LetterBounded(t) && !IsStopWord(t)
  {
    TokensOfClean(Words(Lower(query)));
  }

  /** Tokens keep the order of the query and duplicates are not removed: the tokens of a
      concatenation are the concatenation of the tokens. */
  lemma {:induction false} TokensOfAppend(a: seq<string>, b: seq<string>)
    ensures TokensOf(a + b) == TokensOf(a) + TokensOf(b)
    decreases |b|
  {
    if b == [] {
      assert a + b == a;
    } else {
      var ab, init, last := a + b, b[..|b| - 1], b[|b| - 1];
      assert ab[..|ab| - 1] == a + init;
      assert ab[|ab| - 1] == last;
      var ta, ti, c := TokensOf(a), TokensOf(init), Contribution(last);
      calc {
        TokensOf(ab);
        TokensOf(a + init) + c;
        { TokensOfAppend(a, init); }
        (ta + ti) + c;
        { SeqAssoc(ta, ti, c); }
        ta + (ti + c);
        ta + TokensOf(b);
      }
    }
  }

  /** A word of two or more letters and nothing else is its own normal form. */
  lemma NormaliseOfLetters(w: string)
    requires AllLetters(w) && |w| >= 2
    ensures Normalise(w) == Some(w)
  {
    assert LastLetterIn(w, 1, |w|) == Some(|w| - 1);
    assert w[0..|w|] == w;
  }

  /** A query made of stop words only yields no tokens. */
  lemma {:induction false} StopWordsOnlyQuery(words: seq<string>)
    requires forall k :: 0 <= k < |words| ==> IsStopWord(words[k])
    ensures TokensOf(words) == []
    decreases |words|
  {
    if words != [] {
      var w := words[|words| - 1];
      StopWordsOnlyQuery(words[..|words| - 1]);
      StopWordsAreLetters(w);
      NormaliseOfLetters(w);
      FirstCompoundSpec(w);
      forall k ensures !JoinerAt(w, k) {
        if 0 < k < |w| - 1 {
          assert IsLetter(w[k]);
        }
      }
      ContributionSpec(w);
    }
  }

  // ---------------------------------------------------------------------------------------
  // Matching

  /** Some non-empty piece is one of the tokens (`word && this.tokens.indexOf(word) > -1`). */
  predicate AnyPieceIn(pieces: seq<string>, tokens: seq<string>) {
    exists j :: 0 <= j < |pieces| && |pieces[j]| > 0 && pieces[j] in tokens
  }

  /** Whether a lower-cased body word counts as a match. */
  predicate IsMatch(tokens: seq<string>, word: string) {
    Normalise(word).Some? && AnyPieceIn(SplitCompound(Normalise(word).value), tokens)
  }

  /** The indices below `n` of the matching words, in increasing order. */
  function MatchesBelow(tokens: seq<string>, words: seq<string>, n: nat): seq<nat>
    requires n <= |words|
  {
    if n == 0 then []
    else MatchesBelow(tokens, words, n - 1) + (if IsMatch(tokens, words[n - 1]) then [n - 1] else [])
  }

  function Matches(tokens: seq<string>, words: seq<string>): seq<nat> {
    MatchesBelow(tokens, words, |words|)
  }

  lemma {:induction false} MatchesBelowSpec(tokens: seq<string>, words: seq<string>, n: nat)
    requires n <= |words|
    ensures forall k :: 0 <= k < |MatchesBelow(tokens, words, n)| ==> MatchesBelow(tokens, words, n)[k] < n
    ensures forall k, m :: 0 <= k < m < |MatchesBelow(tokens, words, n)| ==>
              MatchesBelow(tokens, words, n)[k] < MatchesBelow(tokens, words, n)[m]
    ensures forall i :: 0 <= i < n ==> (i in MatchesBelow(tokens, words, n) <==> IsMatch(tokens, words[i]))
  {
    if n > 0 {
      var prev := MatchesBelow(tokens, words, n - 1);
      MatchesBelowSpec(tokens, words, n - 1);
      var hit := IsMatch(tokens, words[n - 1]);
      var r := MatchesBelow(tokens, words, n);
      assert r == prev + (if hit then [n - 1] else []);
      assert forall k :: 0 <= k < |prev| ==> r[k] == prev[k];
      assert hit ==> r[|prev|] == n - 1;
      forall i | 0 <= i < n
        ensures i in r <==> IsMatch(tokens, words[i])
      {
        if i < n - 1 {
          assert i in r <==> i in prev;
        } else {
          assert n - 1 !in prev;
        }
      }
    }
  }

  /** The recorded indices are strictly increasing (so each is recorded once), lie below the
      word count, and index `i` is recorded iff word `i` matches. */
  lemma MatchesSpec(tokens: seq<string>, words: seq<string>)
    ensures forall k :: 0 <= k < |Matches(tokens, words)| ==> Matches(tokens, words)[k] < |words|
    ensures forall k, m :: 0 <= k < m < |Matches(tokens, words)| ==>
              Matches(tokens, words)[k] < Matches(tokens, words)[m]
    ensures forall i :: 0 <= i < |words| ==> (i in Matches(tokens, words) <==> IsMatch(tokens, words[i]))
  {
    MatchesBelowSpec(tokens, words, |words|);
  }

  /** No word matches, no index is recorded. */
  lemma {:induction false} NoMatches(tokens: seq<string>, words: seq<string>, n: nat)
    requires n <= |words|
    requires forall i :: 0 <= i < n ==> !IsMatch(tokens, words[i])
    ensures MatchesBelow(tokens, words, n) == []
  {
    if n > 0 {
      NoMatches(tokens, words, n - 1);
    }
  }

  /** The matching loop of `generateExcerpt`, over the lower-cased body words. */
  method MatchIndices(tokens: seq<string>, words: seq<string>) returns (indices: seq<nat>)
    ensures indices == Matches(tokens, words)
  {
    indices := [];
    var i := 0;
    while i < |words|
      invariant 0 <= i <= |words|
      invariant indices == MatchesBelow(tokens, words, i)
    {
      var word := Normalise(words[i]);
      if word.Some? {
        var pieces := SplitCompound(word.value);
        var j := 0;
        while j < |pieces|
          invariant 0 <= j <= |pieces|
          invariant indices == MatchesBelow(tokens, words, i)
          invariant forall q :: 0 <= q < j ==> !(|pieces[q]| > 0 && pieces[q] in tokens)
        {
          if |pieces[j]| > 0 && pieces[j] in tokens {
            indices := indices + [i];
            break;
          }
          j := j + 1;
        }
      }
      i := i + 1;
    }
  }
}
