/** `Section.toHTML()` (src/index.js) as a function of the window: a leading ellipsis when the
    window does not start at the first body word, every word escaped and preceded by a space,
    the emphasised ones inside `<strong>`, the whole trimmed and followed by " …". */
module Render {
  import opened Text
  import opened Escaping
  import opened Windows

  // ---------------------------------------------------------------------------------------
  // String.prototype.trim

  /** `s` without its leading whitespace. */
  function TrimStart(s: string): string
    decreases |s|
  {
    if s == [] || !IsSpace(s[0]) then s else TrimStart(s[1..])
  }

  /** `s` without its trailing whitespace. */
  function TrimEnd(s: string): string
    decreases |s|
  {
    if s == [] || !IsSpace(s[|s| - 1]) then s else TrimEnd(s[..|s| - 1])
  }

  /** Trimming the start removes exactly the leading whitespace: what is left is a suffix
      that is empty or starts with a non-whitespace character, and everything removed is
      whitespace. */
  lemma {:induction false} TrimStartSpec(s: string)
    ensures |TrimStart(s)| <= |s| && TrimStart(s) == s[|s| - |TrimStart(s)|..]
    ensures forall k :: 0 <= k < |s| - |TrimStart(s)| ==> IsSpace(s[k])
    ensures TrimStart(s) == [] || !IsSpace(TrimStart(s)[0])
    decreases |s|
  {
    if s != [] && IsSpace(s[0]) {
      TrimStartSpec(s[1..]);
    }
  }

  /** Trimming the end removes exactly the trailing whitespace. */
  lemma {:induction false} TrimEndSpec(s: string)
    ensures |TrimEnd(s)| <= |s| && TrimEnd(s) == s[..|TrimEnd(s)|]
    ensures forall k :: |TrimEnd(s)| <= k < |s| ==> IsSpace(s[k])
    ensures TrimEnd(s) == [] || !IsSpace(TrimEnd(s)[|TrimEnd(s)| - 1])
    decreases |s|
  {
    if s != [] && IsSpace(s[|s| - 1]) {
      TrimEndSpec(s[..|s| - 1]);
    }
  }

  /** `s.trim()`. */
  function Trim(s: string): string {
    TrimEnd(TrimStart(s))
  }

  /** Trimming leaves text that neither starts nor ends with whitespace as it is. */
  lemma TrimSolidEnds(s: string)
    requires |s| > 0 && !IsSpace(s[0]) && !IsSpace(s[|s| - 1])
    ensures Trim(s) == s
  {
  }

  // ---------------------------------------------------------------------------------------
  // The rendering

  /** What the loop of `toHTML` writes for one word (after its separating space): the
      escaped word, inside `<strong>` when it is emphasised. */
  function Piece(word: string, marked: bool): string {
    if marked then "<strong>" + EscapeHtml(word) + "</strong>" else EscapeHtml(word)
  }

  /** The pieces of the first `n` words; word `k` is emphasised iff `indicies.indexOf(k) > -1`. */
  function Shown(words: seq<string>, offsets: seq<int>, n: nat): seq<string>
    requires n <= |words|
  {
    seq(n, k requires 0 <= k < n => Piece(words[k], k in offsets))
  }

  /** The pieces, each after one space, as the loop concatenates them. */
  function Spaced(ps: seq<string>): string {
    if ps == [] then "" else Spaced(ps[..|ps| - 1]) + " " + ps[|ps| - 1]
  }

  /** The pieces of one more word: the pieces so far, then that word's piece. */
  lemma ShownSnoc(words: seq<string>, offsets: seq<int>, i: nat)
    requires i < |words|
    ensures |Shown(words, offsets, i + 1)| == i + 1
    ensures Shown(words, offsets, i + 1)[..i] == Shown(words, offsets, i)
    ensures Shown(words, offsets, i + 1)[i] == Piece(words[i], i in offsets)
  {
  }

  /** A piece after its separating space, as the loop of `toHTML` writes it. */
  lemma SpacedPiece(word: string, marked: bool)
    ensures " " + Piece(word, marked) ==
              if marked then " <strong>" + EscapeHtml(word) + "</strong>" else " " + EscapeHtml(word)
  {
    if marked {
      var e := EscapeHtml(word);
      SeqAssoc(" ", "<strong>" + e, "</strong>");
      SeqAssoc(" ", "<strong>", e);
      assert " " + "<strong>" == " <strong>";
    }
  }

  /** One more word adds what the loop of `toHTML` appends for it. */
  lemma ShownStep(words: seq<string>, offsets: seq<int>, i: nat)
    requires i < |words|
    ensures Spaced(Shown(words, offsets, i + 1)) == Spaced(Shown(words, offsets, i)) +
              (if i in offsets then " <strong>" + EscapeHtml(words[i]) + "</strong>" else " " + EscapeHtml(words[i]))
  {
    var ps := Shown(words, offsets, i + 1);
    ShownSnoc(words, offsets, i);
    var before := Spaced(Shown(words, offsets, i));
    var p := Piece(words[i], i in offsets);
    assert Spaced(ps) == before + " " + p;
    SeqAssoc(before, " ", p);
    SpacedPiece(words[i], i in offsets);
  }

  /** The text `toHTML` starts from. */
  function Lead(start: int): string {
    if start == 0 then "" else Ellipsis
  }

  /** `toHTML()` of a section whose fields are `w`. */
  function Html(w: Window): string {
    Trim(Lead(w.start) + Spaced(Shown(w.words, w.offsets, |w.words|))) + " " + Ellipsis
  }

  /** The leading ellipsis, as a word. */
  function LeadWords(start: int): seq<string> {
    if start == 0 then [] else [Ellipsis]
  }

  // ---------------------------------------------------------------------------------------
  // Reading the rendering back

  /** Whether a piece is wrapped in `<strong>…</strong>`. */
  predicate Wrapped(p: string) {
    |p| >= 17 && p[..8] == "<strong>" && p[|p| - 9..] == "</strong>"
  }

  /** A piece without its `<strong>` wrapper, if it has one. */
  function Unwrap(p: string): string {
    if Wrapped(p) then p[8..|p| - 9] else p
  }

  /** A piece tells whether its word was emphasised, and unescaping its content gives the
      word back. */
  lemma PieceReadBack(word: string, marked: bool)
    ensures Wrapped(Piece(word, marked)) == marked
    ensures UnescapeHtml(Unwrap(Piece(word, marked))) == word
  {
    var e := EscapeHtml(word);
    EscapeRoundTrip(word);
    if marked {
      var p := "<strong>" + e + "</strong>";
      assert p[..8] == "<strong>";
      assert p[|p| - 9..] == "</strong>";
      assert p[8..|p| - 9] == e;
    } else if |e| >= 17 {
      assert e[..8][0] == e[0];
      assert !IsMarkup(e[0]);
    }
  }

  /** Reading a window's pieces back: piece `k` is wrapped in `<strong>` iff `k` is one of the
      offsets, and unescaping its content gives word `k`. */
  lemma ShownReadBack(words: seq<string>, offsets: seq<int>)
    ensures forall k :: 0 <= k < |words| ==>
              && (Wrapped(Shown(words, offsets, |words|)[k]) <==> k in offsets)
              && UnescapeHtml(Unwrap(Shown(words, offsets, |words|)[k])) == words[k]
  {
    forall k | 0 <= k < |words|
      ensures Wrapped(Shown(words, offsets, |words|)[k]) <==> k in offsets
      ensures UnescapeHtml(Unwrap(Shown(words, offsets, |words|)[k])) == words[k]
    {
      PieceReadBack(words[k], k in offsets);
    }
  }

  lemma PieceSolid(word: string, marked: bool)
    requires Solid(word)
    ensures Solid(Piece(word, marked))
  {
    EscapeSolid(word);
  }

  lemma ShownSolid(words: seq<string>, offsets: seq<int>)
    requires AllSolid(words)
    ensures AllSolid(Shown(words, offsets, |words|))
  {
    var ps := Shown(words, offsets, |words|);
    forall k | 0 <= k < |ps| ensures Solid(ps[k]) {
      PieceSolid(words[k], k in offsets);
    }
  }

  /** `join(' ')` of a list with one more word at the end. */
  lemma {:induction false} JoinSnoc(ws: seq<string>, w: string)
    requires |ws| > 0
    ensures JoinWords(ws + [w]) == JoinWords(ws) + " " + w
    decreases |ws|
  {
    if |ws| == 1 {
      assert (ws + [w])[1..] == [w];
    } else {
      JoinSnoc(ws[1..], w);
      assert (ws + [w])[1..] == ws[1..] + [w];
    }
  }

  /** Writing a space before each piece is writing one space and then the pieces joined by
      spaces. */
  lemma {:induction false} SpacedIsJoined(ps: seq<string>)
    requires |ps| > 0
    ensures Spaced(ps) == " " + JoinWords(ps)
    decreases |ps|
  {
    var init := ps[..|ps| - 1];
    if |ps| > 1 {
      SpacedIsJoined(init);
      JoinSnoc(init, ps[|ps| - 1]);
      assert init + [ps[|ps| - 1]] == ps;
    }
  }

  /** `join(' ')` of a list with one more word in front. */
  lemma JoinCons(w: string, ws: seq<string>)
    requires |ws| > 0
    ensures JoinWords([w] + ws) == w + " " + JoinWords(ws)
  {
    assert ([w] + ws)[1..] == ws;
  }

  /** Words joined by spaces neither start nor end with whitespace. */
  lemma {:induction false} JoinedEnds(ws: seq<string>)
    requires |ws| > 0 && AllSolid(ws)
    ensures |JoinWords(ws)| > 0
    ensures !IsSpace(JoinWords(ws)[0]) && !IsSpace(JoinWords(ws)[|JoinWords(ws)| - 1])
    decreases |ws|
  {
    if |ws| > 1 {
      JoinedEnds(ws[1..]);
    }
  }

  /** Trimming removes the one space before text that neither starts nor ends with
      whitespace. */
  lemma TrimAfterSpace(j: string)
    requires |j| > 0 && !IsSpace(j[0]) && !IsSpace(j[|j| - 1])
    ensures Trim(" " + j) == j
  {
    assert (" " + j)[1..] == j;
    assert TrimStart(" " + j) == TrimStart(j);
    TrimSolidEnds(j);
  }

  /** Trimming leaves the ellipsis, a space and text that does not end with whitespace as
      they are. */
  lemma TrimAfterEllipsis(j: string)
    requires |j| > 0 && !IsSpace(j[|j| - 1])
    ensures Trim(Ellipsis + " " + j) == Ellipsis + " " + j
  {
    var t := Ellipsis + " " + j;
    assert |Ellipsis| == 1;
    assert t[0] == Ellipsis[0] == '\U{2026}';
    assert !IsSpace(t[0]);
    assert t[|t| - 1] == j[|j| - 1];
    TrimSolidEnds(t);
  }

  /** Trimming the lead and the spaced pieces leaves the lead word and the pieces joined by
      single spaces. */
  lemma TrimmedLine(start: int, ps: seq<string>)
    requires |ps| > 0 && AllSolid(ps)
    ensures Trim(Lead(start) + Spaced(ps)) == JoinWords(LeadWords(start) + ps)
  {
    SpacedIsJoined(ps);
    JoinedEnds(ps);
    var j := JoinWords(ps);
    if start == 0 {
      TrimmedAfterNothing(start, ps, j);
    } else {
      TrimmedAfterEllipsis(start, ps, j);
    }
  }

  lemma TrimmedAfterNothing(start: int, ps: seq<string>, j: string)
    requires start == 0 && j == JoinWords(ps) && Spaced(ps) == " " + j
    requires |j| > 0 && !IsSpace(j[0]) && !IsSpace(j[|j| - 1])
    ensures Trim(Lead(start) + Spaced(ps)) == JoinWords(LeadWords(start) + ps)
  {
    assert Lead(start) + Spaced(ps) == " " + j;
    TrimAfterSpace(j);
    assert LeadWords(start) + ps == ps;
  }

  lemma TrimmedAfterEllipsis(start: int, ps: seq<string>, j: string)
    requires start != 0 && |ps| > 0 && j == JoinWords(ps) && Spaced(ps) == " " + j
    requires |j| > 0 && !IsSpace(j[|j| - 1])
    ensures Trim(Lead(start) + Spaced(ps)) == JoinWords(LeadWords(start) + ps)
  {
    assert Lead(start) + Spaced(ps) == Ellipsis + " " + j;
    TrimAfterEllipsis(j);
    JoinCons(Ellipsis, ps);
  }

  /** A rendered window, read as words: the leading ellipsis when the window does not start
      at the first body word, then one piece per window word (escaped, emphasised exactly at
      the offsets), then the closing ellipsis; the rendering is those words joined by single
      spaces. */
  lemma HtmlWords(w: Window)
    requires |w.words| > 0 && AllSolid(w.words)
    ensures Html(w) == JoinWords(LeadWords(w.start) + Shown(w.words, w.offsets, |w.words|) + [Ellipsis])
    ensures Words(Html(w)) == LeadWords(w.start) + Shown(w.words, w.offsets, |w.words|) + [Ellipsis]
  {
    var ps := Shown(w.words, w.offsets, |w.words|);
    ShownSolid(w.words, w.offsets);
    TrimmedLine(w.start, ps);
    var all := LeadWords(w.start) + ps;
    JoinSnoc(all, Ellipsis);
    SolidEllipsis();
    assert AllSolid(all + [Ellipsis]);
    WordsOfJoin(all + [Ellipsis]);
  }

  /** The rendering always ends with " …". */
  lemma HtmlClosing(w: Window)
    ensures |Html(w)| >= 2 && Html(w)[|Html(w)| - 2..] == " " + Ellipsis
  {
    var t := Trim(Lead(w.start) + Spaced(Shown(w.words, w.offsets, |w.words|)));
    assert Html(w) == t + " " + Ellipsis;
    assert (t + " " + Ellipsis)[|t|..] == " " + Ellipsis;
  }

  /** The rendering begins with "…" when the window does not start at the first body word. */
  lemma HtmlOpening(w: Window)
    requires |w.words| > 0 && AllSolid(w.words) && w.start != 0
    ensures Html(w)[0] == Ellipsis[0]
  {
    var ps := Shown(w.words, w.offsets, |w.words|);
    var t := Trim(Lead(w.start) + Spaced(ps));
    ShownSolid(w.words, w.offsets);
    TrimmedLine(w.start, ps);
    JoinCons(Ellipsis, ps);
    assert t == Ellipsis + " " + JoinWords(ps);
    assert Html(w) == t + " " + Ellipsis;
  }
}
