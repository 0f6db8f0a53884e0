/** Characters, whitespace splitting, lower-casing and joining: the string plumbing that the
    excerpt generator runs through `match(/\S+/g)`, `toLowerCase()` and `join(' ')`. */
module Text {

  /** JavaScript's `\s` class (and the set `String.prototype.trim` removes): the ECMAScript
      WhiteSpace and LineTerminator code points. */
  predicate IsSpace(c: char) {
    || c == '\t' || c == '\n' || c == '\U{000B}' || c == '\U{000C}' || c == '\r' || c == ' '
    || c == '\U{00A0}' || c == '\U{1680}' || ('\U{2000}' <= c <= '\U{200A}')
    || c == '\U{2028}' || c == '\U{2029}' || c == '\U{202F}' || c == '\U{205F}'
    || c == '\U{3000}' || c == '\U{FEFF}'
  }

  /** A word as `/\S+/` matches it: non-empty and without whitespace. */
  predicate Solid(w: string) {
    |w| > 0 && forall k :: 0 <= k < |w| ==> !IsSpace(w[k])
  }

  predicate AllSolid(ws: seq<string>) {
    forall k :: 0 <= k < |ws| ==> Solid(ws[k])
  }

  /** End of the non-whitespace run that starts at `i`. */
  function RunEnd(s: string, i: nat): (e: nat)
    requires i <= |s|
    ensures i <= e <= |s|
    ensures forall k :: i <= k < e ==> !IsSpace(s[k])
    ensures e < |s| ==> IsSpace(s[e])
    decreases |s| - i
  {
    if i == |s| || IsSpace(s[i]) then i else RunEnd(s, i + 1)
  }

  /** `s.match(/\S+/g) || []`: the maximal non-whitespace runs of `s`, left to right. */
  function Words(s: string): (ws: seq<string>)
    ensures AllSolid(ws)
    decreases |s|
  {
    if s == [] then []
    else if IsSpace(s[0]) then Words(s[1..])
    else
      var e := RunEnd(s, 0);
      [s[..e]] + Words(s[e..])
  }

  /** `ws.join(' ')`. */
  function JoinWords(ws: seq<string>): string {
    if ws == [] then ""
    else if |ws| == 1 then ws[0]
    else ws[0] + " " + JoinWords(ws[1..])
  }

  lemma SeqAssoc<T>(x: seq<T>, y: seq<T>, z: seq<T>)
    ensures (x + y) + z == x + (y + z)
  {
  }

  /** Sum of the character counts of the words (the separating spaces not included). */
  function TotalLength(ws: seq<string>): nat {
    if ws == [] then 0 else TotalLength(ws[..|ws| - 1]) + |ws[|ws| - 1]|
  }

  /** ASCII lower-casing of one character. */
  function LowerChar(c: char): char {
    if 'A' <= c <= 'Z' then (c as int + 32) as char else c
  }

  /** `toLowerCase()`, restricted to the ASCII letters. */
  function Lower(s: string): (r: string)
    ensures |r| == |s|
  {
    seq(|s|, k requires 0 <= k < |s| => LowerChar(s[k]))
  }

  /** Each word lower-cased. */
  function LowerAll(ws: seq<string>): (r: seq<string>)
    ensures |r| == |ws|
  {
    seq(|ws|, k requires 0 <= k < |ws| => Lower(ws[k]))
  }

  // ---------------------------------------------------------------------------------------
  // Splitting and joining are inverse on solid words.

  lemma {:induction false} WordsOfSolidPrefix(w: string, t: string)
    requires Solid(w)
    requires t == [] || IsSpace(t[0])
    ensures Words(w + t) == [w] + Words(t)
  {
    var s := w + t;
    RunEndOfSolid(w, t, 0);
    assert s[..|w|] == w;
    assert s[|w|..] == t;
  }

  lemma {:induction false} RunEndOfSolid(w: string, t: string, i: nat)
    requires Solid(w) && i <= |w|
    requires t == [] || IsSpace(t[0])
    ensures RunEnd(w + t, i) == |w|
    decreases |w| - i
  {
    if i < |w| {
      assert (w + t)[i] == w[i];
      RunEndOfSolid(w, t, i + 1);
    }
  }

  /** Splitting the space-joined text of solid words gives the words back. */
  lemma {:induction false} WordsOfJoin(ws: seq<string>)
    requires AllSolid(ws)
    ensures Words(JoinWords(ws)) == ws
    decreases |ws|
  {
    if ws == [] {
    } else if |ws| == 1 {
      WordsOfSolidPrefix(ws[0], "");
      assert ws[0] + "" == ws[0];
    } else {
      var rest := JoinWords(ws[1..]);
      WordsOfJoin(ws[1..]);
      WordsOfSolidPrefix(ws[0], " " + rest);
      assert ws[0] + " " + rest == ws[0] + (" " + rest);
      assert (" " + rest)[1..] == rest;
      assert [ws[0]] + ws[1..] == ws;
    }
  }

  lemma {:induction false} TotalLengthCons(w: string, ws: seq<string>)
    ensures TotalLength([w] + ws) == |w| + TotalLength(ws)
    decreases |ws|
  {
    if ws != [] {
      var l := [w] + ws;
      assert l[..|l| - 1] == [w] + ws[..|ws| - 1];
      TotalLengthCons(w, ws[..|ws| - 1]);
    } else {
      assert ([w] + ws)[..0] == [];
    }
  }

  /** The length of `ws.join(' ')`: every character of every word plus one space between
      neighbours. */
  lemma {:induction false} JoinLength(ws: seq<string>)
    requires |ws| > 0
    ensures |JoinWords(ws)| == TotalLength(ws) + |ws| - 1
    decreases |ws|
  {
    if |ws| == 1 {
      assert ws[..0] == [];
    } else {
      JoinLength(ws[1..]);
      TotalLengthCons(ws[0], ws[1..]);
      assert [ws[0]] + ws[1..] == ws;
    }
  }

  // ---------------------------------------------------------------------------------------
  // The words are determined by the text: a character-by-character reference.

  /** Where a left-to-right scan of the text stands: no word character seen yet, just after a
      word character, or after whitespace that follows a word character. */
  datatype Scan = Start | InWord | Gap

  /** The rest of the collapsed text from scan state `st`: a word character is copied, preceded
      by one space when it ends a gap; whitespace is dropped. */
  function CollapseFrom(s: string, st: Scan): string
    decreases |s|
  {
    if s == [] then ""
    else if IsSpace(s[0]) then CollapseFrom(s[1..], if st == Start then Start else Gap)
    else (if st == Gap then " " else "") + [s[0]] + CollapseFrom(s[1..], InWord)
  }

  /** `s` with leading and trailing whitespace removed and every inner whitespace run replaced
      by one space. */
  function Collapse(s: string): string {
    CollapseFrom(s, Start)
  }

  /** Scanning from inside a run of word characters copies the rest of the run; the
      whitespace after it (if any) starts a gap. */
  lemma {:induction false} CollapseRun(s: string, i: nat, e: nat)
    requires i <= e <= |s| && (e == |s| || IsSpace(s[e]))
    requires forall k :: i <= k < e ==> !IsSpace(s[k])
    ensures CollapseFrom(s[i..], InWord) == s[i..e] + CollapseFrom(s[e..], Gap)
    decreases e - i
  {
    if i < e {
      var t := s[i..];
      assert t[0] == s[i] && t[1..] == s[i + 1..];
      CollapseRun(s, i + 1, e);
      assert s[i..e] == [s[i]] + s[i + 1..e];
      SeqAssoc([s[i]], s[i + 1..e], CollapseFrom(s[e..], Gap));
    }
  }

  /** A text that starts with a word collapses to that word (after a space when the scan is in
      a gap) followed by what the rest collapses to from a gap. */
  lemma CollapseHead(s: string, st: Scan)
    requires s != [] && !IsSpace(s[0]) && st != InWord
    ensures CollapseFrom(s, st) ==
              (if st == Gap then " " else "") + (s[..RunEnd(s, 0)] + CollapseFrom(s[RunEnd(s, 0)..], Gap))
  {
    var e := RunEnd(s, 0);
    var tail := CollapseFrom(s[e..], Gap);
    CollapseRun(s, 1, e);
    assert s[..e] == [s[0]] + s[1..e];
    SeqAssoc([s[0]], s[1..e], tail);
    SeqAssoc(if st == Gap then " " else "", [s[0]], s[1..e] + tail);
  }

  /** `join(' ')` of a list seen from its first word. */
  lemma JoinFront(w: string, ws: seq<string>)
    ensures JoinWords([w] + ws) == w + (if ws == [] then "" else " " + JoinWords(ws))
  {
    var l := [w] + ws;
    assert l[0] == w && l[1..] == ws;
    if ws == [] {
      assert w + "" == w;
    } else {
      SeqAssoc(w, " ", JoinWords(ws));
    }
  }

  /** The collapsed text from the start and from a gap, in terms of the words. */
  lemma {:induction false} CollapseWords(s: string)
    ensures CollapseFrom(s, Start) == JoinWords(Words(s))
    ensures CollapseFrom(s, Gap) == if Words(s) == [] then "" else " " + JoinWords(Words(s))
    decreases |s|
  {
    if s != [] && IsSpace(s[0]) {
      CollapseWords(s[1..]);
    } else if s != [] {
      var e := RunEnd(s, 0);
      CollapseHead(s, Start);
      CollapseHead(s, Gap);
      CollapseWords(s[e..]);
      JoinFront(s[..e], Words(s[e..]));
    }
  }

  /** Splitting and joining the words collapses the whitespace of the text. */
  lemma WordsCollapse(s: string)
    ensures JoinWords(Words(s)) == Collapse(s)
  {
    CollapseWords(s);
  }

  /** The words of a text are the only list of non-empty, whitespace-free words whose
      space-joined text is the collapsed text. */
  lemma WordsUnique(s: string, ws: seq<string>)
    requires AllSolid(ws) && JoinWords(ws) == Collapse(s)
    ensures ws == Words(s)
  {
    WordsOfJoin(ws);
    WordsCollapse(s);
    WordsOfJoin(Words(s));
  }

  // ---------------------------------------------------------------------------------------
  // Lower-casing keeps the word boundaries.

  lemma LowerCharKeepsSpace(c: char)
    ensures IsSpace(LowerChar(c)) == IsSpace(c)
  {
  }

  lemma {:induction false} RunEndLower(s: string, i: nat)
    requires i <= |s|
    ensures RunEnd(Lower(s), i) == RunEnd(s, i)
    decreases |s| - i
  {
    if i < |s| {
      LowerCharKeepsSpace(s[i]);
      RunEndLower(s, i + 1);
    }
  }

  /** Splitting the lower-cased text gives the lower-cased words, position by position: the
      index a word has among `Words(Lower(s))` is its index among `Words(s)`. */
  lemma {:induction false} WordsLower(s: string)
    ensures Words(Lower(s)) == LowerAll(Words(s))
    decreases |s|
  {
    var l := Lower(s);
    if s == [] {
    } else if IsSpace(s[0]) {
      LowerCharKeepsSpace(s[0]);
      assert l[1..] == Lower(s[1..]);
      WordsLower(s[1..]);
    } else {
      LowerCharKeepsSpace(s[0]);
      var e := RunEnd(s, 0);
      RunEndLower(s, 0);
      assert l[..e] == Lower(s[..e]);
      assert l[e..] == Lower(s[e..]);
      WordsLower(s[e..]);
      assert Words(l) == [Lower(s[..e])] + LowerAll(Words(s[e..]));
      assert Words(s) == [s[..e]] + Words(s[e..]);
    }
  }
}
