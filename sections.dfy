/** The `Section` class of src/index.js: a window over the body's words whose fields `append`
    updates in place. Each method is proved against the window functions of `Windows` and
    `Render`. */
module Sections {
  import opened Wrappers
  import opened Text
  import opened Windows
  import opened Escaping
  import opened Render

  class Section {
    var start: int
    var finish: int
    var words: seq<string>
    /** The source's `indicies`: positions in `words` to emphasise. */
    var offsets: seq<int>

    /** The fields as a value. */
    function Value(): Window
      reads this
    {
      Window(start, finish, words, offsets)
    }

    /** `new Section(index, words, contextOptions)`: the window around match `index`. */
    constructor (index: nat, body: seq<string>, opts: ContextOptions)
      requires index < |body|
      ensures Value() == WindowAt(body, index, opts)
    {
      var s: int, f: int;
      if opts.regex.Some? {
        var sb := StartBoundary(opts.regex.value);
        var fb := FinishBoundary(opts.regex.value);
        var before := NearestBefore(body, index, sb.test);
        if before.Some? {
          s := if sb.inclusive then before.value else before.value + 1;
        } else {
          s := 0;
        }
        var after := NearestFrom(body, index + 1, fb.test);
        if after.Some? {
          f := if fb.inclusive then after.value + 1 else after.value;
        } else {
          f := |body|;
        }
      } else {
        s := if index - opts.words < 0 then 0 else index - opts.words;
        f := if index + opts.words + 1 < |body| then index + opts.words + 1 else |body|;
      }
      start := s;
      finish := f;
      words := body[s..f];
      offsets := [index - s];
    }

    /** `new Section()` without an index, which sets no field; `deepCopy` fills it in. */
    constructor Empty()
      ensures Value() == Window(0, 0, [], [])
    {
      start := 0;
      finish := 0;
      words := [];
      offsets := [];
    }

    /** `deepCopy()`: a new section with the same fields. */
    method DeepCopy() returns (copy: Section)
      ensures fresh(copy)
      ensures copy.Value() == Value()
    {
      copy := new Section.Empty();
      copy.start := start;
      copy.finish := finish;
      copy.words := words;
      copy.offsets := offsets;
    }

    /** `append(other)`: this section takes in the other's words. The offset loop runs
        `Number(other.indicies)` times; only its first iteration pushes a position, later
        ones push `NaN`, which no position equals and which is not modelled. */
    method Append(other: Section)
      requires other != this
      modifies this
      ensures Value() == Appended(old(Value()), other.Value())
    {
      if finish >= other.start {
        words := words[..SliceEnd(|words|, |words| - (finish - other.start))];
      } else {
        words := words + [Ellipsis];
      }
      var count := if |other.offsets| == 1 then other.offsets[0] else 0;
      var pushed := offsets;
      var i := 0;
      while i < count
        invariant 0 <= i && (count > 0 ==> i <= count)
        invariant i > 0 ==> |other.offsets| == 1 && other.offsets[0] > 0
        invariant pushed == offsets + (if i > 0 then [other.offsets[0] + |words|] else [])
      {
        if i == 0 {
          pushed := pushed + [other.offsets[0] + |words|];
        }
        i := i + 1;
      }
      offsets := pushed;
      words := words + other.words;
      finish := other.finish;
    }

    /** `join(other)`: a merged copy; neither section changes. */
    method Join(other: Section) returns (merged: Section)
      ensures fresh(merged)
      ensures Value() == old(Value()) && other.Value() == old(other.Value())
      ensures merged.Value() == Appended(Value(), other.Value())
    {
      merged := DeepCopy();
      merged.Append(other);
    }

    /** `length()`: one space between neighbouring words plus every word's characters, which
        for a non-empty section is the length of its words joined by spaces. */
    method Length() returns (n: int)
      ensures n == Len(Value())
      ensures |words| > 0 ==> n == |JoinWords(words)|
    {
      n := |words| - 1;
      var i := 0;
      while i < |words|
        invariant 0 <= i <= |words|
        invariant n == |words| - 1 + TotalLength(words[..i])
      {
        assert words[..i + 1][..i] == words[..i];
        n := n + |words[i]|;
        i := i + 1;
      }
      assert words[..|words|] == words;
      if |words| > 0 {
        LenIsJoinedLength(Value());
      }
    }

    /** `toHTML()`: the rendering of the section. */
    method ToHtml() returns (html: string)
      ensures html == Html(Value())
    {
      var lead := if start == 0 then "" else Ellipsis;
      var output := lead;
      var i := 0;
      while i < |words|
        invariant 0 <= i <= |words|
        invariant output == lead + Spaced(Shown(words, offsets, i))
      {
        ghost var before := Spaced(Shown(words, offsets, i));
        var piece;
        if i in offsets {
          piece := " <strong>" + EscapeHtml(words[i]) + "</strong>";
        } else {
          piece := " " + EscapeHtml(words[i]);
        }
        ShownStep(words, offsets, i);
        SeqAssoc(lead, before, piece);
        output := output + piece;
        i := i + 1;
      }
      assert output == Lead(start) + Spaced(Shown(words, offsets, |words|));
      html := Trim(output) + " " + Ellipsis;
      assert html == Html(Window(start, finish, words, offsets));
    }
  }
}
