/** Windows over the body's words (the value behind `Section`): how a match position becomes
    a window, how two windows merge, how long a window is, and the greedy left-to-right
    assembly of `excerptFromArr` (src/index.js). */
module Windows {
  import opened Wrappers
  import opened Text

  /** The ellipsis character U+2026 that marks skipped words. */
  const Ellipsis: string := "\U{2026}"

  // ---------------------------------------------------------------------------------------
  // Context options

  /** A boundary pattern: the JavaScript RegExp tested with `word.match(...)`, kept abstract
      as a predicate on words, and its `include` flag when one was given. A bare pattern is
      `Pattern(test, None)`. */
  datatype Pattern = Pattern(test: string -> bool, inclusive: Option<bool>)

  /** The shapes of `contextOptions.regex`: one pattern for both ends (bare or with `include`),
      or an object with distinct `start` and `finish` patterns. */
  datatype BoundaryRule = Both(rule: Pattern) | Ends(start: Pattern, finish: Pattern)

  /** The options after defaults are applied: `words` of context on each side, or a boundary
      rule that overrides it (`regex: null` is `None`). */
  datatype ContextOptions = ContextOptions(words: nat, regex: Option<BoundaryRule>)

  /** A boundary as the constructor resolves it: `include` defaults to true. */
  datatype Boundary = Boundary(test: string -> bool, inclusive: bool)

  function Resolve(p: Pattern): Boundary {
    Boundary(p.test, if p.inclusive.Some? then p.inclusive.value else true)
  }

  function StartBoundary(rule: BoundaryRule): Boundary {
    match rule
    case Both(p) => Resolve(p)
    case Ends(s, _) => Resolve(s)
  }

  function FinishBoundary(rule: BoundaryRule): Boundary {
    match rule
    case Both(p) => Resolve(p)
    case Ends(_, f) => Resolve(f)
  }

  // ---------------------------------------------------------------------------------------
  // Boundary scans

  /** `words.slice(0, index).reverse().findIndex(test)`, as the position it designates: the
      nearest word before `index` that passes the test. */
  function NearestBefore(body: seq<string>, index: nat, test: string -> bool): (r: Option<nat>)
    requires index <= |body|
    ensures r.Some? ==> r.value < index && test(body[r.value])
    ensures r.Some? ==> forall m :: r.value < m < index ==> !test(body[m])
    ensures r.None? ==> forall m :: 0 <= m < index ==> !test(body[m])
    decreases index
  {
    if index == 0 then None
    else if test(body[index - 1]) then Some(index - 1)
    else NearestBefore(body, index - 1, test)
  }

  /** `words.slice(from).findIndex(test)`, as the position it designates: the first word at
      or after `from` that passes the test. */
  function NearestFrom(body: seq<string>, from: nat, test: string -> bool): (r: Option<nat>)
    requires from <= |body|
    ensures r.Some? ==> from <= r.value < |body| && test(body[r.value])
    ensures r.Some? ==> forall m :: from <= m < r.value ==> !test(body[m])
    ensures r.None? ==> forall m :: from <= m < |body| ==> !test(body[m])
    decreases |body| - from
  {
    if from == |body| then None
    else if test(body[from]) then Some(from)
    else NearestFrom(body, from + 1, test)
  }

  // ---------------------------------------------------------------------------------------
  // Windows

  /** A `Section`'s fields as a value: the half-open range `[start, finish)` of body words,
      the words it shows and the offsets (the source's `indicies`) of the words to emphasise. */
  datatype Window = Window(start: int, finish: int, words: seq<string>, offsets: seq<int>)

  function WindowStart(body: seq<string>, index: nat, opts: ContextOptions): nat
    requires index < |body|
  {
    match opts.regex
    case None => if index - opts.words < 0 then 0 else index - opts.words
    case Some(rule) =>
      var b := StartBoundary(rule);
      var hit := NearestBefore(body, index, b.test);
      if hit.None? then 0 else if b.inclusive then hit.value else hit.value + 1
  }

  function WindowFinish(body: seq<string>, index: nat, opts: ContextOptions): nat
    requires index < |body|
  {
    match opts.regex
    case None => if index + opts.words + 1 < |body| then index + opts.words + 1 else |body|
    case Some(rule) =>
      var b := FinishBoundary(rule);
      var hit := NearestFrom(body, index + 1, b.test);
      if hit.None? then |body| else if b.inclusive then hit.value + 1 else hit.value
  }

  /** The window `new Section(index, words, contextOptions)` builds around match `index`: it
      always contains the match, lies inside the body, shows a fresh slice of the body and
      marks exactly the match. */
  function WindowAt(body: seq<string>, index: nat, opts: ContextOptions): (w: Window)
    requires index < |body|
    ensures 0 <= w.start <= index < w.finish <= |body|
    ensures w.words == body[w.start..w.finish]
    ensures w.offsets == [index - w.start]
  {
    var s := WindowStart(body, index, opts);
    var f := WindowFinish(body, index, opts);
    Window(s, f, body[s..f], [index - s])
  }

  /** With fixed-width context, the window spans `words` words on each side of the match,
      clipped to the body. */
  lemma FixedWindow(body: seq<string>, index: nat, opts: ContextOptions)
    requires index < |body| && opts.regex.None?
    ensures WindowAt(body, index, opts).start == (if index - opts.words < 0 then 0 else index - opts.words)
    ensures WindowAt(body, index, opts).finish ==
              (if index + opts.words + 1 < |body| then index + opts.words + 1 else |body|)
  {
  }

  /** With a boundary rule, the window reaches back to the nearest start boundary before the
      match (or to the first word) and forward to the first finish boundary after it (or to
      the last word); the boundary word is inside iff its `include` flag is set. */
  lemma BoundedWindow(body: seq<string>, index: nat, opts: ContextOptions)
    requires index < |body| && opts.regex.Some?
    ensures var w, sb := WindowAt(body, index, opts), StartBoundary(opts.regex.value);
            var edge := if sb.inclusive then w.start else w.start - 1;
            && (forall m :: edge < m < index ==> !sb.test(body[m]))
            && (w.start > 0 ==> 0 <= edge && sb.test(body[edge]))
    ensures var w, fb := WindowAt(body, index, opts), FinishBoundary(opts.regex.value);
            var edge := if fb.inclusive then w.finish - 1 else w.finish;
            && (forall m :: index < m < edge ==> !fb.test(body[m]))
            && (w.finish < |body| ==> fb.test(body[edge]))
  {
    var sb := StartBoundary(opts.regex.value);
    var fb := FinishBoundary(opts.regex.value);
    var before := NearestBefore(body, index, sb.test);
    var after := NearestFrom(body, index + 1, fb.test);
  }

  /** A hit at `b` before `j` means the nearest hit before `j` is at `b` or later. */
  lemma {:induction false} NearestBeforeAtLeast(body: seq<string>, j: nat, test: string -> bool, b: nat)
    requires b < j <= |body| && test(body[b])
    ensures NearestBefore(body, j, test).Some? && NearestBefore(body, j, test).value >= b
    decreases j
  {
    if j - 1 != b && !test(body[j - 1]) {
      NearestBeforeAtLeast(body, j - 1, test, b);
    }
  }

  /** Skipping words that do not pass the test does not change the first hit. */
  lemma {:induction false} NearestFromSkip(body: seq<string>, from: nat, stop: nat, test: string -> bool)
    requires from <= stop <= |body|
    requires forall m :: from <= m < stop ==> !test(body[m])
    ensures NearestFrom(body, from, test) == NearestFrom(body, stop, test)
    decreases stop - from
  {
    if from < stop {
      NearestFromSkip(body, from + 1, stop, test);
    }
  }

  /** Windows of later matches start and finish no earlier. */
  lemma WindowAtMonotone(body: seq<string>, i: nat, j: nat, opts: ContextOptions)
    requires i <= j < |body|
    ensures WindowAt(body, i, opts).start <= WindowAt(body, j, opts).start
    ensures WindowAt(body, i, opts).finish <= WindowAt(body, j, opts).finish
  {
    if opts.regex.Some? {
      var sb := StartBoundary(opts.regex.value);
      var fb := FinishBoundary(opts.regex.value);
      var bi := NearestBefore(body, i, sb.test);
      if bi.Some? {
        NearestBeforeAtLeast(body, j, sb.test, bi.value);
      }
      var ai := NearestFrom(body, i + 1, fb.test);
      if ai.None? {
        NearestFromSkip(body, i + 1, j + 1, fb.test);
      } else if ai.value >= j + 1 {
        NearestFromSkip(body, i + 1, j + 1, fb.test);
      }
    }
  }

  // ---------------------------------------------------------------------------------------
  // Merging

  /** The end position `Array.prototype.slice(0, end)` uses on an array of length `n`: a
      negative `end` counts from the back. */
  function SliceEnd(n: nat, end: int): (e: nat)
    ensures e <= n
    ensures 0 <= end <= n ==> e == end
  {
    if end < 0 then (if n + end < 0 then 0 else n + end)
    else if end > n then n
    else end
  }

  /** `append`, as a function of the two windows. The offset loop runs to `other.indicies`
      coerced to a number: for the one-element array every window has, that is the offset
      itself, so the shifted offset is added only when it is positive (further iterations
      only push `NaN`, which never equals a position). */
  function Appended(w: Window, o: Window): Window {
    var kept :=
      if w.finish >= o.start then w.words[..SliceEnd(|w.words|, |w.words| - (w.finish - o.start))]
      else w.words + [Ellipsis];
    var shifted := if |o.offsets| == 1 && o.offsets[0] > 0 then [o.offsets[0] + |kept|] else [];
    Window(w.start, o.finish, kept + o.words, w.offsets + shifted)
  }

  /** Merging keeps the start and takes the other's finish; touching or overlapping windows
      are trimmed by the overlap `w.finish - o.start`, separate ones get an ellipsis word
      between them; the other's offset, shifted past what was kept, is added iff it is
      positive. */
  lemma AppendedSpec(w: Window, o: Window)
    requires |o.offsets| == 1
    ensures Appended(w, o).start == w.start && Appended(w, o).finish == o.finish
    ensures 0 <= w.finish - o.start <= |w.words| ==>
              Appended(w, o).words == w.words[..|w.words| - (w.finish - o.start)] + o.words
    ensures w.finish < o.start ==> Appended(w, o).words == w.words + [Ellipsis] + o.words
    ensures Appended(w, o).offsets ==
              w.offsets + (if o.offsets[0] > 0 then [o.offsets[0] + |Appended(w, o).words| - |o.words|] else [])
  {
  }

  /** Merging a window with one that starts inside it or right after it, when both show fresh
      slices of the body, shows the fresh slice of their union. */
  lemma AppendContiguous(body: seq<string>, w: Window, o: Window)
    requires 0 <= w.start <= o.start <= w.finish <= o.finish <= |body|
    requires w.words == body[w.start..w.finish] && o.words == body[o.start..o.finish]
    ensures Appended(w, o).words == body[w.start..o.finish]
  {
    var n := |w.words|;
    var d := w.finish - o.start;
    assert SliceEnd(n, n - d) == n - d;
    assert w.words[..n - d] == body[w.start..o.start];
    assert body[w.start..o.start] + body[o.start..o.finish] == body[w.start..o.finish];
  }

  /** `length()`: the characters of the words plus one space between neighbours. */
  function Len(w: Window): int {
    TotalLength(w.words) + |w.words| - 1
  }

  /** A window's length is the length of its words joined by single spaces. */
  lemma LenIsJoinedLength(w: Window)
    requires |w.words| > 0
    ensures Len(w) == |JoinWords(w.words)|
  {
    JoinLength(w.words);
  }

  // ---------------------------------------------------------------------------------------
  // Greedy assembly

  predicate ValidIndices(body: seq<string>, ix: seq<nat>) {
    forall k :: 0 <= k < |ix| ==> ix[k] < |body|
  }

  /** The loop of `excerptFromArr` from window `acc` on: merge the next match's window while the
      merge is no longer than `maxLength`; at the first merge that is, keep `acc`. */
  function Greedy(acc: Window, body: seq<string>, rest: seq<nat>, maxLength: int, opts: ContextOptions): Window
    requires ValidIndices(body, rest)
    decreases |rest|
  {
    if rest == [] then acc
    else
      var candidate := Appended(acc, WindowAt(body, rest[0], opts));
      if Len(candidate) > maxLength then acc
      else Greedy(candidate, body, rest[1..], maxLength, opts)
  }

  /** Reference: the windows of `xs` merged onto `acc` in order, with no budget. */
  function Merged(acc: Window, body: seq<string>, xs: seq<nat>, opts: ContextOptions): Window
    requires ValidIndices(body, xs)
    decreases |xs|
  {
    if xs == [] then acc
    else Merged(Appended(acc, WindowAt(body, xs[0], opts)), body, xs[1..], opts)
  }

  /** `m` is where the greedy assembly from `acc` stops: its result is the first `m` windows
      merged onto `acc`, every one of those merges fits the budget, and the next merge does
      not. */
  ghost predicate IsCut(acc: Window, body: seq<string>, rest: seq<nat>, maxLength: int, opts: ContextOptions, m: int)
    requires ValidIndices(body, rest)
  {
    && 0 <= m <= |rest|
    && Greedy(acc, body, rest, maxLength, opts) == Merged(acc, body, rest[..m], opts)
    && (forall k :: 0 < k <= m ==> Len(Merged(acc, body, rest[..k], opts)) <= maxLength)
    && (m < |rest| ==> Len(Appended(Greedy(acc, body, rest, maxLength, opts), WindowAt(body, rest[m], opts))) > maxLength)
  }

  lemma MergedStep(acc: Window, body: seq<string>, rest: seq<nat>, k: nat, opts: ContextOptions)
    requires ValidIndices(body, rest) && k < |rest|
    ensures Merged(acc, body, rest[..k + 1], opts) == Merged(Appended(acc, WindowAt(body, rest[0], opts)), body, rest[1..][..k], opts)
  {
    assert rest[..k + 1][0] == rest[0];
    assert rest[..k + 1][1..] == rest[1..][..k];
  }

  lemma GreedyStep(acc: Window, body: seq<string>, rest: seq<nat>, maxLength: int, opts: ContextOptions)
    requires ValidIndices(body, rest) && |rest| > 0
    requires Len(Appended(acc, WindowAt(body, rest[0], opts))) <= maxLength
    ensures Greedy(acc, body, rest, maxLength, opts)
              == Greedy(Appended(acc, WindowAt(body, rest[0], opts)), body, rest[1..], maxLength, opts)
  {
  }

  lemma FitsExtend(acc: Window, body: seq<string>, rest: seq<nat>, maxLength: int, opts: ContextOptions, m: nat)
    requires ValidIndices(body, rest) && m < |rest|
    requires Len(Appended(acc, WindowAt(body, rest[0], opts))) <= maxLength
    requires forall k :: 0 < k <= m ==>
               Len(Merged(Appended(acc, WindowAt(body, rest[0], opts)), body, rest[1..][..k], opts)) <= maxLength
    ensures forall k :: 0 < k <= m + 1 ==> Len(Merged(acc, body, rest[..k], opts)) <= maxLength
  {
    forall k | 0 < k <= m + 1
      ensures Len(Merged(acc, body, rest[..k], opts)) <= maxLength
    {
      MergedStep(acc, body, rest, k - 1, opts);
      if k == 1 {
        assert rest[1..][..0] == [];
      }
    }
  }

  lemma CutExtend(acc: Window, body: seq<string>, rest: seq<nat>, maxLength: int, opts: ContextOptions, m: nat)
    requires ValidIndices(body, rest) && |rest| > 0
    requires Len(Appended(acc, WindowAt(body, rest[0], opts))) <= maxLength
    requires IsCut(Appended(acc, WindowAt(body, rest[0], opts)), body, rest[1..], maxLength, opts, m)
    ensures IsCut(acc, body, rest, maxLength, opts, m + 1)
  {
    var candidate := Appended(acc, WindowAt(body, rest[0], opts));
    var tail := rest[1..];
    GreedyStep(acc, body, rest, maxLength, opts);
    MergedStep(acc, body, rest, m, opts);
    FitsExtend(acc, body, rest, maxLength, opts, m);
    assert m + 1 < |rest| ==> rest[m + 1] == tail[m];
  }

  /** The greedy assembly merges the longest run of leading windows whose every intermediate
      merge fits the budget, and stops at the first merge that does not fit; `acc` itself is
      never measured. */
  lemma {:induction false} GreedyCut(acc: Window, body: seq<string>, rest: seq<nat>, maxLength: int,
                                     opts: ContextOptions)
    requires ValidIndices(body, rest)
    ensures exists m :: IsCut(acc, body, rest, maxLength, opts, m)
    decreases |rest|
  {
    assert rest[..0] == [];
    if rest == [] {
      assert IsCut(acc, body, rest, maxLength, opts, 0);
    } else {
      var candidate := Appended(acc, WindowAt(body, rest[0], opts));
      if Len(candidate) > maxLength {
        assert IsCut(acc, body, rest, maxLength, opts, 0);
      } else {
        GreedyCut(candidate, body, rest[1..], maxLength, opts);
        var m :| IsCut(candidate, body, rest[1..], maxLength, opts, m);
        CutExtend(acc, body, rest, maxLength, opts, m);
      }
    }
  }

  // ---------------------------------------------------------------------------------------
  // What the greedy assembly keeps true

  /** A well-formed assembled window over a body of `n` words: a non-empty range inside the
      body, at least one word and all of them whitespace-free, and strictly increasing offsets
      that each point at one of its words that passes `hit`. */
  ghost predicate Sane(w: Window, n: nat, hit: string -> bool) {
    && 0 <= w.start < w.finish <= n
    && |w.words| > 0
    && AllSolid(w.words)
    && (forall q :: 0 <= q < |w.offsets| ==> 0 <= w.offsets[q] < |w.words| && hit(w.words[w.offsets[q]]))
    && (forall q, r :: 0 <= q < r < |w.offsets| ==> w.offsets[q] < w.offsets[r])
  }

  /** The assembly invariant, for a window whose last merged match is `lo`: the window ends
      like the fresh window of `lo` (which is what makes the index-arithmetic trim of the next
      merge remove exactly the overlap), its offsets are increasing, point at words that pass
      `hit`, and lie no further than `lo`'s own position. */
  ghost predicate Tracks(w: Window, body: seq<string>, lo: nat, opts: ContextOptions, hit: string -> bool) {
    lo < |body| &&
    var last := WindowAt(body, lo, opts);
    && 0 <= w.start <= last.start
    && w.finish == last.finish
    && |w.words| >= w.finish - last.start
    && w.words[|w.words| - (w.finish - last.start)..] == last.words
    && AllSolid(w.words)
    && (forall q :: 0 <= q < |w.offsets| ==> 0 <= w.offsets[q] <= |w.words| - (w.finish - lo))
    && (forall q :: 0 <= q < |w.offsets| ==> hit(w.words[w.offsets[q]]))
    && (forall q, r :: 0 <= q < r < |w.offsets| ==> w.offsets[q] < w.offsets[r])
  }

  lemma TracksSane(w: Window, body: seq<string>, lo: nat, opts: ContextOptions, hit: string -> bool)
    requires Tracks(w, body, lo, opts, hit)
    ensures Sane(w, |body|, hit)
  {
  }

  lemma TracksFirst(body: seq<string>, i: nat, opts: ContextOptions, hit: string -> bool)
    requires i < |body| && AllSolid(body) && hit(body[i])
    ensures Tracks(WindowAt(body, i, opts), body, i, opts, hit)
  {
    var w := WindowAt(body, i, opts);
    assert w.words[0..] == w.words;
    assert w.words[i - w.start] == body[i];
  }

  lemma SolidEllipsis()
    ensures Solid(Ellipsis)
  {
  }

  /** Trimming the overlap and appending the next window leaves every existing word where it
      was: the old words are a prefix of the merged ones. */
  lemma OverlapKeepsPrefix(w: Window, body: seq<string>, lo: nat, j: nat, opts: ContextOptions, hit: string -> bool)
    requires Tracks(w, body, lo, opts, hit)
    requires lo < j < |body|
    requires w.finish >= WindowAt(body, j, opts).start
    ensures |Appended(w, WindowAt(body, j, opts)).words| >= |w.words|
    ensures Appended(w, WindowAt(body, j, opts)).words[..|w.words|] == w.words
  {
    var last := WindowAt(body, lo, opts);
    var o := WindowAt(body, j, opts);
    WindowAtMonotone(body, lo, j, opts);
    var r := Appended(w, o);
    var n := |w.words|;
    var d := w.finish - o.start;
    var sfx := n - (w.finish - last.start);
    assert SliceEnd(n, n - d) == n - d;
    assert r.words == w.words[..n - d] + o.words;
    forall p | 0 <= p < n ensures r.words[p] == w.words[p] {
      if p >= n - d {
        assert w.words[p] == w.words[sfx..][p - sfx] == last.words[p - sfx] == body[last.start + p - sfx];
        assert r.words[p] == o.words[p - (n - d)] == body[o.start + p - (n - d)];
      }
    }
  }

  /** What a merge adds: the kept words, then the next window's words, and the shifted offset
      of the match when it is positive. */
  lemma MergeParts(w: Window, body: seq<string>, j: nat, opts: ContextOptions)
    requires j < |body|
    ensures var o, r := WindowAt(body, j, opts), Appended(w, WindowAt(body, j, opts));
            var kept := |r.words| - |o.words|;
            && |r.words| >= |o.words|
            && r.words[kept..] == o.words
            && r.words[kept + (j - o.start)] == body[j]
            && r.offsets == w.offsets + (if j - o.start > 0 then [j - o.start + kept] else [])
            && (w.finish < o.start ==> r.words[..|w.words|] == w.words && kept == |w.words| + 1 && r.words[|w.words|] == Ellipsis)
            && (w.finish >= o.start ==> kept <= |w.words|)
  {
  }

  /** After a merge the old words are still a prefix of the merged ones. */
  lemma StepPrefix(w: Window, body: seq<string>, lo: nat, j: nat, opts: ContextOptions, hit: string -> bool)
    requires Tracks(w, body, lo, opts, hit)
    requires lo < j < |body|
    ensures |Appended(w, WindowAt(body, j, opts)).words| >= |w.words|
    ensures Appended(w, WindowAt(body, j, opts)).words[..|w.words|] == w.words
  {
    MergeParts(w, body, j, opts);
    if w.finish >= WindowAt(body, j, opts).start {
      OverlapKeepsPrefix(w, body, lo, j, opts, hit);
    }
  }

  /** After a merge every offset still points at a word that passes `hit`, no further than
      the new match, and the offsets still increase. */
  lemma StepOffsets(w: Window, body: seq<string>, lo: nat, j: nat, opts: ContextOptions, hit: string -> bool)
    requires Tracks(w, body, lo, opts, hit)
    requires lo < j < |body| && hit(body[j])
    ensures var r := Appended(w, WindowAt(body, j, opts));
            && (forall q :: 0 <= q < |r.offsets| ==> 0 <= r.offsets[q] <= |r.words| - (r.finish - j))
            && (forall q :: 0 <= q < |r.offsets| ==> hit(r.words[r.offsets[q]]))
            && (forall q, p :: 0 <= q < p < |r.offsets| ==> r.offsets[q] < r.offsets[p])
  {
    var o := WindowAt(body, j, opts);
    WindowAtMonotone(body, lo, j, opts);
    var r := Appended(w, o);
    MergeParts(w, body, j, opts);
    StepPrefix(w, body, lo, j, opts, hit);
    var kept := |r.words| - |o.words|;
    var k := j - o.start;
    assert kept + k == |r.words| - (r.finish - j);
    assert forall q :: 0 <= q < |w.offsets| ==> w.offsets[q] < kept + k;
    forall q | 0 <= q < |r.offsets|
      ensures 0 <= r.offsets[q] <= |r.words| - (r.finish - j) && hit(r.words[r.offsets[q]])
    {
      if q < |w.offsets| {
        assert r.offsets[q] == w.offsets[q];
        assert r.words[w.offsets[q]] == r.words[..|w.words|][w.offsets[q]];
      } else {
        assert r.offsets[q] == k + kept;
      }
    }
  }

  /** Merging two windows of whitespace-free words gives whitespace-free words. */
  lemma MergeSolid(w: Window, o: Window)
    requires AllSolid(w.words) && AllSolid(o.words)
    ensures AllSolid(Appended(w, o).words)
  {
    var r := Appended(w, o);
    var kept := |r.words| - |o.words|;
    assert r.words[kept..] == o.words;
    SolidEllipsis();
    forall p | 0 <= p < |r.words| ensures Solid(r.words[p]) {
      if p >= kept {
        assert r.words[p] == o.words[p - kept];
      } else if p < |w.words| {
        assert r.words[p] == w.words[p];
      } else {
        assert r.words[p] == Ellipsis;
      }
    }
  }

  /** After a merge all words are still whitespace-free. */
  lemma StepSolid(w: Window, body: seq<string>, lo: nat, j: nat, opts: ContextOptions, hit: string -> bool)
    requires Tracks(w, body, lo, opts, hit)
    requires lo < j < |body| && AllSolid(body)
    ensures AllSolid(Appended(w, WindowAt(body, j, opts)).words)
  {
    var o := WindowAt(body, j, opts);
    assert AllSolid(o.words) by {
      forall p | 0 <= p < |o.words| ensures Solid(o.words[p]) {
        assert o.words[p] == body[o.start + p];
      }
    }
    MergeSolid(w, o);
  }

  /** One merge of the next match's window keeps the invariant. */
  lemma TracksStep(w: Window, body: seq<string>, lo: nat, j: nat, opts: ContextOptions, hit: string -> bool)
    requires Tracks(w, body, lo, opts, hit)
    requires lo < j < |body| && hit(body[j]) && AllSolid(body)
    ensures Tracks(Appended(w, WindowAt(body, j, opts)), body, j, opts, hit)
    ensures Appended(w, WindowAt(body, j, opts)).start == w.start
  {
    WindowAtMonotone(body, lo, j, opts);
    MergeParts(w, body, j, opts);
    StepOffsets(w, body, lo, j, opts, hit);
    StepSolid(w, body, lo, j, opts, hit);
  }

  predicate Increasing(ix: seq<nat>) {
    forall k, m :: 0 <= k < m < |ix| ==> ix[k] < ix[m]
  }

  lemma {:induction false} GreedyTracks(acc: Window, body: seq<string>, lo: nat, rest: seq<nat>, maxLength: int,
                                        opts: ContextOptions, hit: string -> bool)
    requires Tracks(acc, body, lo, opts, hit) && AllSolid(body)
    requires ValidIndices(body, rest) && Increasing(rest)
    requires forall k :: 0 <= k < |rest| ==> lo < rest[k] && hit(body[rest[k]])
    ensures Sane(Greedy(acc, body, rest, maxLength, opts), |body|, hit)
    ensures Greedy(acc, body, rest, maxLength, opts).start == acc.start
    decreases |rest|
  {
    if rest == [] {
      TracksSane(acc, body, lo, opts, hit);
    } else {
      var candidate := Appended(acc, WindowAt(body, rest[0], opts));
      if Len(candidate) > maxLength {
        TracksSane(acc, body, lo, opts, hit);
      } else {
        TracksStep(acc, body, lo, rest[0], opts, hit);
        GreedyTracks(candidate, body, rest[0], rest[1..], maxLength, opts, hit);
      }
    }
  }

  /** The window `excerptFromArr` renders for the (non-empty) match list `ix`. */
  function Assembled(body: seq<string>, ix: seq<nat>, maxLength: int, opts: ContextOptions): Window
    requires |ix| > 0 && ValidIndices(body, ix)
  {
    Greedy(WindowAt(body, ix[0], opts), body, ix[1..], maxLength, opts)
  }

  /** For increasing matches over whitespace-free words, the assembled window starts where the
      first match's window starts, is well formed, and every offset it emphasises points at a
      matched word. It is the first match's window alone or no longer than `maxLength`. */
  lemma AssembledSane(body: seq<string>, ix: seq<nat>, maxLength: int, opts: ContextOptions, hit: string -> bool)
    requires |ix| > 0 && ValidIndices(body, ix) && Increasing(ix) && AllSolid(body)
    requires forall k :: 0 <= k < |ix| ==> hit(body[ix[k]])
    ensures Sane(Assembled(body, ix, maxLength, opts), |body|, hit)
    ensures Assembled(body, ix, maxLength, opts).start == WindowAt(body, ix[0], opts).start
    ensures Assembled(body, ix, maxLength, opts) == WindowAt(body, ix[0], opts)
            || Len(Assembled(body, ix, maxLength, opts)) <= maxLength
  {
    var first := WindowAt(body, ix[0], opts);
    TracksFirst(body, ix[0], opts, hit);
    GreedyTracks(first, body, ix[0], ix[1..], maxLength, opts, hit);
    GreedyCut(first, body, ix[1..], maxLength, opts);
    var m :| 0 <= m <= |ix[1..]|
              && Greedy(first, body, ix[1..], maxLength, opts) == Merged(first, body, ix[1..][..m], opts)
              && (forall k :: 0 < k <= m ==> Len(Merged(first, body, ix[1..][..k], opts)) <= maxLength);
    if m == 0 {
      assert ix[1..][..0] == [];
    }
  }

  /** With zero words of fixed context every window starts at its match, so the shifted offset
      is never positive and only the first match is ever emphasised. */
  lemma {:induction false} ZeroWidthKeepsOneOffset(acc: Window, body: seq<string>, rest: seq<nat>, maxLength: int)
    requires ValidIndices(body, rest) && |acc.offsets| == 1
    ensures Greedy(acc, body, rest, maxLength, ContextOptions(0, None)).offsets == acc.offsets
    decreases |rest|
  {
    if rest != [] {
      var opts := ContextOptions(0, None);
      var o := WindowAt(body, rest[0], opts);
      assert o.offsets == [0];
      ZeroWidthKeepsOneOffset(Appended(acc, o), body, rest[1..], maxLength);
    }
  }
}
