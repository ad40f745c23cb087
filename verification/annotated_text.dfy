/** The segmentation loop of frontend/components/AnnotatedText.tsx, lifted
    out of the component as a pure function from the text and its
    annotations to the plain and annotated parts the component renders.

    `Segment` is the loop as written: it sorts a copy of the annotations
    stably by `start`, emits a gap part before an annotation that starts
    after the cursor, the annotated slice itself, moves the cursor to the
    annotation's end, and finishes with the tail. `SegmentClamped` is the
    variant that never moves the cursor backwards. */
module AnnotatedText {
  import opened Wrappers
  import opened Types

  /** The index normalisation of JavaScript's `String.prototype.slice`:
      negative offsets count from the end, and both ends are clamped. */
  function SliceIndex(i: int, len: nat): (k: nat)
    ensures k <= len
    ensures 0 <= i <= len ==> k == i
  {
    if i < 0 then (if len + i < 0 then 0 else len + i)
    else if i > len then len
    else i
  }

  /** `s.slice(start, end)`; empty when the normalised start is not before
      the normalised end. */
  function Slice(s: string, start: int, end: int): (r: string)
    ensures 0 <= start <= end <= |s| ==> r == s[start..end]
  {
    var a := SliceIndex(start, |s|);
    var b := SliceIndex(end, |s|);
    if a < b then s[a..b] else ""
  }

  /** One rendered part: `{ content }` or `{ content, ann }`. */
  datatype Part = Part(content: string, ann: Option<Annotation>)

  /** The concatenation of the parts' contents, i.e. the rendered text. */
  function Concat(parts: seq<Part>): string
    decreases |parts|
  {
    if |parts| == 0 then "" else parts[0].content + Concat(parts[1..])
  }

  lemma {:induction false} ConcatAppend(a: seq<Part>, b: seq<Part>)
    ensures Concat(a + b) == Concat(a) + Concat(b)
    decreases |a|
  {
    if |a| == 0 {
      assert a + b == b;
    } else {
      assert (a + b)[0] == a[0];
      assert (a + b)[1..] == a[1..] + b;
      ConcatAppend(a[1..], b);
    }
  }

  // ---------------------------------------------------------------------
  // `[...annotations].sort((a, b) => a.start - b.start)`: a stable sort on
  // a copy. Values are immutable here, so the caller's list is untouched.

  predicate SortedByStart(xs: seq<Annotation>) {
    forall i, j :: 0 <= i < j < |xs| ==> xs[i].start <= xs[j].start
  }

  /** Inserts `a` before the first element that does not start before it. */
  function Insert(a: Annotation, xs: seq<Annotation>): (r: seq<Annotation>)
    ensures |r| == |xs| + 1
    ensures multiset(r) == multiset(xs) + multiset{a}
    decreases |xs|
  {
    if |xs| == 0 then [a]
    else if a.start <= xs[0].start then [a] + xs
    else
      assert xs == [xs[0]] + xs[1..];
      [xs[0]] + Insert(a, xs[1..])
  }

  /** Every start in `Insert(a, xs)` is at least a bound that `a` and all of
      `xs` respect. */
  lemma {:induction false} InsertLowerBound(a: Annotation, xs: seq<Annotation>, b: int)
    requires b <= a.start
    requires forall i :: 0 <= i < |xs| ==> b <= xs[i].start
    ensures forall i :: 0 <= i < |Insert(a, xs)| ==> b <= Insert(a, xs)[i].start
    decreases |xs|
  {
    if |xs| > 0 && a.start > xs[0].start {
      InsertLowerBound(a, xs[1..], b);
      assert Insert(a, xs) == [xs[0]] + Insert(a, xs[1..]);
    }
  }

  /** An element starting no later than a sorted list can go in front. */
  lemma ConsSorted(x: Annotation, ys: seq<Annotation>)
    requires SortedByStart(ys)
    requires forall i :: 0 <= i < |ys| ==> x.start <= ys[i].start
    ensures SortedByStart([x] + ys)
  {
    var r := [x] + ys;
    forall i, j | 0 <= i < j < |r| ensures r[i].start <= r[j].start {
      assert r[j] == ys[j - 1];
      if i > 0 {
        assert r[i] == ys[i - 1];
      }
    }
  }

  lemma {:induction false} InsertSorted(a: Annotation, xs: seq<Annotation>)
    requires SortedByStart(xs)
    ensures SortedByStart(Insert(a, xs))
    decreases |xs|
  {
    if |xs| == 0 {
      assert Insert(a, xs) == [a];
    } else if a.start <= xs[0].start {
      ConsSorted(a, xs);
    } else {
      var tail := xs[1..];
      assert SortedByStart(tail) by {
        forall i, j | 0 <= i < j < |tail| ensures tail[i].start <= tail[j].start {
          assert tail[i] == xs[i + 1] && tail[j] == xs[j + 1];
        }
      }
      assert forall i :: 0 <= i < |tail| ==> xs[0].start <= tail[i].start by {
        forall i | 0 <= i < |tail| ensures xs[0].start <= tail[i].start {
          assert tail[i] == xs[i + 1];
        }
      }
      InsertSorted(a, tail);
      InsertLowerBound(a, tail, xs[0].start);
      ConsSorted(xs[0], Insert(a, tail));
    }
  }

  /** Insertion sort by `start`: a sorted permutation of the input. */
  function SortByStart(xs: seq<Annotation>): (r: seq<Annotation>)
    ensures |r| == |xs|
    ensures multiset(r) == multiset(xs)
    ensures SortedByStart(r)
    decreases |xs|
  {
    if |xs| == 0 then []
    else
      assert xs == [xs[0]] + xs[1..];
      var rest := SortByStart(xs[1..]);
      InsertSorted(xs[0], rest);
      Insert(xs[0], rest)
  }

  /** The annotations that start at `k`, in their order. */
  function StartingAt(xs: seq<Annotation>, k: int): seq<Annotation>
    decreases |xs|
  {
    if |xs| == 0 then []
    else (if xs[0].start == k then [xs[0]] else []) + StartingAt(xs[1..], k)
  }

  lemma StartingAtCons(x: Annotation, ys: seq<Annotation>, k: int)
    ensures StartingAt([x] + ys, k) == (if x.start == k then [x] else []) + StartingAt(ys, k)
  {
    assert ([x] + ys)[0] == x && ([x] + ys)[1..] == ys;
  }

  lemma {:induction false} InsertStable(a: Annotation, xs: seq<Annotation>, k: int)
    ensures StartingAt(Insert(a, xs), k) == (if a.start == k then [a] else []) + StartingAt(xs, k)
    decreases |xs|
  {
    if |xs| == 0 {
      StartingAtCons(a, [], k);
    } else if a.start <= xs[0].start {
      StartingAtCons(a, xs, k);
    } else {
      var rest := Insert(a, xs[1..]);
      InsertStable(a, xs[1..], k);
      StartingAtCons(xs[0], rest, k);
      StartingAtCons(xs[0], xs[1..], k);
      assert [xs[0]] + xs[1..] == xs;
      if a.start == k {
        assert xs[0].start != k;
      }
    }
  }

  /** Stability: annotations that share a start keep their input order. */
  lemma {:induction false} SortStable(xs: seq<Annotation>, k: int)
    ensures StartingAt(SortByStart(xs), k) == StartingAt(xs, k)
    decreases |xs|
  {
    if |xs| > 0 {
      SortStable(xs[1..], k);
      InsertStable(xs[0], SortByStart(xs[1..]), k);
    }
  }

  // ---------------------------------------------------------------------
  // The walk.

  /** The `for (const ann of sorted)` loop from the given cursor, followed
      by the trailing `if (cursor < text.length)` part. */
  function Walk(text: string, xs: seq<Annotation>, cursor: int): seq<Part>
    decreases |xs|
  {
    if |xs| == 0 then
      (if cursor < |text| then [Part(Slice(text, cursor, |text|), None)] else [])
    else
      var a := xs[0];
      (if a.start > cursor then [Part(Slice(text, cursor, a.start), None)] else [])
      + [Part(Slice(text, a.start, a.end), Some(a))]
      + Walk(text, xs[1..], a.end)
  }

  /** The parts `AnnotatedText` renders for `text` and `annotations`:
      nothing for empty text, one plain part for text without
      annotations. */
  function Segment(text: string, annotations: seq<Annotation>): (parts: seq<Part>)
    ensures |text| == 0 ==> parts == []
    ensures |text| > 0 && |annotations| == 0 ==> parts == [Part(text, None)]
  {
    assert text[0..|text|] == text;
    if |text| == 0 then [] else Walk(text, SortByStart(annotations), 0)
  }

  /** The annotations of the annotated parts, in order. */
  function AnnotationsIn(parts: seq<Part>): seq<Annotation>
    decreases |parts|
  {
    if |parts| == 0 then []
    else (if parts[0].ann.Some? then [parts[0].ann.value] else []) + AnnotationsIn(parts[1..])
  }

  lemma AnnotationsInCons(p: Part, ps: seq<Part>)
    ensures AnnotationsIn([p] + ps) == (if p.ann.Some? then [p.ann.value] else []) + AnnotationsIn(ps)
  {
    assert ([p] + ps)[0] == p && ([p] + ps)[1..] == ps;
  }

  lemma {:induction false} AnnotationsInAppend(a: seq<Part>, b: seq<Part>)
    ensures AnnotationsIn(a + b) == AnnotationsIn(a) + AnnotationsIn(b)
    decreases |a|
  {
    if |a| == 0 {
      assert a + b == b;
    } else {
      assert a + b == [a[0]] + (a[1..] + b);
      assert a == [a[0]] + a[1..];
      AnnotationsInCons(a[0], a[1..] + b);
      AnnotationsInCons(a[0], a[1..]);
      AnnotationsInAppend(a[1..], b);
    }
  }

  /** Every annotated part shows exactly its annotation's slice. */
  predicate ShowsOwnSlice(text: string, parts: seq<Part>) {
    forall i :: 0 <= i < |parts| && parts[i].ann.Some? ==>
      parts[i].content == Slice(text, parts[i].ann.value.start, parts[i].ann.value.end)
  }

  lemma {:induction false} WalkAnnotated(text: string, xs: seq<Annotation>, cursor: int)
    ensures AnnotationsIn(Walk(text, xs, cursor)) == xs
    ensures ShowsOwnSlice(text, Walk(text, xs, cursor))
    decreases |xs|
  {
    if |xs| > 0 {
      var a := xs[0];
      var gap: seq<Part> := if a.start > cursor then [Part(Slice(text, cursor, a.start), None)] else [];
      var mid := [Part(Slice(text, a.start, a.end), Some(a))];
      var rest := Walk(text, xs[1..], a.end);
      WalkAnnotated(text, xs[1..], a.end);
      AnnotationsInAppend(gap + mid, rest);
      AnnotationsInAppend(gap, mid);
      assert AnnotationsIn(mid) == [a];
      assert AnnotationsIn(gap) == [];
      assert xs == [a] + xs[1..];
      var parts := gap + mid + rest;
      forall i | 0 <= i < |parts| && parts[i].ann.Some?
        ensures parts[i].content == Slice(text, parts[i].ann.value.start, parts[i].ann.value.end)
      {
        if i >= |gap| + 1 {
          assert parts[i] == rest[i - |gap| - 1];
        }
      }
    }
  }

  /** One annotated part per input annotation, in stable `start` order,
      each showing `text.slice(start, end)`. */
  lemma SegmentAnnotated(text: string, annotations: seq<Annotation>)
    requires |text| > 0
    ensures AnnotationsIn(Segment(text, annotations)) == SortByStart(annotations)
    ensures ShowsOwnSlice(text, Segment(text, annotations))
  {
    WalkAnnotated(text, SortByStart(annotations), 0);
  }

  /** `0 <= start <= end <= |text|`. */
  predicate InRange(a: Annotation, len: nat) {
    0 <= a.start <= a.end <= len
  }

  /** Plain parts are never empty and never adjacent. */
  predicate WellShaped(parts: seq<Part>) {
    && (forall i :: 0 <= i < |parts| && parts[i].ann.None? ==> |parts[i].content| > 0)
    && (forall i :: 0 <= i < |parts| - 1 && parts[i].ann.None? ==> parts[i + 1].ann.Some?)
  }

  lemma {:induction false} WalkShape(text: string, xs: seq<Annotation>, cursor: int)
    requires 0 <= cursor
    requires forall i :: 0 <= i < |xs| ==> InRange(xs[i], |text|)
    ensures WellShaped(Walk(text, xs, cursor))
    ensures |xs| > 0 && |Walk(text, xs, cursor)| > 0 && Walk(text, xs, cursor)[0].ann.None? ==>
      xs[0].start > cursor
    decreases |xs|
  {
    if |xs| > 0 {
      var a := xs[0];
      var gap: seq<Part> := if a.start > cursor then [Part(Slice(text, cursor, a.start), None)] else [];
      var mid := [Part(Slice(text, a.start, a.end), Some(a))];
      var rest := Walk(text, xs[1..], a.end);
      WalkShape(text, xs[1..], a.end);
      var parts := gap + mid + rest;
      assert parts == Walk(text, xs, cursor);
      forall i | 0 <= i < |parts| && parts[i].ann.None? ensures |parts[i].content| > 0 {
        if i >= |gap| + 1 {
          assert parts[i] == rest[i - |gap| - 1];
        }
      }
      forall i | 0 <= i < |parts| - 1 && parts[i].ann.None? ensures parts[i + 1].ann.Some? {
        if i >= |gap| + 1 {
          assert parts[i] == rest[i - |gap| - 1];
          assert parts[i + 1] == rest[i + 1 - |gap| - 1];
        }
      }
    }
  }

  /** For in-range annotations every plain part is non-empty and no two
      plain parts are adjacent. */
  lemma SegmentShape(text: string, annotations: seq<Annotation>)
    requires forall i :: 0 <= i < |annotations| ==> InRange(annotations[i], |text|)
    ensures WellShaped(Segment(text, annotations))
  {
    if |text| > 0 {
      var xs := SortByStart(annotations);
      forall i | 0 <= i < |xs| ensures InRange(xs[i], |text|) {
        assert xs[i] in multiset(annotations);
      }
      WalkShape(text, xs, 0);
    }
  }

  // ---------------------------------------------------------------------
  // Coverage.

  /** `0 <= start < end <= |text|`: the annotation invariant. */
  predicate Proper(a: Annotation, len: nat) {
    0 <= a.start < a.end <= len
  }

  predicate Disjoint(a: Annotation, b: Annotation) {
    a.end <= b.start || b.end <= a.start
  }

  predicate PairwiseDisjoint(xs: seq<Annotation>) {
    forall i, j :: 0 <= i < j < |xs| ==> Disjoint(xs[i], xs[j])
  }

  /** An element disjoint from a pairwise disjoint list can go in front. */
  lemma ConsDisjoint(x: Annotation, ys: seq<Annotation>)
    requires PairwiseDisjoint(ys)
    requires forall y :: y in ys ==> Disjoint(x, y)
    ensures PairwiseDisjoint([x] + ys)
  {
    var r := [x] + ys;
    forall i, j | 0 <= i < j < |r| ensures Disjoint(r[i], r[j]) {
      assert r[j] == ys[j - 1];
      if i > 0 {
        assert r[i] == ys[i - 1];
      }
    }
  }

  /** The first element of a pairwise disjoint list is disjoint from the
      rest. */
  lemma HeadDisjoint(xs: seq<Annotation>)
    requires |xs| > 0 && PairwiseDisjoint(xs)
    ensures forall y :: y in xs[1..] ==> Disjoint(xs[0], y)
  {
    forall y | y in xs[1..] ensures Disjoint(xs[0], y) {
      var m :| 0 <= m < |xs[1..]| && xs[1..][m] == y;
      assert xs[m + 1] == y;
    }
  }

  lemma TailDisjoint(xs: seq<Annotation>)
    requires |xs| > 0 && PairwiseDisjoint(xs)
    ensures PairwiseDisjoint(xs[1..])
  {
    forall i, j | 0 <= i < j < |xs[1..]| ensures Disjoint(xs[1..][i], xs[1..][j]) {
      assert xs[1..][i] == xs[i + 1] && xs[1..][j] == xs[j + 1];
    }
  }

  lemma {:induction false} InsertDisjoint(a: Annotation, xs: seq<Annotation>)
    requires PairwiseDisjoint(xs)
    requires forall y :: y in xs ==> Disjoint(a, y)
    ensures PairwiseDisjoint(Insert(a, xs))
    decreases |xs|
  {
    if |xs| == 0 {
    } else if a.start <= xs[0].start {
      ConsDisjoint(a, xs);
    } else {
      var rest := Insert(a, xs[1..]);
      TailDisjoint(xs);
      HeadDisjoint(xs);
      assert forall y :: y in xs[1..] ==> y in xs;
      InsertDisjoint(a, xs[1..]);
      assert Disjoint(a, xs[0]);
      forall e | e in rest ensures Disjoint(xs[0], e) {
        assert e in multiset(rest);
      }
      ConsDisjoint(xs[0], rest);
    }
  }

  lemma {:induction false} SortDisjoint(xs: seq<Annotation>)
    requires PairwiseDisjoint(xs)
    ensures PairwiseDisjoint(SortByStart(xs))
    decreases |xs|
  {
    if |xs| > 0 {
      var tail := xs[1..];
      assert PairwiseDisjoint(tail) by {
        forall i, j | 0 <= i < j < |tail| ensures Disjoint(tail[i], tail[j]) {
          assert tail[i] == xs[i + 1] && tail[j] == xs[j + 1];
        }
      }
      SortDisjoint(tail);
      var sorted := SortByStart(tail);
      forall y | y in sorted ensures Disjoint(xs[0], y) {
        assert y in multiset(tail);
        var m :| 0 <= m < |tail| && tail[m] == y;
        assert xs[m + 1] == y;
      }
      InsertDisjoint(xs[0], sorted);
    }
  }

  lemma ConcatOne(p: Part)
    ensures Concat([p]) == p.content
  {
    assert Concat([p]) == p.content + Concat([]);
  }

  lemma ConcatThree(gap: seq<Part>, mid: seq<Part>, rest: seq<Part>)
    ensures Concat(gap + mid + rest) == Concat(gap) + Concat(mid) + Concat(rest)
  {
    ConcatAppend(gap + mid, rest);
    ConcatAppend(gap, mid);
  }

  lemma SuffixThree(s: string, i: int, j: int, k: int)
    requires 0 <= i <= j <= k <= |s|
    ensures s[i..] == s[i..j] + s[j..k] + s[k..]
  {
  }

  /** What the walk needs of the annotations after the first one. */
  lemma TailFacts(len: nat, xs: seq<Annotation>)
    requires |xs| > 0
    requires SortedByStart(xs) && PairwiseDisjoint(xs)
    requires forall i :: 0 <= i < |xs| ==> Proper(xs[i], len)
    ensures SortedByStart(xs[1..]) && PairwiseDisjoint(xs[1..])
    ensures forall i :: 0 <= i < |xs[1..]| ==> Proper(xs[1..][i], len) && xs[0].end <= xs[1..][i].start
  {
    var tail := xs[1..];
    forall i | 0 <= i < |tail| ensures Proper(tail[i], len) && xs[0].end <= tail[i].start {
      assert tail[i] == xs[i + 1];
      assert Disjoint(xs[0], xs[i + 1]);
    }
    forall i, j | 0 <= i < j < |tail| ensures Disjoint(tail[i], tail[j]) && tail[i].start <= tail[j].start {
      assert tail[i] == xs[i + 1] && tail[j] == xs[j + 1];
    }
  }

  lemma {:induction false} WalkCovers(text: string, xs: seq<Annotation>, cursor: int)
    requires 0 <= cursor <= |text|
    requires SortedByStart(xs) && PairwiseDisjoint(xs)
    requires forall i :: 0 <= i < |xs| ==> Proper(xs[i], |text|) && cursor <= xs[i].start
    ensures Concat(Walk(text, xs, cursor)) == text[cursor..]
    decreases |xs|
  {
    if |xs| == 0 {
      if cursor < |text| {
        ConcatOne(Part(text[cursor..], None));
      }
    } else {
      var a := xs[0];
      var gap: seq<Part> := if a.start > cursor then [Part(Slice(text, cursor, a.start), None)] else [];
      var mid := [Part(Slice(text, a.start, a.end), Some(a))];
      var rest := Walk(text, xs[1..], a.end);
      TailFacts(|text|, xs);
      WalkCovers(text, xs[1..], a.end);
      ConcatThree(gap, mid, rest);
      ConcatOne(mid[0]);
      if a.start > cursor {
        ConcatOne(gap[0]);
      }
      SuffixThree(text, cursor, a.start, a.end);
    }
  }

  /** The segments concatenate back to the text when the annotations are
      proper (`0 <= start < end <= |text|`) and pairwise non-overlapping. */
  lemma SegmentCovers(text: string, annotations: seq<Annotation>)
    requires forall i :: 0 <= i < |annotations| ==> Proper(annotations[i], |text|)
    requires PairwiseDisjoint(annotations)
    ensures Concat(Segment(text, annotations)) == text
  {
    if |text| > 0 {
      var xs := SortByStart(annotations);
      forall i | 0 <= i < |xs| ensures Proper(xs[i], |text|) {
        assert xs[i] in multiset(annotations);
      }
      SortDisjoint(annotations);
      WalkCovers(text, xs, 0);
    }
  }

  /** A last annotation that starts at or before the cursor is shown in
      full, followed by the rest of the text after it. */
  lemma WalkLast(text: string, p: Annotation, cursor: int)
    requires 0 <= p.start <= cursor && p.start <= p.end <= |text|
    ensures Concat(Walk(text, [p], cursor)) == text[p.start..]
  {
    assert [p][1..] == [];
    assert Slice(text, p.end, |text|) == text[p.end..];
    assert Slice(text, p.start, p.end) == text[p.start..p.end];
    var tail: seq<Part> := if p.end < |text| then [Part(text[p.end..], None)] else [];
    assert Walk(text, [], p.end) == tail;
    var first := Part(text[p.start..p.end], Some(p));
    assert Walk(text, [p], cursor) == [first] + tail;
    assert ([first] + tail)[1..] == tail;
    if p.end < |text| {
      ConcatOne(Part(text[p.end..], None));
    }
    assert text[p.start..] == text[p.start..p.end] + text[p.end..];
  }

  /** Walking from the start of the text, the first annotation shows the
      text up to its end (a gap before it when it starts later), and the
      walk goes on from there. */
  lemma WalkFirst(text: string, a: Annotation, xs: seq<Annotation>)
    requires 0 <= a.start <= a.end <= |text|
    ensures Concat(Walk(text, [a] + xs, 0)) == text[..a.end] + Concat(Walk(text, xs, a.end))
  {
    var ys := [a] + xs;
    assert ys[0] == a && ys[1..] == xs;
    var head := FirstParts(text, a, 0);
    var rest := Walk(text, xs, a.end);
    assert Walk(text, ys, 0) == head + rest;
    ConcatAppend(head, rest);
    FirstPartsConcat(text, a);
  }

  /** The gap and the annotated part `Walk` emits for `a` at `cursor`. */
  function FirstParts(text: string, a: Annotation, cursor: int): seq<Part> {
    (if a.start > cursor then [Part(Slice(text, cursor, a.start), None)] else [])
    + [Part(Slice(text, a.start, a.end), Some(a))]
  }

  lemma FirstPartsConcat(text: string, a: Annotation)
    requires 0 <= a.start <= a.end <= |text|
    ensures Concat(FirstParts(text, a, 0)) == text[..a.end]
  {
    assert Slice(text, 0, a.start) == text[..a.start];
    assert Slice(text, a.start, a.end) == text[a.start..a.end];
    var gap: seq<Part> := if a.start > 0 then [Part(text[..a.start], None)] else [];
    var mid := [Part(text[a.start..a.end], Some(a))];
    ConcatAppend(gap, mid);
    ConcatOne(mid[0]);
    if a.start > 0 {
      ConcatOne(gap[0]);
    }
    assert text[..a.end] == text[..a.start] + text[a.start..a.end];
  }

  /** Two annotations where the second starts inside the first: no gap
      is emitted before the second, its slice is shown in full, and the
      cursor moves to its end, backwards when it ends inside the first.
      Either way the text from the second start on is shown again. */
  lemma WalkPair(text: string, h: Annotation, p: Annotation)
    requires 0 <= h.start <= p.start <= h.end <= |text|
    requires p.start <= p.end <= |text|
    ensures Concat(Walk(text, [h, p], 0)) == text[..h.end] + text[p.start..]
  {
    assert [h, p] == [h] + [p];
    WalkFirst(text, h, [p]);
    WalkLast(text, p, h.end);
  }

  /** `Segment` of two annotations where the second starts inside the
      first: the text up to the first end, then again from the second
      start. */
  lemma SegmentPair(text: string, h: Annotation, p: Annotation)
    requires 0 <= h.start <= p.start <= h.end <= |text|
    requires p.start <= p.end <= |text| && 0 < |text|
    ensures Concat(Segment(text, [h, p])) == text[..h.end] + text[p.start..]
  {
    assert [h, p][1..] == [p] && [p][1..] == [];
    assert SortByStart([p]) == Insert(p, []) == [p];
    assert SortByStart([h, p]) == Insert(h, [p]) == [h, p];
    assert Segment(text, [h, p]) == Walk(text, [h, p], 0);
    WalkPair(text, h, p);
  }

  // ---------------------------------------------------------------------
  // The clamped walk: an overlapping annotation shows only the part of its
  // slice not yet shown, and the cursor never moves backwards.

  function Max(a: int, b: int): int {
    if a < b then b else a
  }

  function WalkClamped(text: string, xs: seq<Annotation>, cursor: int): seq<Part>
    decreases |xs|
  {
    if |xs| == 0 then
      (if cursor < |text| then [Part(Slice(text, cursor, |text|), None)] else [])
    else
      var a := xs[0];
      var end := Max(a.end, cursor);
      (if a.start > cursor then [Part(Slice(text, cursor, a.start), None)] else [])
      + [Part(Slice(text, Max(a.start, cursor), end), Some(a))]
      + WalkClamped(text, xs[1..], end)
  }

  function SegmentClamped(text: string, annotations: seq<Annotation>): seq<Part> {
    if |text| == 0 then [] else WalkClamped(text, SortByStart(annotations), 0)
  }

  lemma {:induction false} WalkClampedCovers(text: string, xs: seq<Annotation>, cursor: int)
    requires 0 <= cursor <= |text|
    requires forall i :: 0 <= i < |xs| ==> InRange(xs[i], |text|)
    ensures Concat(WalkClamped(text, xs, cursor)) == text[cursor..]
    decreases |xs|
  {
    if |xs| == 0 {
      if cursor < |text| {
        ConcatOne(Part(text[cursor..], None));
      }
    } else {
      var a := xs[0];
      var end := Max(a.end, cursor);
      var from := Max(a.start, cursor);
      var gap: seq<Part> := if a.start > cursor then [Part(Slice(text, cursor, a.start), None)] else [];
      var mid := [Part(Slice(text, from, end), Some(a))];
      var rest := WalkClamped(text, xs[1..], end);
      assert forall i :: 0 <= i < |xs[1..]| ==> xs[1..][i] == xs[i + 1];
      WalkClampedCovers(text, xs[1..], end);
      ConcatThree(gap, mid, rest);
      ConcatOne(mid[0]);
      if a.start > cursor {
        ConcatOne(gap[0]);
      }
      assert 0 <= from <= end <= |text|;
      assert Concat(mid) == text[from..end];
      assert Concat(gap) == text[cursor..from];
      SuffixThree(text, cursor, from, end);
    }
  }

  /** With clamping, the segments concatenate back to the text for any
      in-range annotations, overlapping or not. */
  lemma SegmentClampedCovers(text: string, annotations: seq<Annotation>)
    requires forall i :: 0 <= i < |annotations| ==> InRange(annotations[i], |text|)
    ensures Concat(SegmentClamped(text, annotations)) == text
  {
    if |text| > 0 {
      var xs := SortByStart(annotations);
      forall i | 0 <= i < |xs| ensures InRange(xs[i], |text|) {
        assert xs[i] in multiset(annotations);
      }
      WalkClampedCovers(text, xs, 0);
    }
  }

  lemma {:induction false} WalkClampedAgrees(text: string, xs: seq<Annotation>, cursor: int)
    requires SortedByStart(xs) && PairwiseDisjoint(xs)
    requires forall i :: 0 <= i < |xs| ==> Proper(xs[i], |text|) && cursor <= xs[i].start
    ensures WalkClamped(text, xs, cursor) == Walk(text, xs, cursor)
    decreases |xs|
  {
    if |xs| > 0 {
      TailFacts(|text|, xs);
      WalkClampedAgrees(text, xs[1..], xs[0].end);
    }
  }

  /** Where the loop as written is correct, clamping changes nothing. */
  lemma SegmentClampedAgrees(text: string, annotations: seq<Annotation>)
    requires forall i :: 0 <= i < |annotations| ==> Proper(annotations[i], |text|)
    requires PairwiseDisjoint(annotations)
    ensures SegmentClamped(text, annotations) == Segment(text, annotations)
  {
    if |text| > 0 {
      var xs := SortByStart(annotations);
      forall i | 0 <= i < |xs| ensures Proper(xs[i], |text|) {
        assert xs[i] in multiset(annotations);
      }
      SortDisjoint(annotations);
      WalkClampedAgrees(text, xs, 0);
    }
  }

  lemma {:induction false} WalkClampedAnnotated(text: string, xs: seq<Annotation>, cursor: int)
    ensures AnnotationsIn(WalkClamped(text, xs, cursor)) == xs
    decreases |xs|
  {
    if |xs| > 0 {
      var a := xs[0];
      var end := Max(a.end, cursor);
      var gap: seq<Part> := if a.start > cursor then [Part(Slice(text, cursor, a.start), None)] else [];
      var mid := [Part(Slice(text, Max(a.start, cursor), end), Some(a))];
      WalkClampedAnnotated(text, xs[1..], end);
      AnnotationsInAppend(gap + mid, WalkClamped(text, xs[1..], end));
      AnnotationsInAppend(gap, mid);
      assert AnnotationsIn(mid) == [a];
      assert AnnotationsIn(gap) == [];
      assert xs == [a] + xs[1..];
    }
  }

  /** Clamping keeps one annotated part per annotation, in stable order. */
  lemma SegmentClampedAnnotated(text: string, annotations: seq<Annotation>)
    requires |text| > 0
    ensures AnnotationsIn(SegmentClamped(text, annotations)) == SortByStart(annotations)
  {
    WalkClampedAnnotated(text, SortByStart(annotations), 0);
  }
}
