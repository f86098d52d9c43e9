/** The deterministic parts of `SimpleCvDetector`: the parameter arithmetic of
    `detect`, the area filter of `_extract_boxes`, `_iou` and the greedy
    duplicate suppression of `_merge_boxes`. The OpenCV stages themselves
    (thresholding, morphology, contour finding) are not modelled: the bounding
    rectangles of the contours they produce are inputs. */
module CvDetector {
  import opened Geometry
  import opened Sorting
  import opened Seqs

  /** `SimpleCvConfig`. */
  datatype SimpleCvConfig = SimpleCvConfig(
    minArea: int,
    kernelWidth: int,
    kernelHeight: int,
    adaptiveBlockSize: int,
    adaptiveC: int,
    removeLines: bool,
    lineLengthRatio: real,
    lineThickness: int,
    borderMargin: int,
    maxAreaRatio: real,
    mergeLinefree: bool,
    mergeIouThreshold: real,
    mergeAreaRatio: real)

  /** The dataclass defaults. */
  const DefaultConfig := SimpleCvConfig(50, 10, 3, 25, 15, true, 0.15, 1, 2, 0.85, false, 0.7, 0.25)

  // ---------------------------------------------------------------------------
  // parameter arithmetic of detect

  /** Python's `int(x)` on a real: truncation toward zero. */
  function Trunc(x: real): (r: int)
    ensures 0.0 <= x ==> r as real <= x < r as real + 1.0
    ensures x < 0.0 ==> r as real - 1.0 < x <= r as real
  {
    if x >= 0.0 then x.Floor else -((-x).Floor)
  }

  /** The adaptive-threshold block size: the configured size raised to at least 3
      and then to the next odd number. */
  function BlockSize(adaptiveBlockSize: int): (b: int)
    ensures b >= 3 && b % 2 == 1
    ensures adaptiveBlockSize <= b <= Max(3, adaptiveBlockSize) + 1
    ensures adaptiveBlockSize >= 3 && adaptiveBlockSize % 2 == 1 ==> b == adaptiveBlockSize
  {
    var b := Max(3, adaptiveBlockSize);
    if b % 2 == 0 then b + 1 else b
  }

  /** The length of the line-removal kernels: `max(10, int(max_dim * ratio))`. */
  function LineLength(width: int, height: int, ratio: real): (n: int)
    ensures n >= 10
    ensures (Max(width, height) as real * ratio) >= 10.0 ==>
              n as real <= Max(width, height) as real * ratio < n as real + 1.0
  {
    Max(10, Trunc(Max(width, height) as real * ratio))
  }

  /** The thickness of the line-removal kernels: never below 1. */
  function LineThickness(thickness: int): (t: int)
    ensures t >= 1 && t >= thickness
    ensures thickness >= 1 ==> t == thickness
  {
    Max(1, thickness)
  }

  /** The area cap: `int(max_area_ratio * width * height)`; 0 or less disables it. */
  function MaxArea(ratio: real, width: int, height: int): (m: int)
    ensures 0.0 <= ratio * width as real * height as real ==>
              0 <= m && m as real <= ratio * width as real * height as real < m as real + 1.0
  {
    Trunc(ratio * width as real * height as real)
  }

  // ---------------------------------------------------------------------------
  // _extract_boxes

  /** A contour's bounding rectangle as `cv2.boundingRect` gives it. */
  datatype Rect = Rect(x: int, y: int, w: int, h: int)

  function RectBox(r: Rect): Box {
    Box(r.x, r.y, r.x + r.w, r.y + r.h)
  }

  /** The area filter: at least `minArea`, and at most `maxArea` when that is positive. */
  predicate KeepsArea(area: int, minArea: int, maxArea: int) {
    !(area < minArea) && !(maxArea > 0 && area > maxArea)
  }

  /** The boxes `_extract_boxes` returns for the given rectangles, in their order. */
  function Extracted(rects: seq<Rect>, minArea: int, maxArea: int): (r: seq<Box>)
    ensures |r| <= |rects|
  {
    if rects == [] then []
    else
      var last := rects[|rects| - 1];
      Extracted(rects[..|rects| - 1], minArea, maxArea) +
      (if KeepsArea(last.w * last.h, minArea, maxArea) then [RectBox(last)] else [])
  }

  /** `_extract_boxes`, with the contours replaced by their bounding rectangles. */
  method ExtractBoxes(rects: seq<Rect>, minArea: int, maxArea: int) returns (boxes: seq<Box>)
    ensures boxes == Extracted(rects, minArea, maxArea)
  {
    boxes := [];
    for i := 0 to |rects|
      invariant boxes == Extracted(rects[..i], minArea, maxArea)
    {
      assert rects[..i + 1][..i] == rects[..i];
      var r := rects[i];
      var area := r.w * r.h;
      if area < minArea {
        continue;
      }
      if maxArea > 0 && area > maxArea {
        continue;
      }
      boxes := boxes + [Box(r.x, r.y, r.x + r.w, r.y + r.h)];
    }
    assert rects[..|rects|] == rects;
  }

  /** The filter works rectangle by rectangle, so it keeps the input order. */
  lemma {:induction false} ExtractedAppend(a: seq<Rect>, b: seq<Rect>, minArea: int, maxArea: int)
    ensures Extracted(a + b, minArea, maxArea) == Extracted(a, minArea, maxArea) + Extracted(b, minArea, maxArea)
  {
    if b == [] {
      assert a + b == a;
    } else {
      assert (a + b)[..|a + b| - 1] == a + b[..|b| - 1];
      ExtractedAppend(a, b[..|b| - 1], minArea, maxArea);
    }
  }

  /** A box is extracted exactly when it is the box of a rectangle that passes the
      area filter. */
  lemma {:induction false} ExtractedMembers(rects: seq<Rect>, minArea: int, maxArea: int, b: Box)
    ensures b in Extracted(rects, minArea, maxArea) <==>
              exists i :: 0 <= i < |rects| && KeepsArea(rects[i].w * rects[i].h, minArea, maxArea) && RectBox(rects[i]) == b
  {
    if rects != [] {
      var p := rects[..|rects| - 1];
      ExtractedMembers(p, minArea, maxArea, b);
      if exists i :: 0 <= i < |p| && KeepsArea(p[i].w * p[i].h, minArea, maxArea) && RectBox(p[i]) == b {
        var i :| 0 <= i < |p| && KeepsArea(p[i].w * p[i].h, minArea, maxArea) && RectBox(p[i]) == b;
        assert rects[i] == p[i];
      }
      if exists i :: 0 <= i < |rects| && KeepsArea(rects[i].w * rects[i].h, minArea, maxArea) && RectBox(rects[i]) == b {
        var i :| 0 <= i < |rects| && KeepsArea(rects[i].w * rects[i].h, minArea, maxArea) && RectBox(rects[i]) == b;
        if i < |p| {
          assert p[i] == rects[i];
        }
      }
    }
  }

  /** A rectangle of non-negative size becomes a box whose area is `w * h`, so
      every extracted box lies within the area bounds. */
  lemma {:induction false} ExtractedAreas(rects: seq<Rect>, minArea: int, maxArea: int)
    requires forall i :: 0 <= i < |rects| ==> rects[i].w >= 0 && rects[i].h >= 0
    ensures forall k :: 0 <= k < |Extracted(rects, minArea, maxArea)| ==>
              KeepsArea(Area(Extracted(rects, minArea, maxArea)[k]), minArea, maxArea)
  {
    if rects != [] {
      ExtractedAreas(rects[..|rects| - 1], minArea, maxArea);
      var last := rects[|rects| - 1];
      assert Area(RectBox(last)) == last.w * last.h;
    }
  }

  // ---------------------------------------------------------------------------
  // _iou

  /** `width * height`. */
  function Area(b: Box): (a: int)
    ensures a >= 0
  {
    b.Width() * b.Height()
  }

  /** The area of the intersection of two boxes (0 when they are disjoint). */
  function Intersection(a: Box, b: Box): (i: int)
    ensures i >= 0
  {
    Max(0, Min(a.right, b.right) - Max(a.left, b.left)) * Max(0, Min(a.bottom, b.bottom) - Max(a.top, b.top))
  }

  function Union(a: Box, b: Box): int {
    Area(a) + Area(b) - Intersection(a, b)
  }

  /** `_iou`: intersection over union, and 0 when the union is empty. */
  function Iou(a: Box, b: Box): real {
    if Union(a, b) <= 0 then 0.0 else Intersection(a, b) as real / Union(a, b) as real
  }

  lemma MulMono(a: int, b: int, c: int, d: int)
    requires 0 <= a <= c && 0 <= b <= d
    ensures a * b <= c * d
  {
    assert a * b <= c * b;
    assert c * b <= c * d;
  }

  /** The intersection is no larger than either box. */
  lemma IntersectionAtMostArea(a: Box, b: Box)
    ensures Intersection(a, b) <= Area(a) && Intersection(a, b) <= Area(b)
  {
    var w := Max(0, Min(a.right, b.right) - Max(a.left, b.left));
    var h := Max(0, Min(a.bottom, b.bottom) - Max(a.top, b.top));
    MulMono(w, h, a.Width(), a.Height());
    MulMono(w, h, b.Width(), b.Height());
  }

  lemma FractionInUnit(n: int, d: int)
    requires 0 <= n <= d && 0 < d
    ensures 0.0 <= n as real / d as real <= 1.0
  {
    var q := n as real / d as real;
    assert q * d as real == n as real;
  }

  /** The overlap measure is 0 for an empty union and otherwise lies in [0, 1]. */
  lemma IouBounds(a: Box, b: Box)
    ensures Union(a, b) <= 0 ==> Iou(a, b) == 0.0
    ensures 0.0 <= Iou(a, b) <= 1.0
  {
    IntersectionAtMostArea(a, b);
    if Union(a, b) > 0 {
      FractionInUnit(Intersection(a, b), Union(a, b));
    }
  }

  /** The overlap measure does not depend on the order of its arguments. */
  lemma IouSymmetric(a: Box, b: Box)
    ensures Iou(a, b) == Iou(b, a)
  {
    assert Intersection(a, b) == Intersection(b, a);
  }

  lemma SelfQuotient(x: real)
    requires x > 0.0
    ensures x / x == 1.0
  {
  }

  /** A box of positive area overlaps itself completely. */
  lemma IouSelf(a: Box)
    requires Area(a) > 0
    ensures Iou(a, a) == 1.0
  {
    assert Intersection(a, a) == Area(a);
    assert Union(a, a) == Area(a);
    SelfQuotient(Area(a) as real);
  }

  // ---------------------------------------------------------------------------
  // _merge_boxes

  /** The smaller area over the larger one (taken as at least 1). */
  function AreaShare(a: Box, b: Box): real {
    Min(Area(a), Area(b)) as real / Max(1, Max(Area(a), Area(b))) as real
  }

  /** The duplicate test of `_merge_boxes`: enough overlap and similar areas. */
  predicate Duplicate(box: Box, existing: Box, iouThreshold: real, areaRatio: real) {
    Iou(box, existing) >= iouThreshold && AreaShare(box, existing) >= areaRatio
  }

  /** Both parts of the duplicate test are symmetric. */
  lemma DuplicateSymmetric(a: Box, b: Box, iouThreshold: real, areaRatio: real)
    ensures Duplicate(a, b, iouThreshold, areaRatio) <==> Duplicate(b, a, iouThreshold, areaRatio)
  {
    IouSymmetric(a, b);
    assert AreaShare(a, b) == AreaShare(b, a);
  }

  /** The duplicate test with its two thresholds fixed. */
  function DuplicateTest(iouThreshold: real, areaRatio: real): (Box, Box) -> bool {
    (box: Box, existing: Box) => Duplicate(box, existing, iouThreshold, areaRatio)
  }

  predicate HasDuplicate(kept: seq<Box>, box: Box, dup: (Box, Box) -> bool) {
    exists i :: 0 <= i < |kept| && dup(box, kept[i])
  }

  /** The greedy scan: a box is kept unless it duplicates a box kept before it. */
  function Keep(s: seq<Box>, dup: (Box, Box) -> bool): (r: seq<Box>)
    ensures |r| <= |s|
  {
    if s == [] then []
    else
      var kept := Keep(s[..|s| - 1], dup);
      if HasDuplicate(kept, s[|s| - 1], dup) then kept else kept + [s[|s| - 1]]
  }

  /** Largest area first; Python's `reverse=True` keeps equal areas in input order. */
  function AreaKey(): Box -> Key {
    (b: Box) => (-Area(b), 0)
  }

  /** What `_merge_boxes` returns. */
  function Merged(primary: seq<Box>, secondary: seq<Box>, iouThreshold: real, areaRatio: real): seq<Box> {
    Keep(SortBy(primary + secondary, AreaKey()), DuplicateTest(iouThreshold, areaRatio))
  }

  /** `_merge_boxes`. The library sort of `combined` is the stable sort by area,
      descending. */
  /** The inner scan of `merge_boxes`: whether the box duplicates none of the
      boxes kept so far. */
  method ScanKept(box: Box, kept: seq<Box>, iouThreshold: real, areaRatio: real) returns (shouldKeep: bool)
    ensures shouldKeep <==> !HasDuplicate(kept, box, DuplicateTest(iouThreshold, areaRatio))
  {
    ghost var dup := DuplicateTest(iouThreshold, areaRatio);
    shouldKeep := true;
    var e := 0;
    while e < |kept|
      invariant 0 <= e <= |kept|
      invariant shouldKeep
      invariant forall i :: 0 <= i < e ==> !dup(box, kept[i])
    {
      var existing := kept[e];
      var iou := Iou(box, existing);
      if iou >= iouThreshold {
        var ratio := AreaShare(box, existing);
        if ratio >= areaRatio {
          assert dup(box, kept[e]);
          shouldKeep := false;
          break;
        }
      }
      assert !dup(box, kept[e]);
      e := e + 1;
    }
  }

  lemma KeepStep(s: seq<Box>, n: nat, dup: (Box, Box) -> bool)
    requires n < |s|
    ensures Keep(s[..n + 1], dup) ==
              if HasDuplicate(Keep(s[..n], dup), s[n], dup) then Keep(s[..n], dup) else Keep(s[..n], dup) + [s[n]]
  {
    assert s[..n + 1][..n] == s[..n];
  }

  method MergeBoxes(primary: seq<Box>, secondary: seq<Box>, iouThreshold: real, areaRatio: real)
    returns (kept: seq<Box>)
    ensures kept == Merged(primary, secondary, iouThreshold, areaRatio)
  {
    ghost var dup := DuplicateTest(iouThreshold, areaRatio);
    var combined := primary + secondary;
    combined := SortBy(combined, AreaKey());
    kept := [];
    for n := 0 to |combined|
      invariant kept == Keep(combined[..n], dup)
    {
      KeepStep(combined, n, dup);
      var box := combined[n];
      var shouldKeep := ScanKept(box, kept, iouThreshold, areaRatio);
      if shouldKeep {
        kept := kept + [box];
      }
    }
    assert combined[..|combined|] == combined;
  }

  // ---------------------------------------------------------------------------
  // properties of the greedy scan, for any duplicate test

  /** Every kept box comes from the input. */
  lemma {:induction false} KeepMembers(s: seq<Box>, dup: (Box, Box) -> bool)
    ensures multiset(Keep(s, dup)) <= multiset(s)
    ensures forall x :: x in Keep(s, dup) ==> x in s
  {
    if s != [] {
      var p := s[..|s| - 1];
      KeepMembers(p, dup);
      assert s == p + [s[|s| - 1]];
    }
  }

  /** Scanning a longer input only appends: the kept boxes of a prefix are a
      prefix of the kept boxes of the whole. */
  lemma {:induction false} KeepPrefix(s: seq<Box>, m: nat, dup: (Box, Box) -> bool)
    requires m <= |s|
    ensures |Keep(s[..m], dup)| <= |Keep(s, dup)|
    ensures Keep(s[..m], dup) == Keep(s, dup)[..|Keep(s[..m], dup)|]
    decreases |s|
  {
    if m < |s| {
      var p := s[..|s| - 1];
      assert p[..m] == s[..m];
      KeepPrefix(p, m, dup);
    } else {
      assert s[..m] == s;
    }
  }

  /** The scan only leaves boxes out: the kept boxes are a subsequence of the
      input, in their input order. */
  lemma {:induction false} KeepSubsequence(s: seq<Box>, dup: (Box, Box) -> bool)
    ensures Subsequence(Keep(s, dup), s)
  {
    if s == [] {
      assert IndexMap([], Keep(s, dup), s);
    } else {
      var p := s[..|s| - 1];
      KeepSubsequence(p, dup);
      var idx :| IndexMap(idx, Keep(p, dup), p);
      if HasDuplicate(Keep(p, dup), s[|s| - 1], dup) {
        assert IndexMap(idx, Keep(s, dup), s);
      } else {
        var idx' := idx + [|s| - 1];
        assert IndexMap(idx', Keep(s, dup), s);
      }
    }
  }

  /** A sequence ordered by a key stays ordered when boxes are dropped from it. */
  lemma {:induction false} KeepSorted(s: seq<Box>, key: Box -> Key, dup: (Box, Box) -> bool)
    requires SortedBy(s, key)
    ensures SortedBy(Keep(s, dup), key)
  {
    if s != [] {
      var p, x := s[..|s| - 1], s[|s| - 1];
      KeepSorted(p, key, dup);
      KeepMembers(p, dup);
      var kept := Keep(p, dup);
      forall i | 0 <= i < |kept| ensures KeyLe(key(kept[i]), key(x)) {
        assert kept[i] in p;
        var m :| 0 <= m < |p| && p[m] == kept[i];
        assert s[m] == p[m];
      }
    }
  }

  /** No kept box duplicates a box kept before it. */
  lemma {:induction false} KeepNoDuplicates(s: seq<Box>, dup: (Box, Box) -> bool)
    ensures forall i, j :: 0 <= i < j < |Keep(s, dup)| ==> !dup(Keep(s, dup)[j], Keep(s, dup)[i])
  {
    if s != [] {
      KeepNoDuplicates(s[..|s| - 1], dup);
    }
  }

  /** Every box the scan drops duplicates a box that stays in the output, ahead of
      the place the dropped box would have taken. */
  lemma DroppedHasKeptDuplicate(s: seq<Box>, m: nat, dup: (Box, Box) -> bool)
    requires m < |s|
    requires HasDuplicate(Keep(s[..m], dup), s[m], dup)
    ensures |Keep(s[..m], dup)| <= |Keep(s, dup)|
    ensures exists i :: 0 <= i < |Keep(s[..m], dup)| && dup(s[m], Keep(s, dup)[i])
  {
    var before := Keep(s[..m], dup);
    var i :| 0 <= i < |before| && dup(s[m], before[i]);
    KeepPrefix(s, m, dup);
    assert Keep(s, dup)[i] == before[i];
  }

  /** The first box of the input is always kept, in first place. */
  lemma KeepFirst(s: seq<Box>, dup: (Box, Box) -> bool)
    requires s != []
    ensures Keep(s, dup) != [] && Keep(s, dup)[0] == s[0]
  {
    KeepPrefix(s, 1, dup);
    assert s[..1][..0] == [];
  }
  /** The scan of a continuation depends on what came before only through the
      boxes kept so far. */
  lemma {:induction false} KeepCongruent(p1: seq<Box>, p2: seq<Box>, q: seq<Box>, dup: (Box, Box) -> bool)
    requires Keep(p1, dup) == Keep(p2, dup)
    ensures Keep(p1 + q, dup) == Keep(p2 + q, dup)
  {
    if q == [] {
      EmptyAppend(p1);
      EmptyAppend(p2);
    } else {
      var q' := q[..|q| - 1];
      KeepCongruent(p1, p2, q', dup);
      assert (p1 + q)[..|p1 + q| - 1] == p1 + q';
      assert (p2 + q)[..|p2 + q| - 1] == p2 + q';
    }
  }

  /** When every box duplicates itself, a box seen before is dropped again: it
      duplicates its own kept copy, or the kept box that displaced that copy. */
  lemma KeepRepeat(p: seq<Box>, x: Box, dup: (Box, Box) -> bool)
    requires x in p && dup(x, x)
    ensures Keep(p + [x], dup) == Keep(p, dup)
  {
    var m :| 0 <= m < |p| && p[m] == x;
    KeptOrDuplicate(p, m, dup);
    KeepPrefix(p, m, dup);
    var kept := Keep(p, dup);
    if x in kept {
      var i :| 0 <= i < |kept| && kept[i] == x;
      assert dup(x, kept[i]);
    } else {
      var i :| 0 <= i < |Keep(p[..m], dup)| && dup(x, Keep(p[..m], dup)[i]);
      assert dup(x, kept[i]);
    }
    assert HasDuplicate(kept, x, dup);
    assert (p + [x])[..|p|] == p;
  }

  /** Adding copies of boxes that are already there does not change the scan of
      the sorted boxes. */
  lemma {:induction false} KeepExtraCopies(s: seq<Box>, q: seq<Box>, key: Box -> Key, dup: (Box, Box) -> bool)
    requires forall x :: x in q ==> x in s
    requires forall x :: x in s ==> dup(x, x)
    ensures Keep(SortBy(s + q, key), dup) == Keep(SortBy(s, key), dup)
  {
    if q == [] {
      EmptyAppend(s);
    } else {
      var q', x := q[..|q| - 1], q[|q| - 1];
      KeepExtraCopies(s, q', key, dup);
      assert x in s;
      SortBySnoc(s, q, x, key);
      SortBySorted(s + q', key);
      KeepInsertCopy(SortBy(s + q', key), x, key, dup);
    }
  }

  /** Inserting a copy of a box into the sorted boxes puts it after its first
      copy, where the scan drops it. */
  lemma KeepInsertCopy(u: seq<Box>, x: Box, key: Box -> Key, dup: (Box, Box) -> bool)
    requires SortedBy(u, key) && x in u && dup(x, x)
    ensures Keep(Insert(u, x, key), dup) == Keep(u, dup)
  {
    InsertSplit(u, x, key);
    var i := InsertAt(u, x, key);
    var m :| 0 <= m < |u| && u[m] == x;
    assert KeyLe(key(u[m]), key(x));
    assert u[..i][m] == x;
    KeepRepeat(u[..i], x, dup);
    KeepCongruent(u[..i] + [x], u[..i], u[i..], dup);
    TakeDrop(u, i);
  }

  // ---------------------------------------------------------------------------
  // properties of the merge

  /** A box of positive area is a duplicate of itself for thresholds of at most 1. */
  lemma SelfDuplicate(x: Box, iouThreshold: real, areaRatio: real)
    requires Area(x) > 0 && iouThreshold <= 1.0 && areaRatio <= 1.0
    ensures Duplicate(x, x, iouThreshold, areaRatio)
  {
    IouSelf(x);
    SelfQuotient(Area(x) as real);
  }

  /** Merging a list with itself gives what merging it with nothing gives: every
      second copy duplicates its own first copy, or the kept box that displaced
      it. (It is not the list itself: the merge sorts by area and drops the
      list's own duplicates.) */
  lemma MergedSelf(boxes: seq<Box>, iouThreshold: real, areaRatio: real)
    requires forall k :: 0 <= k < |boxes| ==> Area(boxes[k]) > 0
    requires iouThreshold <= 1.0 && areaRatio <= 1.0
    ensures Merged(boxes, boxes, iouThreshold, areaRatio) == Merged(boxes, [], iouThreshold, areaRatio)
  {
    var dup := DuplicateTest(iouThreshold, areaRatio);
    forall x | x in boxes ensures dup(x, x) {
      SelfDuplicate(x, iouThreshold, areaRatio);
    }
    KeepExtraCopies(boxes, boxes, AreaKey(), dup);
    EmptyAppend(boxes);
  }

  /** No two boxes the merge keeps are duplicates of each other, in either order. */
  lemma MergedNoDuplicates(primary: seq<Box>, secondary: seq<Box>, iouThreshold: real, areaRatio: real)
    ensures forall i, j :: 0 <= i < j < |Merged(primary, secondary, iouThreshold, areaRatio)| ==>
              var a, b := Merged(primary, secondary, iouThreshold, areaRatio)[i], Merged(primary, secondary, iouThreshold, areaRatio)[j];
              !Duplicate(a, b, iouThreshold, areaRatio) && !Duplicate(b, a, iouThreshold, areaRatio)
  {
    var dup := DuplicateTest(iouThreshold, areaRatio);
    var kept := Merged(primary, secondary, iouThreshold, areaRatio);
    KeepNoDuplicates(SortBy(primary + secondary, AreaKey()), dup);
    forall i, j | 0 <= i < j < |kept|
      ensures !Duplicate(kept[i], kept[j], iouThreshold, areaRatio) && !Duplicate(kept[j], kept[i], iouThreshold, areaRatio)
    {
      assert !dup(kept[j], kept[i]);
      DuplicateSymmetric(kept[i], kept[j], iouThreshold, areaRatio);
    }
  }

  /** The merge keeps a subsequence of the combined boxes in their stable
      area-descending order (so boxes of equal area stay in input order, by
      `SortByStable`): a box of the largest area comes first, kept areas never
      increase along the output, and nothing is added. */
  lemma MergedOrder(primary: seq<Box>, secondary: seq<Box>, iouThreshold: real, areaRatio: real)
    ensures Subsequence(Merged(primary, secondary, iouThreshold, areaRatio), SortBy(primary + secondary, AreaKey()))
    ensures |Merged(primary, secondary, iouThreshold, areaRatio)| <= |primary| + |secondary|
    ensures multiset(Merged(primary, secondary, iouThreshold, areaRatio)) <= multiset(primary + secondary)
    ensures forall i, j :: 0 <= i < j < |Merged(primary, secondary, iouThreshold, areaRatio)| ==>
              Area(Merged(primary, secondary, iouThreshold, areaRatio)[i]) >= Area(Merged(primary, secondary, iouThreshold, areaRatio)[j])
    ensures primary + secondary != [] ==>
              Merged(primary, secondary, iouThreshold, areaRatio) != [] &&
              forall b :: b in primary + secondary ==> Area(Merged(primary, secondary, iouThreshold, areaRatio)[0]) >= Area(b)
  {
    KeepSubsequence(SortBy(primary + secondary, AreaKey()), DuplicateTest(iouThreshold, areaRatio));
    KeepMembers(SortBy(primary + secondary, AreaKey()), DuplicateTest(iouThreshold, areaRatio));
    MergedByArea(primary + secondary, DuplicateTest(iouThreshold, areaRatio));
    if primary + secondary != [] {
      MergedLargestFirst(primary + secondary, DuplicateTest(iouThreshold, areaRatio));
    }
  }

  lemma MergedByArea(boxes: seq<Box>, dup: (Box, Box) -> bool)
    ensures var kept := Keep(SortBy(boxes, AreaKey()), dup);
            forall i, j :: 0 <= i < j < |kept| ==> Area(kept[i]) >= Area(kept[j])
  {
    var kept := Keep(SortBy(boxes, AreaKey()), dup);
    SortBySorted(boxes, AreaKey());
    KeepSorted(SortBy(boxes, AreaKey()), AreaKey(), dup);
    forall i, j | 0 <= i < j < |kept| ensures Area(kept[i]) >= Area(kept[j]) {
      assert KeyLe(AreaKey()(kept[i]), AreaKey()(kept[j]));
    }
  }

  lemma MergedLargestFirst(boxes: seq<Box>, dup: (Box, Box) -> bool)
    requires boxes != []
    ensures var kept := Keep(SortBy(boxes, AreaKey()), dup);
            kept != [] && forall b :: b in boxes ==> Area(kept[0]) >= Area(b)
  {
    var combined := SortBy(boxes, AreaKey());
    var kept := Keep(combined, dup);
    SortBySorted(boxes, AreaKey());
    KeepFirst(combined, dup);
    forall b | b in boxes ensures Area(kept[0]) >= Area(b) {
      assert b in multiset(combined);
      var m :| 0 <= m < |combined| && combined[m] == b;
      if m > 0 {
        assert KeyLe(AreaKey()(combined[0]), AreaKey()(combined[m]));
      }
    }
  }


  /** Every box of the input that the merge drops duplicates a box it keeps. */
  lemma MergedDropped(primary: seq<Box>, secondary: seq<Box>, iouThreshold: real, areaRatio: real, b: Box)
    requires b in primary + secondary && b !in Merged(primary, secondary, iouThreshold, areaRatio)
    ensures exists i :: 0 <= i < |Merged(primary, secondary, iouThreshold, areaRatio)| &&
              Duplicate(b, Merged(primary, secondary, iouThreshold, areaRatio)[i], iouThreshold, areaRatio)
  {
    var dup := DuplicateTest(iouThreshold, areaRatio);
    var combined := SortBy(primary + secondary, AreaKey());
    var kept := Merged(primary, secondary, iouThreshold, areaRatio);
    assert b in multiset(combined);
    var m :| 0 <= m < |combined| && combined[m] == b;
    KeptOrDuplicate(combined, m, dup);
    DroppedHasKeptDuplicate(combined, m, dup);
    var i :| 0 <= i < |Keep(combined[..m], dup)| && dup(b, kept[i]);
  }

  /** Each box of the scan is kept or duplicates a box kept before it. */
  lemma KeptOrDuplicate(s: seq<Box>, m: nat, dup: (Box, Box) -> bool)
    requires m < |s|
    ensures s[m] in Keep(s, dup) || HasDuplicate(Keep(s[..m], dup), s[m], dup)
  {
    KeepStep(s, m, dup);
    KeepPrefix(s, m + 1, dup);
    if !HasDuplicate(Keep(s[..m], dup), s[m], dup) {
      var k := Keep(s[..m + 1], dup);
      assert k[|k| - 1] == s[m];
      assert Keep(s, dup)[|k| - 1] == s[m];
    }
  }


  // ---------------------------------------------------------------------------
  // detect

  /** The boxes `detect` hands to `clip_boxes`, given the bounding rectangles of the
      contours of the closed line-free mask, of the closed raw mask and of the
      unclosed line-free mask. */
  function DetectedBoxes(config: SimpleCvConfig, width: int, height: int,
                         closedRects: seq<Rect>, closedRawRects: seq<Rect>, openRects: seq<Rect>): seq<Box> {
    var maxArea := MaxArea(config.maxAreaRatio, width, height);
    var boxes := Extracted(closedRects, config.minArea, maxArea);
    var merged :=
      if config.mergeLinefree then
        Merged(boxes, Extracted(closedRawRects, config.minArea, maxArea), config.mergeIouThreshold, config.mergeAreaRatio)
      else boxes;
    if merged == [] then Extracted(openRects, config.minArea, maxArea) else merged
  }

  /** The box-producing tail of `detect`: extract, optionally merge with the boxes
      of the raw mask, fall back to the unclosed mask when nothing was found, and
      clip to the image. */
  method Detect(config: SimpleCvConfig, width: int, height: int,
                closedRects: seq<Rect>, closedRawRects: seq<Rect>, openRects: seq<Rect>)
    returns (boxes: seq<Box>)
    ensures boxes == Clipped(DetectedBoxes(config, width, height, closedRects, closedRawRects, openRects), width, height)
    ensures forall k :: 0 <= k < |boxes| ==> Inside(boxes[k], width, height)
  {
    var maxArea := MaxArea(config.maxAreaRatio, width, height);
    boxes := ExtractBoxes(closedRects, config.minArea, maxArea);
    if config.mergeLinefree {
      var extraBoxes := ExtractBoxes(closedRawRects, config.minArea, maxArea);
      boxes := MergeBoxes(boxes, extraBoxes, config.mergeIouThreshold, config.mergeAreaRatio);
    }
    if |boxes| == 0 {
      boxes := ExtractBoxes(openRects, config.minArea, maxArea);
    }
    assert boxes == DetectedBoxes(config, width, height, closedRects, closedRawRects, openRects);
    boxes := ClipBoxes(boxes, width, height);
  }
}
