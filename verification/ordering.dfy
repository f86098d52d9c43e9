/** Column-aware reading order (`order_boxes_column_aware`): boxes are visited by
    horizontal centre and greedily clustered into columns by horizontal overlap;
    the columns are then emitted in reading direction, each one top to bottom. */
module Ordering {
  import opened Geometry
  import opened Sorting
  import opened Seqs

  /** The value of a `Column`: its horizontal extent and its members in the order
      they were added. */
  datatype ColumnView = ColumnView(left: int, right: int, boxes: seq<Box>)

  function MinLeft(boxes: seq<Box>): int
    requires boxes != []
  {
    if |boxes| == 1 then boxes[0].left
    else Min(MinLeft(boxes[..|boxes| - 1]), boxes[|boxes| - 1].left)
  }

  function MaxRight(boxes: seq<Box>): int
    requires boxes != []
  {
    if |boxes| == 1 then boxes[0].right
    else Max(MaxRight(boxes[..|boxes| - 1]), boxes[|boxes| - 1].right)
  }

  /** A column whose extent is exactly the hull of its (non-empty) members. */
  predicate Hull(c: ColumnView) {
    c.boxes != [] && c.left == MinLeft(c.boxes) && c.right == MaxRight(c.boxes)
  }

  /** A new column holding one box. */
  function Singleton(box: Box): (c: ColumnView)
    ensures Hull(c)
  {
    ColumnView(box.left, box.right, [box])
  }

  /** The value `Column.add` leaves behind: the box is appended and the extent
      widened to cover it. */
  function AddTo(c: ColumnView, box: Box): (r: ColumnView)
    ensures r.boxes == c.boxes + [box]
    ensures r.left <= c.left && r.right >= c.right
    ensures r.left <= box.left && box.right <= r.right
    ensures Hull(c) ==> Hull(r)
  {
    assert (c.boxes + [box])[..|c.boxes|] == c.boxes;
    ColumnView(Min(c.left, box.left), Max(c.right, box.right), c.boxes + [box])
  }

  /** `Column`: an extent that widens as boxes are added. */
  class Column {
    var left: int
    var right: int
    var boxes: seq<Box>

    constructor (left: int, right: int, boxes: seq<Box>)
      ensures View() == ColumnView(left, right, boxes)
    {
      this.left := left;
      this.right := right;
      this.boxes := boxes;
    }

    function View(): ColumnView
      reads this
    {
      ColumnView(left, right, boxes)
    }

    /** `Column.add`: appends the box and widens the extent to cover it; the
        extent stays the hull of the members. */
    method Add(box: Box)
      modifies this
      ensures View() == AddTo(old(View()), box)
      ensures left <= old(left) && right >= old(right)
      ensures old(Hull(View())) ==> Hull(View())
    {
      boxes := boxes + [box];
      left := Min(left, box.left);
      right := Max(right, box.right);
    }
  }

  // ---------------------------------------------------------------------------
  // the clustering rule

  /** The overlap of the box with the column's extent; not positive when they are
      disjoint or only touch. */
  function Overlap(c: ColumnView, box: Box): int {
    Min(box.right, c.right) - Max(box.left, c.left)
  }

  /** The smaller of the two widths (the column's may be negative only in a column
      that is not a hull). */
  function MinWidth(c: ColumnView, box: Box): int {
    Min(box.Width(), c.right - c.left)
  }

  /** The ratio test: a positive overlap that is at least `ratio` of the smaller
      width, the width being taken as at least 1. */
  predicate Joins(overlap: int, minWidth: int, ratio: real) {
    overlap > 0 && overlap as real / Max(1, minWidth) as real >= ratio
  }

  /** Whether the box joins the column. */
  predicate Fits(c: ColumnView, box: Box, ratio: real) {
    Joins(Overlap(c, box), MinWidth(c, box), ratio)
  }

  /** The index of the first column, in creation order, that the box fits;
      `|cols|` when there is none. */
  function FirstFit(cols: seq<ColumnView>, box: Box, ratio: real): (j: nat)
    ensures j <= |cols|
  {
    if cols == [] then 0
    else if Fits(cols[0], box, ratio) then 0
    else 1 + FirstFit(cols[1..], box, ratio)
  }

  /** `FirstFit` is the first column the box fits: an index is `FirstFit` exactly
      when the box fits that column (or it is `|cols|`) and fits none before it. */
  lemma {:induction false} FirstFitSpec(cols: seq<ColumnView>, box: Box, ratio: real, j: nat)
    requires j <= |cols|
    ensures FirstFit(cols, box, ratio) == j <==>
              (j < |cols| ==> Fits(cols[j], box, ratio)) &&
              (forall k :: 0 <= k < j ==> !Fits(cols[k], box, ratio))
  {
    if cols != [] && !Fits(cols[0], box, ratio) && j > 0 {
      FirstFitSpec(cols[1..], box, ratio, j - 1);
      if FirstFit(cols[1..], box, ratio) == j - 1 {
        forall k | 0 <= k < j ensures !Fits(cols[k], box, ratio) {
          if k > 0 {
            assert cols[k] == cols[1..][k - 1];
          }
        }
      }
      if (j < |cols| ==> Fits(cols[j], box, ratio)) && (forall k :: 0 <= k < j ==> !Fits(cols[k], box, ratio)) {
        assert forall k :: 0 <= k < j - 1 ==> cols[1..][k] == cols[k + 1];
      }
    }
  }

  /** One step of the clustering: the box joins the first column it fits, or
      opens a new column after the existing ones. */
  function Place(cols: seq<ColumnView>, box: Box, ratio: real): seq<ColumnView>
  {
    var j := FirstFit(cols, box, ratio);
    if j < |cols| then cols[j := AddTo(cols[j], box)] else cols + [Singleton(box)]
  }

  /** The columns the greedy scan builds from boxes visited in the given order. */
  function Cluster(boxes: seq<Box>, ratio: real): seq<ColumnView> {
    if boxes == [] then []
    else Place(Cluster(boxes[..|boxes| - 1], ratio), boxes[|boxes| - 1], ratio)
  }

  // ---------------------------------------------------------------------------
  // the three sort keys

  /** Visiting order: by horizontal centre, ascending (LTR) or descending (RTL). */
  function CenterKey(rtl: bool): Box -> Key {
    (b: Box) => if rtl then (-b.DoubleCenterX(), 0) else (b.DoubleCenterX(), 0)
  }

  /** Column order: ascending left edge (LTR) or descending right edge (RTL). */
  function ColumnKey(rtl: bool): ColumnView -> Key {
    (c: ColumnView) => if rtl then (-c.right, 0) else (c.left, 0)
  }

  /** Order inside a column: `(top, left)` (LTR) or `(top, -right)` (RTL). */
  function InColumnKey(rtl: bool): Box -> Key {
    (b: Box) => if rtl then (b.top, -b.right) else (b.top, b.left)
  }

  // ---------------------------------------------------------------------------
  // the reading order as a function

  /** The columns in the order they are emitted. */
  function Columns(boxes: seq<Box>, rtl: bool, ratio: real): seq<ColumnView> {
    SortBy(Cluster(SortBy(boxes, CenterKey(rtl)), ratio), ColumnKey(rtl))
  }

  /** Each column's members sorted top to bottom. */
  function Blocks(cols: seq<ColumnView>, rtl: bool): (r: seq<seq<Box>>)
    ensures |r| == |cols|
    ensures forall k :: 0 <= k < |cols| ==> r[k] == SortBy(cols[k].boxes, InColumnKey(rtl))
  {
    if cols == [] then []
    else Blocks(cols[..|cols| - 1], rtl) + [SortBy(cols[|cols| - 1].boxes, InColumnKey(rtl))]
  }

  function Flatten(blocks: seq<seq<Box>>): seq<Box> {
    if blocks == [] then [] else Flatten(blocks[..|blocks| - 1]) + blocks[|blocks| - 1]
  }

  /** The members of each column, in column order. */
  function Members(cols: seq<ColumnView>): (r: seq<seq<Box>>)
    ensures |r| == |cols|
    ensures forall k :: 0 <= k < |cols| ==> r[k] == cols[k].boxes
  {
    if cols == [] then [] else Members(cols[..|cols| - 1]) + [cols[|cols| - 1].boxes]
  }

  /** What `order_boxes_column_aware` returns. */
  function ReadingOrder(boxes: seq<Box>, rtl: bool, ratio: real): seq<Box> {
    if boxes == [] then [] else Flatten(Blocks(Columns(boxes, rtl, ratio), rtl))
  }

  // ---------------------------------------------------------------------------
  // the algorithm

  /** The abstract values of a list of columns. */
  function Views(cs: seq<Column>): (r: seq<ColumnView>)
    reads cs
    ensures |r| == |cs|
    ensures forall k :: 0 <= k < |cs| ==> r[k] == cs[k].View()
  {
    if cs == [] then [] else Views(cs[..|cs| - 1]) + [cs[|cs| - 1].View()]
  }

  predicate Distinct(cs: seq<Column>) {
    forall a, b :: 0 <= a < b < |cs| ==> cs[a] != cs[b]
  }

  /** The search of the clustering loop: the first column, in creation order, that
      the box joins; `|columns|` when it joins none. */
  method FindColumn(columns: seq<Column>, box: Box, overlapRatio: real) returns (j: nat)
    ensures j == FirstFit(Views(columns), box, overlapRatio)
  {
    ghost var views := Views(columns);
    j := 0;
    while j < |columns|
      invariant j <= |columns|
      invariant forall k :: 0 <= k < j ==> !Fits(views[k], box, overlapRatio)
    {
      var column := columns[j];
      var overlap := Min(box.right, column.right) - Max(box.left, column.left);
      var minWidth := Min(box.Width(), column.right - column.left);
      assert views[j] == ColumnView(column.left, column.right, column.boxes);
      if Joins(overlap, minWidth, overlapRatio) {
        FirstFitSpec(views, box, overlapRatio, j);
        return;
      }
      j := j + 1;
    }
    FirstFitSpec(views, box, overlapRatio, j);
  }

  /** `columns[j].add(box)`: only that column changes. */
  method AddAt(columns: seq<Column>, j: nat, box: Box)
    requires j < |columns| && Distinct(columns)
    modifies columns[j]
    ensures Views(columns) == old(Views(columns))[j := AddTo(old(Views(columns))[j], box)]
  {
    ghost var before := Views(columns);
    columns[j].Add(box);
    forall k | 0 <= k < |columns|
      ensures Views(columns)[k] == before[j := AddTo(before[j], box)][k]
    {
      if k != j {
        assert columns[k] != columns[j];
      }
    }
  }

  /** The clustering loop of `order_boxes_column_aware`: each box, in visiting
      order, joins the first column it fits or opens a new one. */
  method BuildColumns(sortedBoxes: seq<Box>, overlapRatio: real) returns (columns: seq<Column>)
    ensures Distinct(columns)
    ensures forall k :: 0 <= k < |columns| ==> fresh(columns[k])
    ensures Views(columns) == Cluster(sortedBoxes, overlapRatio)
  {
    columns := [];
    for i := 0 to |sortedBoxes|
      invariant Distinct(columns)
      invariant forall k :: 0 <= k < |columns| ==> fresh(columns[k])
      invariant Views(columns) == Cluster(sortedBoxes[..i], overlapRatio)
    {
      ClusterStep(sortedBoxes, i, overlapRatio);
      columns := PlaceBox(columns, sortedBoxes[i], overlapRatio);
    }
    assert sortedBoxes[..|sortedBoxes|] == sortedBoxes;
  }

  /** One pass of the clustering loop: the box joins the first column it fits,
      or a new column holding it alone is opened after the others. */
  method PlaceBox(columns: seq<Column>, box: Box, overlapRatio: real) returns (next: seq<Column>)
    requires Distinct(columns)
    modifies columns
    ensures Distinct(next)
    ensures forall k :: 0 <= k < |next| ==> next[k] in columns || fresh(next[k])
    ensures Views(next) == Place(old(Views(columns)), box, overlapRatio)
  {
    var j := FindColumn(columns, box, overlapRatio);
    if j < |columns| {
      AddAt(columns, j, box);
      next := columns;
    } else {
      var column := new Column(box.left, box.right, [box]);
      ViewsSnoc(columns, column);
      DistinctSnoc(columns, column);
      next := columns + [column];
    }
  }

  /** One more visited box is placed into the columns built so far. */
  lemma ClusterStep(boxes: seq<Box>, i: nat, ratio: real)
    requires i < |boxes|
    ensures Cluster(boxes[..i + 1], ratio) == Place(Cluster(boxes[..i], ratio), boxes[i], ratio)
  {
    assert boxes[..i + 1][..i] == boxes[..i];
  }

  lemma DistinctSnoc(cs: seq<Column>, c: Column)
    requires Distinct(cs) && c !in cs
    ensures Distinct(cs + [c])
  {
  }

  lemma ViewsSnoc(cs: seq<Column>, c: Column)
    ensures Views(cs + [c]) == Views(cs) + [c.View()]
  {
    SnocFront(cs, c);
  }

  /** `order_boxes_column_aware`. The page width is accepted and never read: the
      result depends on the boxes, the direction and the ratio alone. */
  method OrderBoxesColumnAware(boxes: seq<Box>, pageWidth: int, rtl: bool, overlapRatio: real)
    returns (ordered: seq<Box>)
    ensures ordered == ReadingOrder(boxes, rtl, overlapRatio)
    ensures multiset(ordered) == multiset(boxes)
  {
    if |boxes| == 0 {
      return [];
    }
    var sortedBoxes := SortBy(boxes, CenterKey(rtl));
    var columns := BuildColumns(sortedBoxes, overlapRatio);
    var views := SortBy(Views(columns), ColumnKey(rtl));
    ordered := [];
    for k := 0 to |views|
      invariant ordered == Flatten(Blocks(views[..k], rtl))
    {
      FlattenBlocksSnoc(views, k, rtl);
      ordered := ordered + SortBy(views[k].boxes, InColumnKey(rtl));
    }
    assert views[..|views|] == views;
    ReadingOrderPermutation(boxes, rtl, overlapRatio);
  }

  // ---------------------------------------------------------------------------
  // partition: every box is emitted exactly once

  lemma {:induction false} FlattenAppend(a: seq<seq<Box>>, b: seq<seq<Box>>)
    ensures Flatten(a + b) == Flatten(a) + Flatten(b)
  {
    if b == [] {
      assert a + b == a;
    } else {
      var front, last := b[..|b| - 1], b[|b| - 1];
      assert (a + b)[..|a + b| - 1] == a + front;
      assert (a + b)[|a + b| - 1] == last;
      FlattenAppend(a, front);
      AppendAssoc(Flatten(a), Flatten(front), last);
    }
  }

  /** Emitting one more column appends its sorted members. */
  lemma FlattenBlocksSnoc(cols: seq<ColumnView>, k: nat, rtl: bool)
    requires k < |cols|
    ensures Flatten(Blocks(cols[..k + 1], rtl)) == Flatten(Blocks(cols[..k], rtl)) + SortBy(cols[k].boxes, InColumnKey(rtl))
  {
    assert cols[..k + 1][..k] == cols[..k];
    var b := Blocks(cols[..k + 1], rtl);
    assert b == Blocks(cols[..k], rtl) + [SortBy(cols[k].boxes, InColumnKey(rtl))];
    assert b[..|b| - 1] == Blocks(cols[..k], rtl);
  }

  /** Flattening blocks that are permutations of each other, block by block. */
  lemma {:induction false} FlattenPermutation(a: seq<seq<Box>>, b: seq<seq<Box>>)
    requires |a| == |b|
    requires forall k :: 0 <= k < |a| ==> multiset(a[k]) == multiset(b[k])
    ensures multiset(Flatten(a)) == multiset(Flatten(b))
  {
    if a != [] {
      FlattenPermutation(a[..|a| - 1], b[..|b| - 1]);
    }
  }

  lemma MembersAppend(a: seq<ColumnView>, b: seq<ColumnView>)
    ensures Members(a + b) == Members(a) + Members(b)
  {
  }

  lemma FlattenMembersCons(x: ColumnView, t: seq<ColumnView>)
    ensures Flatten(Members([x] + t)) == x.boxes + Flatten(Members(t))
  {
    MembersAppend([x], t);
    assert Members([x]) == [x.boxes];
    FlattenAppend([x.boxes], Members(t));
    assert Flatten([x.boxes]) == x.boxes by { assert [x.boxes][..0] == []; }
  }

  /** Inserting a column anywhere adds exactly its members. */
  lemma {:induction false} InsertMembers(t: seq<ColumnView>, x: ColumnView, key: ColumnView -> Key)
    ensures multiset(Flatten(Members(Insert(t, x, key)))) == multiset(Flatten(Members(t))) + multiset(x.boxes)
    decreases |t|, 1
  {
    if t == [] {
      FlattenMembersCons(x, []);
      EmptyAppend([x]);
    } else if !KeyLe(key(t[0]), key(x)) {
      FlattenMembersCons(x, t);
    } else {
      InsertMembersLater(t, x, key);
    }
  }

  /** A column whose key is not below the first column's goes after it. */
  lemma {:induction false} InsertMembersLater(t: seq<ColumnView>, x: ColumnView, key: ColumnView -> Key)
    requires t != [] && KeyLe(key(t[0]), key(x))
    ensures multiset(Flatten(Members(Insert(t, x, key)))) == multiset(Flatten(Members(t))) + multiset(x.boxes)
    decreases |t|, 0
  {
    var rest := Insert(t[1..], x, key);
    assert Insert(t, x, key) == [t[0]] + rest;
    InsertMembers(t[1..], x, key);
    HeadTail(t);
    ConsMembers(t[0], rest, t[1..], x);
  }

  /** A common first column keeps the difference between two column lists' members. */
  lemma ConsMembers(c: ColumnView, a: seq<ColumnView>, b: seq<ColumnView>, x: ColumnView)
    requires multiset(Flatten(Members(a))) == multiset(Flatten(Members(b))) + multiset(x.boxes)
    ensures multiset(Flatten(Members([c] + a))) == multiset(Flatten(Members([c] + b))) + multiset(x.boxes)
  {
    FlattenMembersCons(c, a);
    FlattenMembersCons(c, b);
  }

  /** Reordering the columns does not change the multiset of their members. */
  lemma {:induction false} SortMembers(cols: seq<ColumnView>, key: ColumnView -> Key)
    ensures multiset(Flatten(Members(SortBy(cols, key)))) == multiset(Flatten(Members(cols)))
  {
    if cols != [] {
      var p, x := cols[..|cols| - 1], cols[|cols| - 1];
      SortMembers(p, key);
      InsertMembers(SortBy(p, key), x, key);
      assert Members(cols) == Members(p) + [x.boxes];
      assert Members(cols)[..|cols| - 1] == Members(p);
    }
  }

  /** Replacing one member list changes the flattened multiset accordingly. */
  lemma UpdateMembers(ms: seq<seq<Box>>, j: nat, v: seq<Box>)
    requires j < |ms|
    ensures multiset(Flatten(ms[j := v])) + multiset(ms[j]) == multiset(Flatten(ms)) + multiset(v)
  {
    var pre, post := ms[..j], ms[j + 1..];
    assert ms == pre + [ms[j]] + post;
    assert ms[j := v] == pre + [v] + post;
    FlattenAppend(pre + [ms[j]], post);
    FlattenAppend(pre + [v], post);
    FlattenAppend(pre, [ms[j]]);
    FlattenAppend(pre, [v]);
    assert Flatten([ms[j]]) == ms[j] by { assert [ms[j]][..0] == []; }
    assert Flatten([v]) == v by { assert [v][..0] == []; }
  }

  lemma AddToPartition(cols: seq<ColumnView>, j: nat, box: Box)
    requires j < |cols|
    ensures multiset(Flatten(Members(cols[j := AddTo(cols[j], box)]))) == multiset(Flatten(Members(cols))) + multiset{box}
  {
    var v := AddTo(cols[j], box);
    assert Members(cols[j := v]) == Members(cols)[j := v.boxes];
    UpdateMembers(Members(cols), j, v.boxes);
    assert Members(cols)[j] == cols[j].boxes;
    assert multiset(v.boxes) == multiset(cols[j].boxes) + multiset{box};
    var x, y, a := multiset(Flatten(Members(cols[j := v]))), multiset(Flatten(Members(cols))), multiset(cols[j].boxes);
    assert x + a == y + a + multiset{box};
    assert forall e :: x[e] == (y + multiset{box})[e] by {
      forall e ensures x[e] == (y + multiset{box})[e] {
        assert (x + a)[e] == (y + a + multiset{box})[e];
      }
    }
  }

  lemma NewColumnPartition(cols: seq<ColumnView>, box: Box)
    ensures multiset(Flatten(Members(cols + [Singleton(box)]))) == multiset(Flatten(Members(cols))) + multiset{box}
  {
    MembersAppend(cols, [Singleton(box)]);
    assert Members([Singleton(box)]) == [[box]];
    FlattenAppend(Members(cols), [[box]]);
    assert Flatten([[box]]) == [box] by { assert [[box]][..0] == []; }
  }

  /** One clustering step adds the box to exactly one column. */
  lemma PlacePartition(cols: seq<ColumnView>, box: Box, ratio: real)
    ensures multiset(Flatten(Members(Place(cols, box, ratio)))) == multiset(Flatten(Members(cols))) + multiset{box}
  {
    var j := FirstFit(cols, box, ratio);
    if j < |cols| {
      AddToPartition(cols, j, box);
    } else {
      NewColumnPartition(cols, box);
    }
  }

  /** Clustering partitions the boxes: each one lands in exactly one column. */
  lemma {:induction false} ClusterPartition(boxes: seq<Box>, ratio: real)
    ensures multiset(Flatten(Members(Cluster(boxes, ratio)))) == multiset(boxes)
  {
    if boxes != [] {
      var p, b := boxes[..|boxes| - 1], boxes[|boxes| - 1];
      var before := Cluster(p, ratio);
      ClusterPartition(p, ratio);
      PlacePartition(before, b, ratio);
      FrontLast(boxes);
      calc {
        multiset(Flatten(Members(Cluster(boxes, ratio))));
        multiset(Flatten(Members(Place(before, b, ratio))));
        multiset(Flatten(Members(before))) + multiset{b};
        multiset(p) + multiset{b};
        multiset(boxes);
      }
    }
  }

  /** The output is a permutation of the input: no box is lost or duplicated. */
  lemma ReadingOrderPermutation(boxes: seq<Box>, rtl: bool, ratio: real)
    ensures multiset(ReadingOrder(boxes, rtl, ratio)) == multiset(boxes)
  {
    if boxes != [] {
      var sorted := SortBy(boxes, CenterKey(rtl));
      var clustered := Cluster(sorted, ratio);
      var cols := Columns(boxes, rtl, ratio);
      ClusterPartition(sorted, ratio);
      SortMembers(clustered, ColumnKey(rtl));
      FlattenPermutation(Blocks(cols, rtl), Members(cols));
    }
  }

  // ---------------------------------------------------------------------------
  // the joining rule and its consequences

  lemma ShareAtMostOne(overlap: int, width: int)
    requires 1 <= width && overlap <= width
    ensures overlap as real / width as real <= 1.0
  {
    var q := overlap as real / width as real;
    assert q * width as real == overlap as real;
    if q > 1.0 {
      assert q * width as real > 1.0 * width as real;
    }
  }

  lemma SharePositive(overlap: int, width: int)
    requires 1 <= width && 0 < overlap
    ensures overlap as real / width as real > 0.0
  {
    var q := overlap as real / width as real;
    assert q * width as real == overlap as real;
  }

  /** A box joins a column only when their extents overlap strictly: boxes that
      merely touch never share a column, whatever the ratio. */
  lemma FitsOverlaps(c: ColumnView, box: Box, ratio: real)
    ensures Fits(c, box, ratio) ==> c.left < box.right && box.left < c.right
    ensures box.right <= c.left || c.right <= box.left ==> !Fits(c, box, ratio)
  {
  }

  /** A positive overlap is never more than the smaller width. */
  lemma OverlapAtMostWidth(c: ColumnView, box: Box)
    requires Overlap(c, box) > 0
    ensures 1 <= MinWidth(c, box) && Overlap(c, box) <= MinWidth(c, box)
  {
  }

  /** With a ratio above 1 no box ever joins a column. */
  lemma NeverFitsAboveOne(c: ColumnView, box: Box, ratio: real)
    requires ratio > 1.0
    ensures !Fits(c, box, ratio)
  {
    if Overlap(c, box) > 0 {
      OverlapAtMostWidth(c, box);
      ShareAtMostOne(Overlap(c, box), Max(1, MinWidth(c, box)));
    }
  }

  /** With a ratio of at most 0 a box joins a column exactly when they overlap. */
  lemma FitsNonPositiveRatio(c: ColumnView, box: Box, ratio: real)
    requires ratio <= 0.0
    ensures Fits(c, box, ratio) <==> Overlap(c, box) > 0
  {
    if Overlap(c, box) > 0 {
      SharePositive(Overlap(c, box), Max(1, MinWidth(c, box)));
    }
  }

  /** With a ratio above 1 every box opens its own column, in visiting order. */
  lemma {:induction false} ClusterAboveOne(boxes: seq<Box>, ratio: real)
    requires ratio > 1.0
    ensures |Cluster(boxes, ratio)| == |boxes|
    ensures forall k :: 0 <= k < |boxes| ==> Cluster(boxes, ratio)[k] == Singleton(boxes[k])
  {
    if boxes != [] {
      var p, b := boxes[..|boxes| - 1], boxes[|boxes| - 1];
      var cols := Cluster(p, ratio);
      ClusterAboveOne(p, ratio);
      forall k | 0 <= k < |cols| ensures !Fits(cols[k], b, ratio) {
        NeverFitsAboveOne(cols[k], b, ratio);
      }
      FirstFitSpec(cols, b, ratio, |cols|);
      var r := Cluster(boxes, ratio);
      assert r == cols + [Singleton(b)];
      forall k | 0 <= k < |boxes| ensures r[k] == Singleton(boxes[k]) {
        if k < |p| {
          assert r[k] == cols[k] && p[k] == boxes[k];
        }
      }
    }
  }

  // ---------------------------------------------------------------------------
  // column extents

  /** Every member of a hull column lies within its extent. */
  lemma {:induction false} HullContains(c: ColumnView)
    requires Hull(c)
    ensures forall k :: 0 <= k < |c.boxes| ==> c.left <= c.boxes[k].left && c.boxes[k].right <= c.right
    decreases |c.boxes|
  {
    var bs := c.boxes;
    if |bs| > 1 {
      var p := bs[..|bs| - 1];
      HullContains(ColumnView(MinLeft(p), MaxRight(p), p));
    }
  }

  /** Every column the clustering builds has the hull of its members as its extent. */
  lemma {:induction false} ClusterHull(boxes: seq<Box>, ratio: real)
    ensures forall k :: 0 <= k < |Cluster(boxes, ratio)| ==> Hull(Cluster(boxes, ratio)[k])
  {
    if boxes != [] {
      var p, b := boxes[..|boxes| - 1], boxes[|boxes| - 1];
      var cols := Cluster(p, ratio);
      ClusterHull(p, ratio);
      var j := FirstFit(cols, b, ratio);
      assert Cluster(boxes, ratio) == Place(cols, b, ratio);
      if j < |cols| {
        assert Hull(AddTo(cols[j], b));
      }
    }
  }

  /** Each column in the output holds its members within its extent. */
  lemma ColumnsContainMembers(boxes: seq<Box>, rtl: bool, ratio: real, k: nat)
    requires k < |Columns(boxes, rtl, ratio)|
    ensures Hull(Columns(boxes, rtl, ratio)[k])
    ensures forall i :: 0 <= i < |Columns(boxes, rtl, ratio)[k].boxes| ==>
              Columns(boxes, rtl, ratio)[k].left <= Columns(boxes, rtl, ratio)[k].boxes[i].left &&
              Columns(boxes, rtl, ratio)[k].boxes[i].right <= Columns(boxes, rtl, ratio)[k].right
  {
    var clustered := Cluster(SortBy(boxes, CenterKey(rtl)), ratio);
    var cols := Columns(boxes, rtl, ratio);
    ClusterHull(SortBy(boxes, CenterKey(rtl)), ratio);
    assert multiset(cols) == multiset(clustered);
    assert cols[k] in multiset(cols);
    assert cols[k] in clustered;
    HullContains(cols[k]);
  }

  // ---------------------------------------------------------------------------
  // order of the output

  /** Columns are emitted by ascending left edge (LTR) or descending right edge
      (RTL). */
  lemma ColumnsOrdered(boxes: seq<Box>, rtl: bool, ratio: real)
    ensures forall i, j :: 0 <= i < j < |Columns(boxes, rtl, ratio)| ==>
              if rtl then Columns(boxes, rtl, ratio)[i].right >= Columns(boxes, rtl, ratio)[j].right
              else Columns(boxes, rtl, ratio)[i].left <= Columns(boxes, rtl, ratio)[j].left
  {
    var cols := Columns(boxes, rtl, ratio);
    SortBySorted(Cluster(SortBy(boxes, CenterKey(rtl)), ratio), ColumnKey(rtl));
    forall i, j | 0 <= i < j < |cols|
      ensures if rtl then cols[i].right >= cols[j].right else cols[i].left <= cols[j].left
    {
      assert KeyLe(ColumnKey(rtl)(cols[i]), ColumnKey(rtl)(cols[j]));
    }
  }

  /** Columns with the same sort edge keep the order in which they were created. */
  lemma ColumnsStable(boxes: seq<Box>, rtl: bool, ratio: real, k: Key)
    ensures WithKey(Columns(boxes, rtl, ratio), ColumnKey(rtl), k)
         == WithKey(Cluster(SortBy(boxes, CenterKey(rtl)), ratio), ColumnKey(rtl), k)
  {
    SortByStable(Cluster(SortBy(boxes, CenterKey(rtl)), ratio), ColumnKey(rtl), k);
  }

  /** Inside each column's block, `top` never decreases, and equal tops are
      ordered by `left` (LTR) or by descending `right` (RTL). */
  lemma BlockOrdered(cols: seq<ColumnView>, rtl: bool, k: nat)
    requires k < |cols|
    ensures forall i, j :: 0 <= i < j < |Blocks(cols, rtl)[k]| ==>
              var a, b := Blocks(cols, rtl)[k][i], Blocks(cols, rtl)[k][j];
              a.top < b.top || (a.top == b.top && (if rtl then a.right >= b.right else a.left <= b.left))
  {
    var block := Blocks(cols, rtl)[k];
    SortBySorted(cols[k].boxes, InColumnKey(rtl));
    forall i, j | 0 <= i < j < |block|
      ensures block[i].top < block[j].top ||
              (block[i].top == block[j].top && (if rtl then block[i].right >= block[j].right else block[i].left <= block[j].left))
    {
      assert KeyLe(InColumnKey(rtl)(block[i]), InColumnKey(rtl)(block[j]));
    }
  }

  /** A single box is returned as it is. */
  lemma ReadingOrderSingle(b: Box, rtl: bool, ratio: real)
    ensures ReadingOrder([b], rtl, ratio) == [b]
  {
    SortBySingleton(b, CenterKey(rtl));
    assert Cluster([b], ratio) == [Singleton(b)] by {
      assert [b][..0] == [];
    }
    SortBySingleton(Singleton(b), ColumnKey(rtl));
    SortBySingleton(b, InColumnKey(rtl));
    assert Blocks([Singleton(b)], rtl) == [[b]];
    assert Flatten([[b]]) == [b] by { assert [[b]][..0] == []; }
  }

  // ---------------------------------------------------------------------------
  // mirror symmetry: right to left is left to right seen in a mirror

  /** The box reflected about the vertical line `x = w / 2`. */
  function MirrorBox(b: Box, w: int): (r: Box)
    ensures r.Width() == b.Width() && r.top == b.top && r.bottom == b.bottom
  {
    Box(w - b.right, b.top, w - b.left, b.bottom)
  }

  function MirrorFn(w: int): Box -> Box {
    (b: Box) => MirrorBox(b, w)
  }

  /** Every box reflected, in the same order. */
  function Mirror(boxes: seq<Box>, w: int): seq<Box> {
    MapSeq(MirrorFn(w), boxes)
  }

  /** A column reflected: its extent is reflected and so are its members. */
  function MirrorColumn(c: ColumnView, w: int): ColumnView {
    ColumnView(w - c.right, w - c.left, Mirror(c.boxes, w))
  }

  function MirrorColumnFn(w: int): ColumnView -> ColumnView {
    (c: ColumnView) => MirrorColumn(c, w)
  }

  function MirrorColumns(cols: seq<ColumnView>, w: int): seq<ColumnView> {
    MapSeq(MirrorColumnFn(w), cols)
  }

  /** Overlap and widths do not change under reflection, so neither does the
      clustering test. */
  lemma FitsMirror(c: ColumnView, box: Box, ratio: real, w: int)
    ensures Fits(MirrorColumn(c, w), MirrorBox(box, w), ratio) == Fits(c, box, ratio)
  {
    assert Overlap(MirrorColumn(c, w), MirrorBox(box, w)) == Overlap(c, box);
    assert MinWidth(MirrorColumn(c, w), MirrorBox(box, w)) == MinWidth(c, box);
  }

  lemma {:induction false} FirstFitMirror(cols: seq<ColumnView>, box: Box, ratio: real, w: int)
    ensures FirstFit(MirrorColumns(cols, w), MirrorBox(box, w), ratio) == FirstFit(cols, box, ratio)
  {
    if cols != [] {
      FitsMirror(cols[0], box, ratio, w);
      MapTail(MirrorColumnFn(w), cols);
      FirstFitMirror(cols[1..], box, ratio, w);
    }
  }

  lemma AddToMirror(c: ColumnView, box: Box, w: int)
    ensures AddTo(MirrorColumn(c, w), MirrorBox(box, w)) == MirrorColumn(AddTo(c, box), w)
  {
    MapAppend(MirrorFn(w), c.boxes, [box]);
  }

  lemma PlaceMirror(cols: seq<ColumnView>, box: Box, ratio: real, w: int)
    ensures Place(MirrorColumns(cols, w), MirrorBox(box, w), ratio) == MirrorColumns(Place(cols, box, ratio), w)
  {
    FirstFitMirror(cols, box, ratio, w);
    var j := FirstFit(cols, box, ratio);
    if j < |cols| {
      AddToMirror(cols[j], box, w);
      MapUpdate(MirrorColumnFn(w), cols, j, AddTo(cols[j], box));
    } else {
      MapAppend(MirrorColumnFn(w), cols, [Singleton(box)]);
      assert Mirror([box], w) == [MirrorBox(box, w)];
    }
  }

  /** Clustering the reflected boxes in the reflected order builds the reflected
      columns. */
  lemma {:induction false} ClusterMirror(boxes: seq<Box>, ratio: real, w: int)
    ensures Cluster(Mirror(boxes, w), ratio) == MirrorColumns(Cluster(boxes, ratio), w)
  {
    if boxes != [] {
      var p := boxes[..|boxes| - 1];
      MapFront(MirrorFn(w), boxes);
      ClusterMirror(p, ratio, w);
      PlaceMirror(Cluster(p, ratio), boxes[|boxes| - 1], ratio, w);
    }
  }

  /** The visiting order: reflected centres are visited in the opposite
      direction. Needs boxes whose right edge is not left of their left edge. */
  lemma CenterKeysAgree(boxes: seq<Box>, rtl: bool, w: int)
    requires forall k :: 0 <= k < |boxes| ==> boxes[k].left <= boxes[k].right
    ensures KeysAgree(boxes, CenterKey(rtl), MirrorFn(w), CenterKey(!rtl))
  {
    forall a | a in boxes ensures MirrorBox(a, w).DoubleCenterX() == 2 * w - a.DoubleCenterX() {
      var k :| 0 <= k < |boxes| && boxes[k] == a;
    }
  }

  /** The column order: descending right edges are ascending reflected left
      edges, and the other way round. */
  lemma ColumnKeysAgree(cols: seq<ColumnView>, rtl: bool, w: int)
    ensures KeysAgree(cols, ColumnKey(rtl), MirrorColumnFn(w), ColumnKey(!rtl))
  {
  }

  /** The order in a column: `(top, -right)` is `(top, left)` of the reflection,
      shifted by `w`. */
  lemma InColumnKeysAgree(boxes: seq<Box>, rtl: bool, w: int)
    ensures KeysAgree(boxes, InColumnKey(rtl), MirrorFn(w), InColumnKey(!rtl))
  {
  }

  lemma {:induction false} FlattenBlocksMirror(cols: seq<ColumnView>, rtl: bool, w: int)
    ensures Flatten(Blocks(MirrorColumns(cols, w), !rtl)) == Mirror(Flatten(Blocks(cols, rtl)), w)
  {
    if cols != [] {
      var n := |cols|;
      var front, c := cols[..n - 1], cols[n - 1];
      FlattenBlocksMirror(front, rtl, w);
      MapFront(MirrorColumnFn(w), cols);
      assert cols[..n - 1 + 1] == cols;
      FlattenBlocksSnoc(cols, n - 1, rtl);
      var mc := MirrorColumns(cols, w);
      assert mc[..n - 1 + 1] == mc;
      FlattenBlocksSnoc(mc, n - 1, !rtl);
      InColumnKeysAgree(c.boxes, rtl, w);
      SortByMap(c.boxes, InColumnKey(rtl), MirrorFn(w), InColumnKey(!rtl));
      MapAppend(MirrorFn(w), Flatten(Blocks(front, rtl)), SortBy(c.boxes, InColumnKey(rtl)));
    }
  }

  /** Reading right to left is reading the mirror image left to right (and the
      other way round): the reading order of the reflected boxes in the opposite
      direction is the reflection of the reading order. */
  lemma ReadingOrderMirror(boxes: seq<Box>, rtl: bool, ratio: real, w: int)
    requires forall k :: 0 <= k < |boxes| ==> boxes[k].left <= boxes[k].right
    ensures ReadingOrder(Mirror(boxes, w), !rtl, ratio) == Mirror(ReadingOrder(boxes, rtl, ratio), w)
  {
    if boxes != [] {
      CenterKeysAgree(boxes, rtl, w);
      SortByMap(boxes, CenterKey(rtl), MirrorFn(w), CenterKey(!rtl));
      var visited := SortBy(boxes, CenterKey(rtl));
      ClusterMirror(visited, ratio, w);
      var cl := Cluster(visited, ratio);
      ColumnKeysAgree(cl, rtl, w);
      SortByMap(cl, ColumnKey(rtl), MirrorColumnFn(w), ColumnKey(!rtl));
      assert Columns(Mirror(boxes, w), !rtl, ratio) == MirrorColumns(Columns(boxes, rtl, ratio), w);
      FlattenBlocksMirror(Columns(boxes, rtl, ratio), rtl, w);
    }
  }
}
