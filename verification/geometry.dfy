/** The OCR engine's rectangle (`Box`, a frozen dataclass) with its derived
    extent and centre, and the clamp every detector applies to its output
    (`LayoutDetector.clip_boxes`). */
module Geometry {

  function Min(a: int, b: int): int { if a <= b then a else b }
  function Max(a: int, b: int): int { if a >= b then a else b }

  datatype Box = Box(left: int, top: int, right: int, bottom: int) {

    /** `max(0, right - left)`: never negative, and the horizontal extent of a box
        whose right edge is not left of its left edge. */
    function Width(): (w: int)
      ensures w >= 0 && w >= right - left
      ensures w == 0 || w == right - left
    {
      Max(0, right - left)
    }

    /** `max(0, bottom - top)`, likewise. */
    function Height(): (h: int)
      ensures h >= 0 && h >= bottom - top
      ensures h == 0 || h == bottom - top
    {
      Max(0, bottom - top)
    }

    /** `left + width / 2`: the midpoint of a proper box, and `left` for a
        degenerate one. */
    function CenterX(): (c: real)
      ensures left as real <= c
      ensures left <= right ==> c <= right as real && 2.0 * c == (left + right) as real
      ensures right < left ==> c == left as real
    {
      left as real + Width() as real / 2.0
    }

    /** `top + height / 2`, likewise. */
    function CenterY(): (c: real)
      ensures top as real <= c
      ensures top <= bottom ==> c <= bottom as real && 2.0 * c == (top + bottom) as real
      ensures bottom < top ==> c == top as real
    {
      top as real + Height() as real / 2.0
    }

    /** Twice the horizontal centre, an integer; comparing it compares centres. */
    function DoubleCenterX(): (d: int)
      ensures d as real == 2.0 * CenterX()
    {
      2 * left + Width()
    }
  }

  /** Comparing centres is comparing the doubled integer centres. */
  lemma CenterOrder(a: Box, b: Box)
    ensures a.CenterX() <= b.CenterX() <==> a.DoubleCenterX() <= b.DoubleCenterX()
    ensures a.CenterX() == b.CenterX() <==> a.DoubleCenterX() == b.DoubleCenterX()
  {
  }

  // ---------------------------------------------------------------------------
  // clip_boxes

  /** One coordinate clamped to `[0, size - 1]` (to 0 when the size is below 1). */
  function ClampCoord(v: int, size: int): int {
    Max(0, Min(v, size - 1))
  }

  function Clamp(b: Box, width: int, height: int): Box {
    Box(ClampCoord(b.left, width), ClampCoord(b.top, height),
        ClampCoord(b.right, width), ClampCoord(b.bottom, height))
  }

  /** The survival test of a clamped box: positive extent both ways. */
  predicate Proper(b: Box) {
    b.left < b.right && b.top < b.bottom
  }

  /** A proper box within `[0, width - 1] x [0, height - 1]`. */
  predicate Inside(b: Box, width: int, height: int) {
    0 <= b.left < b.right <= width - 1 && 0 <= b.top < b.bottom <= height - 1
  }

  /** What `clip_boxes` returns: the clamp of every box whose clamp is proper, in
      input order. */
  function Clipped(boxes: seq<Box>, width: int, height: int): seq<Box> {
    if boxes == [] then []
    else
      var c := Clamp(boxes[|boxes| - 1], width, height);
      Clipped(boxes[..|boxes| - 1], width, height) + (if Proper(c) then [c] else [])
  }

  /** `LayoutDetector.clip_boxes`. */
  method ClipBoxes(boxes: seq<Box>, width: int, height: int) returns (clipped: seq<Box>)
    ensures clipped == Clipped(boxes, width, height)
    ensures |clipped| <= |boxes|
    ensures forall k :: 0 <= k < |clipped| ==> Inside(clipped[k], width, height)
  {
    clipped := [];
    for i := 0 to |boxes|
      invariant clipped == Clipped(boxes[..i], width, height)
    {
      var box := boxes[i];
      var left := Max(0, Min(box.left, width - 1));
      var top := Max(0, Min(box.top, height - 1));
      var right := Max(0, Min(box.right, width - 1));
      var bottom := Max(0, Min(box.bottom, height - 1));
      if right > left && bottom > top {
        clipped := clipped + [Box(left, top, right, bottom)];
      }
      assert boxes[..i + 1][..i] == boxes[..i];
    }
    assert boxes[..|boxes|] == boxes;
    ClippedShape(boxes, width, height);
  }

  // ---------------------------------------------------------------------------
  // properties of the clamp

  /** Every surviving box lies inside the image, and none is added. */
  lemma {:induction false} ClippedShape(boxes: seq<Box>, width: int, height: int)
    ensures |Clipped(boxes, width, height)| <= |boxes|
    ensures forall k :: 0 <= k < |Clipped(boxes, width, height)| ==> Inside(Clipped(boxes, width, height)[k], width, height)
  {
    if boxes != [] {
      ClippedShape(boxes[..|boxes| - 1], width, height);
    }
  }

  /** A box already inside the image is its own clamp. */
  lemma InsideUnchanged(b: Box, width: int, height: int)
    requires Inside(b, width, height)
    ensures Clamp(b, width, height) == b && Proper(b)
  {
  }

  /** Clipping distributes over concatenation: each box is clipped on its own. */
  lemma {:induction false} ClippedAppend(a: seq<Box>, b: seq<Box>, width: int, height: int)
    ensures Clipped(a + b, width, height) == Clipped(a, width, height) + Clipped(b, width, height)
  {
    if b == [] {
      assert a + b == a;
    } else {
      assert (a + b)[..|a + b| - 1] == a + b[..|b| - 1];
      ClippedAppend(a, b[..|b| - 1], width, height);
    }
  }

  /** Boxes that are all inside the image pass through unchanged. */
  lemma {:induction false} ClippedInsideUnchanged(boxes: seq<Box>, width: int, height: int)
    requires forall k :: 0 <= k < |boxes| ==> Inside(boxes[k], width, height)
    ensures Clipped(boxes, width, height) == boxes
  {
    if boxes != [] {
      ClippedInsideUnchanged(boxes[..|boxes| - 1], width, height);
      InsideUnchanged(boxes[|boxes| - 1], width, height);
      assert boxes[..|boxes| - 1] + [boxes[|boxes| - 1]] == boxes;
    }
  }

  /** Clipping twice is clipping once. */
  lemma ClippedIdempotent(boxes: seq<Box>, width: int, height: int)
    ensures Clipped(Clipped(boxes, width, height), width, height) == Clipped(boxes, width, height)
  {
    ClippedShape(boxes, width, height);
    ClippedInsideUnchanged(Clipped(boxes, width, height), width, height);
  }

  /** An image one pixel wide or high keeps no box. */
  lemma {:induction false} ClippedTinyImage(boxes: seq<Box>, width: int, height: int)
    requires width <= 1 || height <= 1
    ensures Clipped(boxes, width, height) == []
  {
    if boxes != [] {
      ClippedTinyImage(boxes[..|boxes| - 1], width, height);
    }
  }
}
