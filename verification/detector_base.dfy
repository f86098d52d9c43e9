/** The standalone layout detector's rectangle (a field-only `Box`) and its own
    `LayoutDetector.clip_boxes`, which applies the same clamp rule as the OCR
    engine's detector base. */
module DetectorBase {
  import G = Geometry

  datatype Box = Box(left: int, top: int, right: int, bottom: int)

  /** The same rectangle seen as an OCR-engine box. */
  function AsOcrBox(b: Box): G.Box {
    G.Box(b.left, b.top, b.right, b.bottom)
  }

  function AsOcrBoxes(boxes: seq<Box>): (r: seq<G.Box>)
    ensures |r| == |boxes|
    ensures forall k :: 0 <= k < |boxes| ==> r[k] == AsOcrBox(boxes[k])
  {
    if boxes == [] then [] else AsOcrBoxes(boxes[..|boxes| - 1]) + [AsOcrBox(boxes[|boxes| - 1])]
  }

  /** `LayoutDetector.clip_boxes`: clamps each box to `[0, width - 1] x [0, height - 1]`
      and keeps it when it is still proper, following the same rule as the OCR
      engine's clamp. */
  method ClipBoxes(boxes: seq<Box>, width: int, height: int) returns (clipped: seq<Box>)
    ensures AsOcrBoxes(clipped) == G.Clipped(AsOcrBoxes(boxes), width, height)
    ensures |clipped| <= |boxes|
    ensures forall k :: 0 <= k < |clipped| ==> G.Inside(AsOcrBox(clipped[k]), width, height)
  {
    clipped := [];
    for i := 0 to |boxes|
      invariant AsOcrBoxes(clipped) == G.Clipped(AsOcrBoxes(boxes[..i]), width, height)
    {
      var box := boxes[i];
      var left := G.Max(0, G.Min(box.left, width - 1));
      var top := G.Max(0, G.Min(box.top, height - 1));
      var right := G.Max(0, G.Min(box.right, width - 1));
      var bottom := G.Max(0, G.Min(box.bottom, height - 1));
      ClipBoxesStep(boxes, i, width, height);
      if right > left && bottom > top {
        AsOcrBoxesSnoc(clipped, Box(left, top, right, bottom));
        clipped := clipped + [Box(left, top, right, bottom)];
      }
    }
    assert boxes[..|boxes|] == boxes;
    G.ClippedShape(AsOcrBoxes(boxes), width, height);
  }

  lemma AsOcrBoxesSnoc(boxes: seq<Box>, box: Box)
    ensures AsOcrBoxes(boxes + [box]) == AsOcrBoxes(boxes) + [AsOcrBox(box)]
  {
    assert (boxes + [box])[..|boxes|] == boxes;
  }

  /** One more input box adds its clamp to the clipped boxes exactly when the
      clamp is proper. */
  lemma ClipBoxesStep(boxes: seq<Box>, i: int, width: int, height: int)
    requires 0 <= i < |boxes|
    ensures var c := G.Clamp(AsOcrBox(boxes[i]), width, height);
            G.Clipped(AsOcrBoxes(boxes[..i + 1]), width, height) ==
            G.Clipped(AsOcrBoxes(boxes[..i]), width, height) + (if G.Proper(c) then [c] else [])
  {
    assert boxes[..i + 1] == boxes[..i] + [boxes[i]];
    AsOcrBoxesSnoc(boxes[..i], boxes[i]);
    var s := AsOcrBoxes(boxes[..i]) + [AsOcrBox(boxes[i])];
    assert s[..|s| - 1] == AsOcrBoxes(boxes[..i]);
  }

  lemma AsOcrBoxesInjective(a: seq<Box>, b: seq<Box>)
    requires AsOcrBoxes(a) == AsOcrBoxes(b)
    ensures a == b
  {
    assert |a| == |b|;
    forall k | 0 <= k < |a| ensures a[k] == b[k] {
      assert AsOcrBox(a[k]) == AsOcrBox(b[k]);
    }
  }

  /** Clipping the output of `clip_boxes` again gives it back unchanged. */
  lemma ClipBoxesIdempotent(boxes: seq<Box>, width: int, height: int, once: seq<Box>, twice: seq<Box>)
    requires AsOcrBoxes(once) == G.Clipped(AsOcrBoxes(boxes), width, height)
    requires AsOcrBoxes(twice) == G.Clipped(AsOcrBoxes(once), width, height)
    ensures twice == once
  {
    G.ClippedIdempotent(AsOcrBoxes(boxes), width, height);
    AsOcrBoxesInjective(twice, once);
  }

  /** Boxes already inside the image, with positive extent, pass through. */
  lemma ClipBoxesInsideUnchanged(boxes: seq<Box>, width: int, height: int, clipped: seq<Box>)
    requires forall k :: 0 <= k < |boxes| ==> G.Inside(AsOcrBox(boxes[k]), width, height)
    requires AsOcrBoxes(clipped) == G.Clipped(AsOcrBoxes(boxes), width, height)
    ensures clipped == boxes
  {
    G.ClippedInsideUnchanged(AsOcrBoxes(boxes), width, height);
    AsOcrBoxesInjective(clipped, boxes);
  }
}
