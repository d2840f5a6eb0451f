/**
 Rendering and the escalation ladder (maskguard/redaction/redaction_engine.py).

 An image is its size and what has been painted over the pixels it started with, in order.
 */
module Redaction {
  import opened Models

  datatype Stroke = Stroke(action: RedactionAction, box: BoundingBox)

  datatype Image = Image(width: nat, height: nat, strokes: seq<Stroke>)

  // ---------- rendering ----------

  /** One stroke for each detection with an action, in order. */
  function Strokes(ds: seq<Detection>): seq<Stroke> {
    if ds == [] then []
    else
      var last := ds[|ds| - 1];
      Strokes(ds[..|ds| - 1]) + if last.action == NONE then [] else [Stroke(last.action, last.box)]
  }

  function Rendered(image: Image, ds: seq<Detection>): Image {
    image.(strokes := image.strokes + Strokes(ds))
  }

  method Apply(image: Image, detections: array<Detection>) returns (output: Image)
    ensures output == Rendered(image, detections[..])
  {
    output := image;
    for i := 0 to detections.Length
      invariant output == Rendered(image, detections[..i])
    {
      var d := detections[i];
      assert detections[..i + 1][..i] == detections[..i];
      if d.action != NONE {
        output := output.(strokes := output.strokes + [Stroke(d.action, d.box)]);
      }
    }
    assert detections[..detections.Length] == detections[..];
  }

  // ---------- escalation ----------

  const EXPAND := 4

  function Stronger(action: RedactionAction): RedactionAction {
    match action
    case PARTIAL_MASK => BLUR
    case BLUR => PIXELATE
    case PIXELATE => FULL_MASK
    case FULL_MASK => FULL_MASK
    case NONE => FULL_MASK
  }

  function Escalated(d: Detection): Detection {
    d.(action := Stronger(d.action),
       box := BoundingBox(Max(0, d.box.x - EXPAND), Max(0, d.box.y - EXPAND),
                          d.box.width + 2 * EXPAND, d.box.height + 2 * EXPAND))
  }

  method Escalate(detections: array<Detection>, i: nat)
    requires i < detections.Length
    modifies detections
    ensures detections[..] == old(detections[..])[i := Escalated(old(detections[i]))]
  {
    var d := detections[i];
    if d.action == PARTIAL_MASK {
      detections[i] := detections[i].(action := BLUR);
    } else if d.action == BLUR {
      detections[i] := detections[i].(action := PIXELATE);
    } else {
      detections[i] := detections[i].(action := FULL_MASK);
    }
    var box := d.box;
    detections[i] := detections[i].(box := BoundingBox(
      Max(0, box.x - EXPAND), Max(0, box.y - EXPAND), box.width + 2 * EXPAND, box.height + 2 * EXPAND));
  }

  /** `d` escalated `k` times. */
  function Climbed(d: Detection, k: nat): Detection {
    if k == 0 then d else Escalated(Climbed(d, k - 1))
  }

  function Rung(action: RedactionAction): int {
    match action
    case NONE => -1
    case PARTIAL_MASK => 0
    case BLUR => 1
    case PIXELATE => 2
    case FULL_MASK => 3
  }

  /** After `k` escalations the method is `k` rungs up, or a full mask; three always are. */
  lemma {:induction false} ClimbedAction(d: Detection, k: nat)
    ensures d.action != NONE ==> Rung(Climbed(d, k).action) == Min(3, Rung(d.action) + k)
    ensures d.action == NONE && k > 0 ==> Climbed(d, k).action == FULL_MASK
    ensures k >= 3 ==> Climbed(d, k).action == FULL_MASK
  {
    if k != 0 {
      ClimbedAction(d, k - 1);
    }
  }

  /** Wider by `margin` on every side, as far as the left and upper edge of the image allow. */
  function Widened(box: BoundingBox, margin: int): BoundingBox {
    BoundingBox(Max(0, box.x - margin), Max(0, box.y - margin), box.width + 2 * margin, box.height + 2 * margin)
  }

  /** Where the box is after `k` escalations. */
  lemma {:induction false} ClimbedBox(d: Detection, k: nat)
    ensures k > 0 ==> Climbed(d, k).box == Widened(d.box, 4 * k)
  {
    if k != 0 {
      ClimbedBox(d, k - 1);
    }
  }

  /** Nothing else is touched. */
  lemma {:induction false} ClimbedRest(d: Detection, k: nat)
    ensures Climbed(d, k) == d.(action := Climbed(d, k).action, box := Climbed(d, k).box)
  {
    if k != 0 {
      ClimbedRest(d, k - 1);
    }
  }

  /** The pixel is in the image and within `box`. */
  predicate Covers(image: Image, box: BoundingBox, x: int, y: int) {
    0 <= x < image.width && 0 <= y < image.height && box.x <= x < box.Right() && box.y <= y < box.Bottom()
  }

  /** The part of the image that a detection covers only ever grows. */
  lemma {:induction false} CoverGrows(image: Image, d: Detection, k: nat, x: int, y: int)
    requires Covers(image, d.box, x, y)
    ensures Covers(image, Climbed(d, k).box, x, y)
  {
    ClimbedBox(d, k);
  }

  /** Every detection with an action has its stroke in the image. */
  lemma {:induction false} StrokeShown(image: Image, ds: seq<Detection>, p: nat)
    requires p < |ds| && ds[p].action != NONE
    ensures Stroke(ds[p].action, ds[p].box) in Rendered(image, ds).strokes
    decreases |ds|
  {
    if p < |ds| - 1 {
      StrokeShown(image, ds[..|ds| - 1], p);
      assert Rendered(image, ds).strokes == Rendered(image, ds[..|ds| - 1]).strokes +
             if ds[|ds| - 1].action == NONE then [] else [Stroke(ds[|ds| - 1].action, ds[|ds| - 1].box)];
    }
  }

  /** The places of the detections with an action. */
  ghost predicate PaintedAt(ds: seq<Detection>, strokes: seq<Stroke>, at: seq<nat>) {
    && |at| == |strokes| && (forall k, l :: 0 <= k < l < |at| ==> at[k] < at[l])
    && (forall k :: 0 <= k < |at| ==> at[k] < |ds| && strokes[k] == Stroke(ds[at[k]].action, ds[at[k]].box))
    && (forall i :: 0 <= i < |ds| ==> (i in at <==> ds[i].action != NONE))
  }

  /** What is painted over the image: the detections with an action, each once, in order, with its
      action, over its box. */
  lemma {:induction false} PaintedExactly(image: Image, ds: seq<Detection>) returns (at: seq<nat>)
    ensures PaintedAt(ds, Strokes(ds), at)
    ensures Rendered(image, ds) == Image(image.width, image.height, image.strokes + Strokes(ds))
  {
    if ds == [] {
      at := [];
    } else {
      at := PaintedExactly(image, ds[..|ds| - 1]);
      PaintedOneMore(ds, at);
      if ds[|ds| - 1].action != NONE {
        at := at + [|ds| - 1];
      }
    }
  }

  lemma {:induction false} PaintedOneMore(ds: seq<Detection>, at: seq<nat>)
    requires ds != [] && PaintedAt(ds[..|ds| - 1], Strokes(ds[..|ds| - 1]), at)
    ensures PaintedAt(ds, Strokes(ds), if ds[|ds| - 1].action == NONE then at else at + [|ds| - 1])
  {
    var n := |ds| - 1;
    var front, strokes := ds[..n], Strokes(ds[..n]);
    assert forall i :: 0 <= i < n ==> front[i] == ds[i];
    if ds[n].action == NONE {
      assert strokes + [] == strokes;
    } else {
      PaintedLast(ds, strokes, at);
    }
  }

  lemma {:induction false} PaintedLast(ds: seq<Detection>, strokes: seq<Stroke>, at: seq<nat>)
    requires ds != [] && PaintedAt(ds[..|ds| - 1], strokes, at) && ds[|ds| - 1].action != NONE
    ensures PaintedAt(ds, strokes + [Stroke(ds[|ds| - 1].action, ds[|ds| - 1].box)], at + [|ds| - 1])
  {
    var n := |ds| - 1;
    var more := at + [n];
    assert forall i :: 0 <= i < n ==> ds[..n][i] == ds[i];
    assert more[|at|] == n && forall k :: 0 <= k < |at| ==> more[k] == at[k] < n;
    forall i | 0 <= i < |ds|
      ensures i in more <==> ds[i].action != NONE
    {
      assert i in more <==> i in at || i == n;
    }
  }
}
