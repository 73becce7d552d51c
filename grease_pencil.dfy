/**
 The grease-pencil operators: masking the active layer with the layer above or below
 it, and the perspective warp of the active frame's single stroke. The layer tree is
 modelled as the sequence of sibling nodes around the active layer; the projective
 map the warp applies is a parameter.
 */
module GreasePencil {
  import opened OperatorStatus

  datatype Option<T> = None | Some(value: T)

  // ---------------------------------------------------------------------------
  // Mask with layer above/below
  // ---------------------------------------------------------------------------

  datatype Mode = Above | Below

  /** A grease-pencil layer; the operator changes its mask list and its use-masks flag. */
  class Layer {
    const name: string
    var maskLayers: seq<string>
    var useMasks: bool

    constructor (name: string, maskLayers: seq<string>, useMasks: bool)
      ensures this.name == name && this.maskLayers == maskLayers && this.useMasks == useMasks
    {
      this.name := name;
      this.maskLayers := maskLayers;
      this.useMasks := useMasks;
    }
  }

  /** A node of the layer tree: a layer, or something else (a layer group). */
  datatype TreeNode = LayerNode(layer: Layer) | GroupNode(name: string)

  /** The node next to the active one on the side the mode names: the next node for ABOVE, the previous for BELOW. */
  function Neighbour(nodes: seq<TreeNode>, active: nat, mode: Mode): (r: Option<TreeNode>)
    requires active < |nodes|
    ensures r.Some? ==> r.value in nodes
    ensures mode == Above ==> (r.Some? <==> active + 1 < |nodes|) && (r.Some? ==> r.value == nodes[active + 1])
    ensures mode == Below ==> (r.Some? <==> 0 < active) && (r.Some? ==> r.value == nodes[active - 1])
  {
    match mode
    case Above => if active + 1 < |nodes| then Some(nodes[active + 1]) else None
    case Below => if 0 < active then Some(nodes[active - 1]) else None
  }

  datatype Decision = NoLayerFound | AlreadyMask | AddMask(name: string)

  /** What the operator does with the neighbour, given the active layer's current masks. */
  function Decide(neighbour: Option<TreeNode>, masks: seq<string>): (d: Decision)
    ensures d == NoLayerFound <==> neighbour.None? || neighbour.value.GroupNode?
    ensures d == AlreadyMask <==>
      neighbour.Some? && neighbour.value.LayerNode? && neighbour.value.layer.name in masks
    ensures d.AddMask? ==>
      neighbour.Some? && neighbour.value.LayerNode? &&
      d.name == neighbour.value.layer.name && d.name !in masks
  {
    if neighbour.None? || !neighbour.value.LayerNode? then NoLayerFound
    else if neighbour.value.layer.name in masks then AlreadyMask
    else AddMask(neighbour.value.layer.name)
  }

  predicate NoDuplicates(ss: seq<string>) {
    forall i, j :: 0 <= i < j < |ss| ==> ss[i] != ss[j]
  }

  /** A mask list without duplicates stays without duplicates after a successful addition. */
  lemma AddMaskKeepsNoDuplicates(neighbour: Option<TreeNode>, masks: seq<string>)
    requires NoDuplicates(masks) && Decide(neighbour, masks).AddMask?
    ensures NoDuplicates(masks + [Decide(neighbour, masks).name])
  {
  }

  /** Running the operator again right after a success is refused, and changes nothing. */
  lemma AddMaskTwice(neighbour: Option<TreeNode>, masks: seq<string>)
    requires Decide(neighbour, masks).AddMask?
    ensures Decide(neighbour, masks + [Decide(neighbour, masks).name]) == AlreadyMask
  {
  }

  /**
   GREASE_PENCIL_OT_relative_layer_mask_add.execute. The host operator that appends
   the mask entry is modelled by its effect on the active layer's mask list.
   */
  method RelativeLayerMaskAdd(nodes: seq<TreeNode>, active: nat, mode: Mode) returns (status: Status)
    requires active < |nodes| && nodes[active].LayerNode?
    modifies nodes[active].layer
    ensures var d := Decide(Neighbour(nodes, active, mode), old(nodes[active].layer.maskLayers));
      (d.AddMask? ==>
        status == Finished &&
        nodes[active].layer.maskLayers == old(nodes[active].layer.maskLayers) + [d.name] &&
        nodes[active].layer.useMasks) &&
      (!d.AddMask? ==>
        status == Cancelled &&
        nodes[active].layer.maskLayers == old(nodes[active].layer.maskLayers) &&
        nodes[active].layer.useMasks == old(nodes[active].layer.useMasks))
  {
    var activeLayer := nodes[active].layer;
    var masking := Neighbour(nodes, active, mode);
    if masking.None? || !masking.value.LayerNode? {
      return Cancelled;
    }
    if masking.value.layer.name in activeLayer.maskLayers {
      return Cancelled;
    }
    activeLayer.maskLayers := activeLayer.maskLayers + [masking.value.layer.name];
    activeLayer.useMasks := true;
    return Finished;
  }

  // ---------------------------------------------------------------------------
  // Perspective warp
  // ---------------------------------------------------------------------------

  /** A stroke point's position. */
  datatype Co = Co(x: real, y: real, z: real)

  /** A position in the stroke's x-y plane. */
  datatype Coord2 = Coord2(x: real, y: real)

  datatype Axis = X | Y

  /** A stroke whose points the warp rewrites in place. */
  class GPStroke {
    var points: seq<Co>

    constructor (points: seq<Co>)
      ensures this.points == points
    {
      this.points := points;
    }
  }

  /** An empty object placed at a box corner for the user to drag. */
  class Handle {
    var location: Co

    constructor (location: Co)
      ensures this.location == location
    {
      this.location := location;
    }
  }

  function Coordinate(p: Co, a: Axis): real {
    match a
    case X => p.x
    case Y => p.y
  }

  /** `min(p.co.x for p in points)` and its y counterpart. */
  function Least(ps: seq<Co>, a: Axis): (m: real)
    requires ps != []
    ensures forall i :: 0 <= i < |ps| ==> m <= Coordinate(ps[i], a)
    ensures exists i :: 0 <= i < |ps| && Coordinate(ps[i], a) == m
  {
    if |ps| == 1 then Coordinate(ps[0], a)
    else
      var rest := Least(ps[1..], a);
      var k :| 0 <= k < |ps| - 1 && Coordinate(ps[1..][k], a) == rest;
      assert Coordinate(ps[k + 1], a) == rest;
      if Coordinate(ps[0], a) <= rest then Coordinate(ps[0], a) else rest
  }

  /** `max(p.co.x for p in points)` and its y counterpart. */
  function Greatest(ps: seq<Co>, a: Axis): (m: real)
    requires ps != []
    ensures forall i :: 0 <= i < |ps| ==> Coordinate(ps[i], a) <= m
    ensures exists i :: 0 <= i < |ps| && Coordinate(ps[i], a) == m
  {
    if |ps| == 1 then Coordinate(ps[0], a)
    else
      var rest := Greatest(ps[1..], a);
      var k :| 0 <= k < |ps| - 1 && Coordinate(ps[1..][k], a) == rest;
      assert Coordinate(ps[k + 1], a) == rest;
      if rest <= Coordinate(ps[0], a) then Coordinate(ps[0], a) else rest
  }

  /**
   The source box of the warp: corners (min x, min y), (max x, min y), (max x, max y),
   (min x, max y), in that order. Every point lies inside it, and every side touches a point.
   */
  function BoundingBox(ps: seq<Co>): (box: seq<Coord2>)
    requires ps != []
    ensures |box| == 4
    ensures box[1] == Coord2(box[2].x, box[0].y) && box[3] == Coord2(box[0].x, box[2].y)
    ensures forall i :: 0 <= i < |ps| ==>
      box[0].x <= ps[i].x <= box[2].x && box[0].y <= ps[i].y <= box[2].y
    ensures exists i :: 0 <= i < |ps| && ps[i].x == box[0].x
    ensures exists i :: 0 <= i < |ps| && ps[i].x == box[2].x
    ensures exists i :: 0 <= i < |ps| && ps[i].y == box[0].y
    ensures exists i :: 0 <= i < |ps| && ps[i].y == box[2].y
  {
    var minX, maxX := Least(ps, X), Greatest(ps, X);
    var minY, maxY := Least(ps, Y), Greatest(ps, Y);
    [Coord2(minX, minY), Coord2(maxX, minY), Coord2(maxX, maxY), Coord2(minX, maxY)]
  }

  /** No smaller axis-aligned box holds every point: the bounding box is the tightest one. */
  lemma BoundingBoxIsTightest(ps: seq<Co>, lo: Coord2, hi: Coord2)
    requires ps != []
    requires forall i :: 0 <= i < |ps| ==> lo.x <= ps[i].x <= hi.x && lo.y <= ps[i].y <= hi.y
    ensures var box := BoundingBox(ps);
      lo.x <= box[0].x && box[2].x <= hi.x && lo.y <= box[0].y && box[2].y <= hi.y
  {
  }

  /** The stroke invoke works on: the active frame's only stroke, if it has exactly one. */
  function StrokeToWarp(frame: Option<seq<GPStroke>>): (r: Option<GPStroke>)
    ensures r.Some? <==> frame.Some? && |frame.value| == 1
    ensures r.Some? ==> r.value == frame.value[0]
  {
    if frame.None? || |frame.value| == 0 then None
    else if |frame.value| > 1 then None
    else Some(frame.value[0])
  }

  /** A point moved by the planar map `warp`; its z coordinate is kept. */
  function WarpPoint(p: Co, warp: Coord2 -> Coord2): (q: Co)
    ensures q.z == p.z && Coord2(q.x, q.y) == warp(Coord2(p.x, p.y))
  {
    var w := warp(Coord2(p.x, p.y));
    Co(w.x, w.y, p.z)
  }

  /** `after` is `before` with every point moved by `warp`, in the same order. */
  ghost predicate WarpedFrom(after: seq<Co>, before: seq<Co>, warp: Coord2 -> Coord2) {
    |after| == |before| && forall i :: 0 <= i < |before| ==> after[i] == WarpPoint(before[i], warp)
  }

  datatype WarpKey = Ret | NumpadEnter | Esc | OtherKey

  /** How a callback ends: it returns a status, or an exception escapes it. */
  datatype Outcome = Returned(status: Status) | Raised

  /** The stroke `finish` warps: the first of the active frame's strokes, if the frame has any. */
  function FirstStroke(frame: Option<seq<GPStroke>>): (r: seq<GPStroke>)
    ensures r == [] <==> frame.None? || frame.value == []
    ensures r != [] ==> r == [frame.value[0]]
  {
    if frame.None? || frame.value == [] then [] else [frame.value[0]]
  }

  /**
   GREASE_PENCIL_OT_perspective_warp. `Finish` and `Modal` receive the active frame as
   the host finds it at that moment, and the projective map `compute_matrix` builds
   from the source box to the handles' positions, or `None` when its linear solve
   raises because the system is singular.
   */
  class WarpOperator {
    var handles: Option<seq<Handle>>
    var srcBox: Option<seq<Coord2>>
    var confirm: bool

    constructor ()
      ensures handles == None && srcBox == None && !confirm
    {
      handles := None;
      srcBox := None;
      confirm := false;
    }

    /** Cancels unless the active frame holds exactly one stroke; else boxes it and places four handles. */
    method Invoke(frame: Option<seq<GPStroke>>) returns (status: Status)
      requires frame.Some? && |frame.value| == 1 ==> frame.value[0].points != []
      modifies this
      ensures confirm == old(confirm)
      ensures StrokeToWarp(frame).None? ==>
        status == Cancelled && handles == old(handles) && srcBox == old(srcBox)
      ensures StrokeToWarp(frame).Some? ==>
        status == RunningModal &&
        srcBox == Some(BoundingBox(frame.value[0].points)) &&
        handles.Some? && |handles.value| == 4 &&
        (forall i :: 0 <= i < 4 ==>
          fresh(handles.value[i]) &&
          handles.value[i].location == Co(srcBox.value[i].x, srcBox.value[i].y, 0.0)) &&
        (forall i, j :: 0 <= i < j < 4 ==> handles.value[i] != handles.value[j])
    {
      if frame.None? || |frame.value| == 0 {
        return Cancelled;
      }
      if |frame.value| > 1 {
        return Cancelled;
      }
      var stroke := frame.value[0];
      var box := BoundingBox(stroke.points);
      srcBox := Some(box);
      handles := Some([]);
      var i := 0;
      while i < |box|
        invariant 0 <= i <= |box| && srcBox == Some(box) && confirm == old(confirm)
        invariant handles.Some? && |handles.value| == i
        invariant forall j :: 0 <= j < i ==>
          fresh(handles.value[j]) && handles.value[j].location == Co(box[j].x, box[j].y, 0.0)
        invariant forall j, k :: 0 <= j < k < i ==> handles.value[j] != handles.value[k]
      {
        var empty := new Handle(Co(box[i].x, box[i].y, 0.0));
        handles := Some(handles.value + [empty]);
        i := i + 1;
      }
      return RunningModal;
    }

    /**
     `finish`: when confirmed, first solves for the map (`None` when the solve raises,
     on a singular system), then looks up the active frame's first stroke and rewrites
     it; either failure raises before the handles are dropped.
     */
    method Finish(frame: Option<seq<GPStroke>>, warp: Option<Coord2 -> Coord2>) returns (r: Outcome)
      requires handles.Some?
      modifies this, FirstStroke(frame)
      ensures confirm == old(confirm) && srcBox == old(srcBox)
      ensures old(confirm) && (warp.None? || FirstStroke(frame) == []) ==>
        r == Raised && handles == old(handles)
      ensures !(old(confirm) && (warp.None? || FirstStroke(frame) == [])) ==>
        r == Returned(Finished) && handles == None
      ensures old(confirm) && warp.Some? && FirstStroke(frame) != [] ==>
        WarpedFrom(frame.value[0].points, old(frame.value[0].points), warp.value)
      ensures !(old(confirm) && warp.Some?) && FirstStroke(frame) != [] ==>
        frame.value[0].points == old(frame.value[0].points)
    {
      if confirm {
        if warp.None? {
          return Raised;
        }
        if frame.None? || |frame.value| == 0 {
          return Raised;
        }
        var project := warp.value;
        var stroke := frame.value[0];
        var i := 0;
        while i < |stroke.points|
          invariant 0 <= i <= |stroke.points| == |old(stroke.points)|
          invariant forall j :: 0 <= j < i ==> stroke.points[j] == WarpPoint(old(stroke.points)[j], project)
          invariant forall j :: i <= j < |stroke.points| ==> stroke.points[j] == old(stroke.points)[j]
          invariant confirm == old(confirm) && srcBox == old(srcBox) && handles == old(handles)
        {
          stroke.points := stroke.points[i := WarpPoint(stroke.points[i], project)];
          i := i + 1;
        }
      }
      handles := None;
      return Returned(Finished);
    }

    /** Enter confirms, Esc cancels; both finish. Every other event passes through. */
    method Modal(key: WarpKey, frame: Option<seq<GPStroke>>, warp: Option<Coord2 -> Coord2>) returns (r: Outcome)
      requires key != OtherKey ==> handles.Some?
      modifies this, FirstStroke(frame)
      ensures srcBox == old(srcBox)
      ensures key == Ret || key == NumpadEnter ==>
        confirm &&
        (warp.None? || FirstStroke(frame) == [] ==> r == Raised && handles == old(handles)) &&
        (warp.Some? && FirstStroke(frame) != [] ==>
          r == Returned(Finished) && handles == None &&
          WarpedFrom(frame.value[0].points, old(frame.value[0].points), warp.value))
      ensures key == Ret || key == NumpadEnter ==>
        warp.None? && FirstStroke(frame) != [] ==> frame.value[0].points == old(frame.value[0].points)
      ensures key == Esc ==>
        !confirm && r == Returned(Finished) && handles == None &&
        (FirstStroke(frame) != [] ==> frame.value[0].points == old(frame.value[0].points))
      ensures key == OtherKey ==>
        r == Returned(PassThrough) && unchanged(this) && unchanged(FirstStroke(frame))
    {
      if key == Ret || key == NumpadEnter {
        confirm := true;
        r := Finish(frame, warp);
        return;
      }
      if key == Esc {
        confirm := false;
        r := Finish(frame, warp);
        return;
      }
      return Returned(PassThrough);
    }
  }
}
