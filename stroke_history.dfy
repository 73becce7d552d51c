/**
 Value-level view of the freehand-drawing demo: the stack of completed strokes, the
 redo stack, and where the current stroke lives. The class in ModalDraw is proved to
 follow these functions event by event; the laws of undo and redo are proved here.
 */
module StrokeHistory {
  import opened OperatorStatus

  /** A point in region (pixel) coordinates, as the host reports the mouse position. */
  datatype Point = Point(x: int, y: int)

  type Path = seq<Point>

  /**
   Where the current stroke is. `Detached(path)`: a list that is on neither stack.
   `Latest`: the very list most recently pushed by a press, which is still on one of
   the stacks, so that points added to the current stroke land in that stacked stroke.
   */
  datatype Cursor = Detached(path: Path) | Latest

  /** `strokes` and `redo` list their elements bottom first; the top is the last element. */
  datatype Canvas = Canvas(strokes: seq<Path>, redo: seq<Path>, cursor: Cursor)

  datatype EventType = LeftMouse | RightMouse | Esc | MouseMove | KeyZ | KeyY | OtherType
  datatype EventValue = Press | Release | OtherValue
  datatype Event = Event(kind: EventType, value: EventValue, mouseX: int, mouseY: int)

  datatype Reply = Reply(canvas: Canvas, status: Status)

  /** A current stroke that is on a stack needs a stack that is not empty. */
  predicate WellFormed(c: Canvas) {
    c.cursor.Latest? ==> c.strokes != [] || c.redo != []
  }

  /** The state when the script is loaded: two empty stacks and an empty current list. */
  const Initial: Canvas := Canvas([], [], Detached([]))

  function Reversed<T>(s: seq<T>): (r: seq<T>)
    ensures |r| == |s|
  {
    if s == [] then [] else Reversed(s[1..]) + [s[0]]
  }

  lemma {:induction false} ReversedAppend<T>(s: seq<T>, x: T)
    ensures Reversed(s + [x]) == [x] + Reversed(s)
  {
    if s != [] {
      assert (s + [x])[1..] == s[1..] + [x];
      ReversedAppend(s[1..], x);
    } else {
      assert s + [x] == [x];
    }
  }

  /**
   Every recorded stroke, oldest first: the undo stack bottom to top followed by the
   redo stack top to bottom. Undo and redo only move the boundary inside this sequence.
   */
  function History(c: Canvas): seq<Path> {
    c.strokes + Reversed(c.redo)
  }

  /** The points of the current stroke, wherever it lives. */
  function CurrentPath(c: Canvas): (p: Path)
    requires WellFormed(c)
    ensures c.cursor.Latest? ==> History(c) != [] && p == History(c)[|History(c)| - 1]
    ensures c.cursor.Detached? ==> p == c.cursor.path
  {
    match c.cursor
    case Detached(path) => path
    case Latest =>
      if c.redo == [] then
        assert Reversed<Path>([]) == [];
        assert History(c) == c.strokes;
        c.strokes[|c.strokes| - 1]
      else
        ReversedAppend(c.redo[1..], c.redo[0]);
        assert c.redo == [c.redo[0]] + c.redo[1..];
        assert Reversed(c.redo) == Reversed(c.redo[1..]) + [c.redo[0]];
        c.redo[0]
  }

  /** LEFTMOUSE PRESS: push a fresh empty list, make it current, forget the redo stack. */
  function BeginStroke(c: Canvas): (r: Canvas)
    ensures WellFormed(r)
    ensures r.strokes == c.strokes + [[]] && r.redo == []
    ensures r.cursor.Latest? && CurrentPath(r) == []
    ensures History(r) == c.strokes + [[]]
  {
    Canvas(c.strokes + [[]], [], Latest)
  }

  /** LEFTMOUSE RELEASE: the current stroke becomes a fresh list on neither stack. */
  function EndStroke(c: Canvas): (r: Canvas)
    ensures WellFormed(r)
    ensures r.strokes == c.strokes && r.redo == c.redo
    ensures r.cursor.Detached? && CurrentPath(r) == []
  {
    c.(cursor := Detached([]))
  }

  /**
   MOUSEMOVE: one point is appended to the current stroke. When that stroke is on a
   stack, it is the newest recorded stroke that grows; otherwise no stack changes.
   */
  function ExtendStroke(c: Canvas, p: Point): (r: Canvas)
    requires WellFormed(c)
    ensures WellFormed(r) && r.cursor.Latest? == c.cursor.Latest?
    ensures CurrentPath(r) == CurrentPath(c) + [p]
    ensures c.cursor.Detached? ==> r.strokes == c.strokes && r.redo == c.redo
    ensures c.cursor.Latest? && c.redo == [] ==>
      r.redo == [] && |c.strokes| > 0 &&
      r.strokes == c.strokes[..|c.strokes| - 1] + [c.strokes[|c.strokes| - 1] + [p]]
    ensures c.cursor.Latest? && c.redo != [] ==>
      r.strokes == c.strokes && r.redo == [c.redo[0] + [p]] + c.redo[1..]
    ensures c.cursor.Latest? ==>
      History(r) == History(c)[..|History(c)| - 1] + [CurrentPath(c) + [p]]
  {
    match c.cursor
    case Detached(path) => c.(cursor := Detached(path + [p]))
    case Latest =>
      if c.redo == [] then
        var n := |c.strokes|;
        var r := c.(strokes := c.strokes[..n - 1] + [c.strokes[n - 1] + [p]]);
        assert Reversed<Path>([]) == [];
        assert History(r) == r.strokes && History(c) == c.strokes;
        r
      else
        var r := c.(redo := [c.redo[0] + [p]] + c.redo[1..]);
        ReversedAppend(c.redo[1..], c.redo[0]);
        ReversedAppend(c.redo[1..], c.redo[0] + [p]);
        assert c.redo == [c.redo[0]] + c.redo[1..];
        assert r.redo[1..] == c.redo[1..];
        assert Reversed(r.redo) == Reversed(c.redo[1..]) + [c.redo[0] + [p]];
        assert Reversed(c.redo) == Reversed(c.redo[1..]) + [c.redo[0]];
        r
  }

  /** Z PRESS or the undo operator: move the top of `strokes` onto `redo`, if there is one. */
  function Undo(c: Canvas): (r: Canvas)
    ensures c.strokes == [] ==> r == c
    ensures c.strokes != [] ==>
      r.strokes == c.strokes[..|c.strokes| - 1] &&
      r.redo == c.redo + [c.strokes[|c.strokes| - 1]]
    ensures r.cursor == c.cursor
    ensures |r.strokes| + |r.redo| == |c.strokes| + |c.redo|
    ensures History(r) == History(c)
    ensures WellFormed(c) ==> WellFormed(r) && CurrentPath(r) == CurrentPath(c)
  {
    if c.strokes == [] then c
    else
      var n := |c.strokes|;
      var r := Canvas(c.strokes[..n - 1], c.redo + [c.strokes[n - 1]], c.cursor);
      ReversedAppend(c.redo, c.strokes[n - 1]);
      assert c.strokes == c.strokes[..n - 1] + [c.strokes[n - 1]];
      r
  }

  /** Y PRESS or the redo operator: move the top of `redo` back onto `strokes`, if there is one. */
  function Redo(c: Canvas): (r: Canvas)
    ensures c.redo == [] ==> r == c
    ensures c.redo != [] ==>
      r.redo == c.redo[..|c.redo| - 1] &&
      r.strokes == c.strokes + [c.redo[|c.redo| - 1]]
    ensures r.cursor == c.cursor
    ensures |r.strokes| + |r.redo| == |c.strokes| + |c.redo|
    ensures History(r) == History(c)
    ensures WellFormed(c) ==> WellFormed(r) && CurrentPath(r) == CurrentPath(c)
  {
    if c.redo == [] then c
    else
      var n := |c.redo|;
      var r := Canvas(c.strokes + [c.redo[n - 1]], c.redo[..n - 1], c.cursor);
      ReversedAppend(c.redo[..n - 1], c.redo[n - 1]);
      assert c.redo == c.redo[..n - 1] + [c.redo[n - 1]];
      r
  }

  /** True of the events that the modal handler answers with RUNNING_MODAL and nothing else. */
  predicate Ignored(ev: Event) {
    ev.kind == OtherType ||
    (ev.kind == LeftMouse && ev.value == OtherValue) ||
    ((ev.kind == KeyZ || ev.kind == KeyY) && ev.value != Press)
  }

  /** The modal handler of the drawing operator: one event in, the new state and a status out. */
  function Modal(c: Canvas, ev: Event): (r: Reply)
    requires WellFormed(c)
    ensures WellFormed(r.canvas)
    ensures r.status == Cancelled <==> ev.kind == RightMouse || ev.kind == Esc
    ensures r.status != Cancelled ==> r.status == RunningModal
    ensures r.status == Cancelled ==> r.canvas == c
    ensures Ignored(ev) ==> r == Reply(c, RunningModal)
    ensures ev.kind == LeftMouse && ev.value == Press ==> r.canvas == BeginStroke(c)
    ensures ev.kind == LeftMouse && ev.value == Release ==> r.canvas == EndStroke(c)
    ensures ev.kind == MouseMove ==> r.canvas == ExtendStroke(c, Point(ev.mouseX, ev.mouseY))
    ensures ev.kind == KeyZ && ev.value == Press ==> r.canvas == Undo(c)
    ensures ev.kind == KeyY && ev.value == Press ==> r.canvas == Redo(c)
  {
    if ev.kind == RightMouse || ev.kind == Esc then Reply(c, Cancelled)
    else if ev.kind == LeftMouse then
      if ev.value == Press then Reply(BeginStroke(c), RunningModal)
      else if ev.value == Release then Reply(EndStroke(c), RunningModal)
      else Reply(c, RunningModal)
    else if ev.kind == MouseMove then Reply(ExtendStroke(c, Point(ev.mouseX, ev.mouseY)), RunningModal)
    else if ev.kind == KeyZ && ev.value == Press then Reply(Undo(c), RunningModal)
    else if ev.kind == KeyY && ev.value == Press then Reply(Redo(c), RunningModal)
    else Reply(c, RunningModal)
  }

  /** A run of MOUSEMOVE events, one point each, in order. */
  function ExtendAll(c: Canvas, ps: seq<Point>): (r: Canvas)
    requires WellFormed(c)
    ensures WellFormed(r) && r.cursor.Latest? == c.cursor.Latest?
    ensures CurrentPath(r) == CurrentPath(c) + ps
    ensures c.cursor.Latest? ==>
      History(r) == History(c)[..|History(c)| - 1] + [CurrentPath(c) + ps]
    decreases |ps|
  {
    if ps == [] then
      assert CurrentPath(c) + ps == CurrentPath(c);
      assert c.cursor.Latest? ==> History(c) == History(c)[..|History(c)| - 1] + [CurrentPath(c)];
      c
    else
      var next := ExtendStroke(c, ps[0]);
      var r := ExtendAll(next, ps[1..]);
      assert CurrentPath(c) + [ps[0]] + ps[1..] == CurrentPath(c) + ps;
      assert c.cursor.Latest? ==> History(next)[..|History(next)| - 1] == History(c)[..|History(c)| - 1];
      r
  }

  /**
   Undoing in the middle of a stroke puts the current stroke at the bottom of the redo
   stack; later moves keep growing it there, and `strokes` is left alone.
   */
  lemma {:induction false} ExtendUndone(c: Canvas, ps: seq<Point>)
    requires c.cursor.Latest? && c.redo != []
    ensures ExtendAll(c, ps).strokes == c.strokes
    ensures ExtendAll(c, ps).redo == [c.redo[0] + ps] + c.redo[1..]
    decreases |ps|
  {
    if ps == [] {
      assert c.redo[0] + ps == c.redo[0];
      assert c.redo == [c.redo[0]] + c.redo[1..];
    } else {
      var next := ExtendStroke(c, ps[0]);
      assert ExtendAll(c, ps) == ExtendAll(next, ps[1..]);
      var grown := [c.redo[0] + [ps[0]]] + c.redo[1..];
      assert next == Canvas(c.strokes, grown, Latest);
      assert grown[0] == c.redo[0] + [ps[0]] && grown[1..] == c.redo[1..];
      ExtendUndone(next, ps[1..]);
      assert c.redo[0] + [ps[0]] + ps[1..] == c.redo[0] + ps;
    }
  }

  /** Undo followed by redo restores both stacks exactly. */
  lemma UndoThenRedo(c: Canvas)
    requires c.strokes != []
    ensures Redo(Undo(c)) == c
  {
  }

  /** Redo followed by undo restores both stacks exactly. */
  lemma RedoThenUndo(c: Canvas)
    requires c.redo != []
    ensures Undo(Redo(c)) == c
  {
  }

  /** Once the current stroke is detached, any number of moves leaves both stacks alone. */
  lemma {:induction false} ExtendDetached(strokes: seq<Path>, redo: seq<Path>, path: Path, ps: seq<Point>)
    ensures ExtendAll(Canvas(strokes, redo, Detached(path)), ps) == Canvas(strokes, redo, Detached(path + ps))
    decreases |ps|
  {
    if ps == [] {
      assert path + ps == path;
    } else {
      assert path + [ps[0]] + ps[1..] == path + ps;
      ExtendDetached(strokes, redo, path + [ps[0]], ps[1..]);
    }
  }

  /** While the current stroke is the top of `strokes`, moves grow exactly that stroke. */
  lemma {:induction false} ExtendTop(below: seq<Path>, path: Path, ps: seq<Point>)
    ensures ExtendAll(Canvas(below + [path], [], Latest), ps) == Canvas(below + [path + ps], [], Latest)
    decreases |ps|
  {
    if ps == [] {
      assert path + ps == path;
    } else {
      var c := Canvas(below + [path], [], Latest);
      assert (below + [path])[..|below|] == below;
      assert ExtendStroke(c, ps[0]) == Canvas(below + [path + [ps[0]]], [], Latest);
      assert path + [ps[0]] + ps[1..] == path + ps;
      ExtendTop(below, path + [ps[0]], ps[1..]);
    }
  }

  /**
   A whole gesture (press, the moves, release) records exactly one new stroke holding
   the moved points, on top of the old strokes, and empties the redo stack; moves
   after the release change no stack.
   */
  lemma Gesture(c: Canvas, ps: seq<Point>, later: seq<Point>)
    ensures var drawn := EndStroke(ExtendAll(BeginStroke(c), ps));
      drawn.strokes == c.strokes + [ps] && drawn.redo == [] &&
      ExtendAll(drawn, later) == Canvas(c.strokes + [ps], [], Detached(later))
  {
    ExtendTop(c.strokes, [], ps);
    assert [] + ps == ps;
    ExtendDetached(c.strokes + [ps], [], [], later);
    assert [] + later == later;
  }

  /** Strokes the draw callback renders from the stack: those with at least two points, in stack order. */
  function Visible(ss: seq<Path>): (r: seq<Path>)
    ensures forall p :: p in r <==> p in ss && |p| >= 2
    ensures |r| <= |ss|
  {
    if ss == [] then []
    else (if |ss[0]| >= 2 then [ss[0]] else []) + Visible(ss[1..])
  }

  lemma {:induction false} VisibleConcat(a: seq<Path>, b: seq<Path>)
    ensures Visible(a + b) == Visible(a) + Visible(b)
  {
    if a == [] {
      assert a + b == b;
    } else {
      assert (a + b)[0] == a[0];
      assert (a + b)[1..] == a[1..] + b;
      VisibleConcat(a[1..], b);
    }
  }

  /** Visible drops nothing, and reorders nothing, when every stroke has two points or more. */
  lemma {:induction false} VisibleKeepsLong(ss: seq<Path>)
    requires forall i :: 0 <= i < |ss| ==> |ss[i]| >= 2
    ensures Visible(ss) == ss
  {
    if ss != [] {
      VisibleKeepsLong(ss[1..]);
    }
  }

  /**
   Everything the draw callback renders, in drawing order: the visible stacked strokes,
   then the current stroke when it has any point.
   */
  function Drawn(c: Canvas): (r: seq<Path>)
    requires WellFormed(c)
    ensures forall p :: p in r <==> (p in c.strokes && |p| >= 2) || (p != [] && p == CurrentPath(c))
    ensures CurrentPath(c) == [] ==> r == Visible(c.strokes)
  {
    Visible(c.strokes) + (if CurrentPath(c) != [] then [CurrentPath(c)] else [])
  }

  /**
   The list that replaces the current stroke on release keeps collecting points from
   later moves, with no button pressed, and the draw callback renders it.
   */
  lemma DetachedMovesDrawn(c: Canvas, ps: seq<Point>)
    requires ps != []
    ensures ps in Drawn(ExtendAll(EndStroke(c), ps))
    ensures ExtendAll(EndStroke(c), ps).strokes == c.strokes
  {
    ExtendDetached(c.strokes, c.redo, [], ps);
    assert [] + ps == ps;
  }

  /** Undo hides no stroke but the one it moves, and redo brings it back into view. */
  lemma UndoHidesTop(c: Canvas)
    requires c.strokes != []
    ensures Visible(c.strokes) == Visible(Undo(c).strokes) + Visible([c.strokes[|c.strokes| - 1]])
    ensures Visible(Redo(Undo(c)).strokes) == Visible(c.strokes)
  {
    UndoThenRedo(c);
    var n := |c.strokes|;
    assert c.strokes == c.strokes[..n - 1] + [c.strokes[n - 1]];
    VisibleConcat(c.strokes[..n - 1], [c.strokes[n - 1]]);
  }

  /**
   A current stroke that is the top of `strokes` and has two or more points is drawn
   twice: once from the stack and once as the current stroke.
   */
  lemma DrawnTwice(s: seq<Path>, p: Path)
    requires |p| >= 2
    ensures Drawn(Canvas(s + [p], [], Latest)) == Visible(s) + [p, p]
  {
    VisibleConcat(s, [p]);
  }
}
