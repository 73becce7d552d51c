/**
 The freehand-drawing demo operators. The script keeps three module globals, a stack
 of completed strokes, a redo stack and the current stroke; here they are the fields
 of one StrokeStore object. Each stroke is an object, so that the current stroke can
 be the very list that sits on a stack, as it is in the script after a press.
 */
module ModalDraw {
  import opened OperatorStatus
  import opened StrokeHistory

  /** One mutable list of points. */
  class Stroke {
    var points: seq<Point>

    constructor ()
      ensures points == []
    {
      points := [];
    }
  }

  /** The point lists of a sequence of strokes, element by element. */
  function Paths(ss: seq<Stroke>): (r: seq<Path>)
    reads ss
    ensures |r| == |ss| && forall i :: 0 <= i < |ss| ==> r[i] == ss[i].points
  {
    seq(|ss|, i requires 0 <= i < |ss| reads ss => ss[i].points)
  }

  /** No stroke object occurs twice. */
  predicate Distinct(ss: seq<Stroke>) {
    forall i, j :: 0 <= i < j < |ss| ==> ss[i] != ss[j]
  }

  lemma DistinctAppend(ss: seq<Stroke>, s: Stroke)
    requires Distinct(ss) && s !in ss
    ensures Distinct(ss + [s])
  {
  }

  lemma DistinctPrefix(ss: seq<Stroke>, k: nat)
    requires Distinct(ss) && k <= |ss|
    ensures Distinct(ss[..k])
  {
  }

  class StrokeStore {
    var strokes: seq<Stroke>
    var redoStack: seq<Stroke>
    var current: Stroke

    /**
     The stacks never share a stroke, and the current stroke, when it is on a stack at
     all, is the most recently started one: the top of `strokes` while nothing is
     undone, otherwise the bottom of `redoStack`.
     */
    ghost predicate Valid()
      reads this
    {
      Distinct(strokes) && Distinct(redoStack) &&
      (forall s :: s in strokes ==> s !in redoStack) &&
      (current in strokes ==> redoStack == [] && current == strokes[|strokes| - 1]) &&
      (current in redoStack ==> current == redoStack[0])
    }

    /** The state as values, with the current stroke's location made explicit. */
    ghost function View(): (c: Canvas)
      reads this, strokes, redoStack, current
      requires Valid()
      ensures WellFormed(c)
      ensures CurrentPath(c) == current.points
    {
      var c := Canvas(Paths(strokes), Paths(redoStack),
                      if current in strokes || current in redoStack then Latest else Detached(current.points));
      assert c.cursor.Latest? && c.redo == [] ==> current == strokes[|strokes| - 1];
      c
    }

    /** Module load: both stacks empty, the current stroke an empty list on neither. */
    constructor ()
      ensures Valid() && View() == Initial
      ensures fresh(current)
    {
      strokes := [];
      redoStack := [];
      current := new Stroke();
    }

    /** LEFTMOUSE PRESS. */
    method PressLeft()
      requires Valid()
      modifies this
      ensures Valid() && View() == BeginStroke(old(View()))
      ensures fresh(current) && current.points == []
      ensures strokes == old(strokes) + [current] && redoStack == []
    {
      ghost var before := View();
      current := new Stroke();
      strokes := strokes + [current];
      redoStack := [];
      assert Paths(strokes) == before.strokes + [[]];
    }

    /** LEFTMOUSE RELEASE. */
    method ReleaseLeft()
      requires Valid()
      modifies this
      ensures Valid() && View() == EndStroke(old(View()))
      ensures fresh(current) && current.points == []
      ensures strokes == old(strokes) && redoStack == old(redoStack)
    {
      current := new Stroke();
    }

    /** MOUSEMOVE: appends to the current list, which may be a stacked stroke. */
    method MouseMove(x: int, y: int)
      requires Valid()
      modifies current
      ensures Valid() && View() == ExtendStroke(old(View()), Point(x, y))
      ensures current.points == old(current.points) + [Point(x, y)]
      ensures old(current) in strokes ==>
        strokes[|strokes| - 1].points == old(strokes[|strokes| - 1].points) + [Point(x, y)]
      ensures old(current) !in strokes && old(current) !in redoStack ==>
        Paths(strokes) == old(Paths(strokes)) && Paths(redoStack) == old(Paths(redoStack))
    {
      ghost var before := View();
      current.points := current.points + [Point(x, y)];
      ghost var p := Point(x, y);
      if current in strokes {
        var n := |strokes|;
        assert forall i :: 0 <= i < n - 1 ==> strokes[i] != current;
        assert Paths(strokes) == before.strokes[..n - 1] + [before.strokes[n - 1] + [p]];
        assert Paths(redoStack) == before.redo;
      } else if current in redoStack {
        assert forall i :: 0 < i < |redoStack| ==> redoStack[i] != current;
        assert Paths(redoStack) == [before.redo[0] + [p]] + before.redo[1..];
        assert Paths(strokes) == before.strokes;
      } else {
        assert Paths(strokes) == before.strokes;
        assert Paths(redoStack) == before.redo;
      }
    }

    /** Z PRESS, and the body of the undo operator. */
    method Undo()
      requires Valid()
      modifies this
      ensures Valid() && View() == StrokeHistory.Undo(old(View()))
      ensures current == old(current)
      ensures old(strokes) == [] ==> strokes == old(strokes) && redoStack == old(redoStack)
      ensures old(strokes) != [] ==>
        strokes == old(strokes)[..|old(strokes)| - 1] &&
        redoStack == old(redoStack) + [old(strokes)[|old(strokes)| - 1]]
    {
      ghost var before := View();
      if strokes != [] {
        var n := |strokes|;
        var top := strokes[n - 1];
        assert strokes == strokes[..n - 1] + [top];
        assert top !in redoStack && top !in strokes[..n - 1];
        DistinctPrefix(strokes, n - 1);
        DistinctAppend(redoStack, top);
        strokes := strokes[..n - 1];
        redoStack := redoStack + [top];
        assert current in redoStack ==> current == redoStack[0];
        assert Paths(strokes) == before.strokes[..n - 1];
        assert Paths(redoStack) == before.redo + [before.strokes[n - 1]];
      }
    }

    /** Y PRESS, and the body of the redo operator. */
    method Redo()
      requires Valid()
      modifies this
      ensures Valid() && View() == StrokeHistory.Redo(old(View()))
      ensures current == old(current)
      ensures old(redoStack) == [] ==> strokes == old(strokes) && redoStack == old(redoStack)
      ensures old(redoStack) != [] ==>
        redoStack == old(redoStack)[..|old(redoStack)| - 1] &&
        strokes == old(strokes) + [old(redoStack)[|old(redoStack)| - 1]]
    {
      ghost var before := View();
      if redoStack != [] {
        var n := |redoStack|;
        var top := redoStack[n - 1];
        assert redoStack == redoStack[..n - 1] + [top];
        assert top !in strokes && top !in redoStack[..n - 1];
        DistinctPrefix(redoStack, n - 1);
        DistinctAppend(strokes, top);
        redoStack := redoStack[..n - 1];
        strokes := strokes + [top];
        assert Paths(redoStack) == before.redo[..n - 1];
        assert Paths(strokes) == before.strokes + [before.redo[n - 1]];
      }
    }

    /** ModalDrawOperator.modal. */
    method Modal(ev: Event) returns (status: Status)
      requires Valid()
      modifies this, current
      ensures Valid()
      ensures View() == StrokeHistory.Modal(old(View()), ev).canvas
      ensures status == StrokeHistory.Modal(old(View()), ev).status
    {
      if ev.kind == RightMouse || ev.kind == Esc {
        return Cancelled;
      }
      if ev.kind == LeftMouse {
        if ev.value == Press {
          PressLeft();
        } else if ev.value == Release {
          ReleaseLeft();
        }
        return RunningModal;
      }
      if ev.kind.MouseMove? {
        MouseMove(ev.mouseX, ev.mouseY);
        return RunningModal;
      }
      if ev.kind == KeyZ && ev.value == Press {
        Undo();
        return RunningModal;
      }
      if ev.kind == KeyY && ev.value == Press {
        Redo();
        return RunningModal;
      }
      return RunningModal;
    }

    /** StrokeUndo.execute. */
    method UndoOperator() returns (status: Status)
      requires Valid()
      modifies this
      ensures Valid() && View() == StrokeHistory.Undo(old(View()))
      ensures status == Finished
    {
      Undo();
      status := Finished;
    }

    /** StrokeRedo.execute. */
    method RedoOperator() returns (status: Status)
      requires Valid()
      modifies this
      ensures Valid() && View() == StrokeHistory.Redo(old(View()))
      ensures status == Finished
    {
      Redo();
      status := Finished;
    }

    /** The point lists draw_callback_px renders, in drawing order. */
    function DrawnStrokes(): (r: seq<Path>)
      reads this, strokes, redoStack, current
      requires Valid()
      ensures r == Drawn(View())
    {
      Visible(Paths(strokes)) + (if current.points != [] then [current.points] else [])
    }
  }
}
