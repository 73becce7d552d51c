# Stroke undo/redo and grease-pencil operator logic, in Dafny

This project models the parts of two Blender Python scripts that do not depend on the host application.

- **Freehand-drawing template** (`scripts/templates_py/operator_modal_draw.py`). The script keeps three module globals: a stack of completed strokes, a redo stack and the current stroke. The modal operator updates them on each input event; two extra operators undo and redo a stroke; the draw callback picks which strokes to draw.
  - `ModalDraw.StrokeStore` holds the three globals as fields, and each stroke is a `Stroke` object. After LEFTMOUSE PRESS the current stroke is the very object on top of the stack, so later MOUSEMOVE points grow the stacked stroke. After RELEASE it is a fresh object on neither stack.
  - `StrokeStore.Valid()` states where the current stroke can be. It is either on no stack, or on top of `strokes` while nothing is undone, or at the bottom of the redo stack.
  - `StrokeHistory` is the same state as values. Its `Cursor` says whether the current stroke is detached or is the latest recorded stroke. Every `StrokeStore` method is proved to follow the matching `StrokeHistory` function.
  - The laws are proved on those functions: undo and redo are inverses, both keep the recorded history (the undo stack followed by the reversed redo stack), a new stroke clears the redo stack, the draw selection is a filter in stack order, and more.
- **Grease-pencil operators** (`scripts/startup/bl_operators/grease_pencil.py`).
  - *Mask with layer above/below*: pick the sibling node after (ABOVE) or before (BELOW) the active layer. Refuse when there is none, when it is not a layer, or when it already masks the layer. Otherwise append its name to the active layer's masks and turn masking on.
  - *Perspective warp*: `invoke` cancels unless the active frame holds exactly one stroke. It then computes the stroke's bounding box (four corners in a fixed order) and creates one handle per corner. `modal` confirms on RET or NUMPAD_ENTER, cancels on ESC and lets every other event pass through. `finish` looks up the active frame again. When confirmed it first solves for the projective map, then rewrites the points of that frame's first stroke. It raises, and leaves the handles in place, if the linear solve fails on a singular system or if the frame is gone or has no stroke. Unconfirmed, it leaves every point unchanged. Every run that does not raise drops the handles.

Some host interactions become parameters:
- Mouse events are values of `StrokeHistory.Event`.
- The active layer is an index into a sequence of sibling `TreeNode`s, and `poll`'s check for an active layer is a `requires`.
- The active frame is an optional sequence of strokes, passed to `invoke` and again to `modal`/`finish`, as it stands at each call.
- An exception escaping a callback is the outcome `Raised`.
- The projective map that `compute_matrix` solves for is a parameter `warp` of `Finish` and `Modal`. It is `None` when `np.linalg.solve` raises on a singular system, for example for a one-point stroke at the origin, where every coefficient in the x and y columns is zero.
- The host operator `grease_pencil.layer_mask_add` is modelled by its effect: the name is appended to the active layer's mask list.

Behaviour of the code as written that the model keeps:
- `current_stroke` is never `None`, so the MOUSEMOVE branch always runs.
- After RELEASE, and from start-up, mouse moves with no button pressed build up points in the detached current list, and the draw callback draws that list (`StrokeHistory.DetachedMovesDrawn`).
- Undoing while a stroke is being drawn moves that stroke to the bottom of the redo stack, and later moves keep extending it there (`StrokeHistory.ExtendUndone`).
- A current stroke on top of the stack with two or more points is drawn twice (`StrokeHistory.DrawnTwice`).
- The stroke `finish` warps is whatever the active frame's first stroke is at that moment, which need not be the stroke `invoke` boxed.

## Model

| member | source | states |
|---|---|---|
| `StrokeHistory.CurrentPath` | scripts/templates_py/operator_modal_draw.py:47-48 | a current stroke that is on a stack is the newest entry of the recorded history; a detached one is its own list |
| `StrokeHistory.BeginStroke` | scripts/templates_py/operator_modal_draw.py:45-49 | press pushes one empty stroke on top of the old strokes, makes it current and empties the redo stack |
| `StrokeHistory.EndStroke` | scripts/templates_py/operator_modal_draw.py:50-51 | release leaves both stacks as they were and detaches the current stroke, which is then empty |
| `StrokeHistory.ExtendStroke` | scripts/templates_py/operator_modal_draw.py:54-56 | a move appends exactly that point to the current stroke; if it is stacked, only the newest recorded stroke grows (the top of `strokes`, or the bottom of the redo stack); if detached, no stack changes |
| `StrokeHistory.Undo` | scripts/templates_py/operator_modal_draw.py:58-61 | the top of `strokes` moves to the top of the redo stack; a no-op on an empty stack; the stroke count and the recorded history are kept |
| `StrokeHistory.Redo` | scripts/templates_py/operator_modal_draw.py:63-66 | the top of the redo stack moves back on top of `strokes`; a no-op on an empty redo stack; the stroke count and the recorded history are kept |
| `StrokeHistory.Modal` | scripts/templates_py/operator_modal_draw.py:37-68 | CANCELLED exactly on RIGHTMOUSE or ESC, with no state change; otherwise RUNNING_MODAL; each handled event applies its transition; every other event changes nothing |
| `StrokeHistory.ExtendAll` | scripts/templates_py/operator_modal_draw.py:54-56 | a run of moves appends exactly those points to the current stroke wherever it lives, keeps it stacked or detached, and when stacked only the newest recorded stroke changes |
| `StrokeHistory.ExtendUndone` | scripts/templates_py/operator_modal_draw.py:54-61 | after an undo in the middle of a stroke, later moves grow that stroke at the bottom of the redo stack and leave `strokes` alone |
| `StrokeHistory.UndoThenRedo` | scripts/templates_py/operator_modal_draw.py:58-66 | undo then redo restores both stacks exactly |
| `StrokeHistory.RedoThenUndo` | scripts/templates_py/operator_modal_draw.py:58-66 | redo then undo restores both stacks exactly |
| `StrokeHistory.ExtendDetached` | scripts/templates_py/operator_modal_draw.py:50-56 | once the current stroke is detached, any run of moves changes neither stack |
| `StrokeHistory.ExtendTop` | scripts/templates_py/operator_modal_draw.py:45-56 | while the current stroke is the top of `strokes`, a run of moves appends exactly those points to that stroke |
| `StrokeHistory.Gesture` | scripts/templates_py/operator_modal_draw.py:45-56 | press, moves, release records one new stroke holding exactly the moved points and empties the redo stack; moves after that leave the stacks alone |
| `StrokeHistory.Visible` | scripts/templates_py/operator_modal_draw.py:19-22 | the strokes drawn from the stack are exactly those with at least two points |
| `StrokeHistory.VisibleConcat` | scripts/templates_py/operator_modal_draw.py:19-22 | the selection keeps stack order: it distributes over concatenation |
| `StrokeHistory.VisibleKeepsLong` | scripts/templates_py/operator_modal_draw.py:19-22 | when every stroke has two or more points, all are drawn in stack order |
| `StrokeHistory.Drawn` | scripts/templates_py/operator_modal_draw.py:19-26 | what is drawn is the stacked strokes with at least two points plus the current stroke when it is non-empty |
| `StrokeHistory.UndoHidesTop` | scripts/templates_py/operator_modal_draw.py:19-22 | after an undo the drawn stack strokes are the old ones without the undone stroke, and a redo brings back exactly the old drawn strokes |
| `StrokeHistory.DetachedMovesDrawn` | scripts/templates_py/operator_modal_draw.py:24-26 | moves after a release build up in the detached current list, which is drawn, while the stack stays unchanged |
| `StrokeHistory.DrawnTwice` | scripts/templates_py/operator_modal_draw.py:19-26 | a current stroke on top of `strokes` with at least two points is drawn twice, after the other visible strokes |
| `ModalDraw.StrokeStore.View` | scripts/templates_py/operator_modal_draw.py:7-9 | the three globals read as a well-formed value state whose current path is the current stroke's list |
| `ModalDraw.StrokeStore.constructor` | scripts/templates_py/operator_modal_draw.py:7-9 | load time: two empty stacks and an empty current list on neither |
| `ModalDraw.StrokeStore.PressLeft` | scripts/templates_py/operator_modal_draw.py:45-49 | a fresh empty stroke is pushed and becomes current through the same object; the redo stack is emptied |
| `ModalDraw.StrokeStore.ReleaseLeft` | scripts/templates_py/operator_modal_draw.py:50-51 | the current stroke becomes a fresh empty object; the stacks are unchanged |
| `ModalDraw.StrokeStore.MouseMove` | scripts/templates_py/operator_modal_draw.py:54-56 | appends the point to the current object, which grows the top of `strokes` when current is stacked there, and changes no stroke when detached |
| `ModalDraw.StrokeStore.Undo` | scripts/templates_py/operator_modal_draw.py:58-61 | pops the top stroke object and pushes it on the redo stack, or does nothing when there is none |
| `ModalDraw.StrokeStore.Redo` | scripts/templates_py/operator_modal_draw.py:63-66 | pops the top redo object and pushes it back on `strokes`, or does nothing when there is none |
| `ModalDraw.StrokeStore.Modal` | scripts/templates_py/operator_modal_draw.py:37-68 | the new state and the status are those of `StrokeHistory.Modal` applied to the old state |
| `ModalDraw.StrokeStore.UndoOperator` | scripts/templates_py/operator_modal_draw.py:81-85 | undoes one stroke as Z does and returns FINISHED |
| `ModalDraw.StrokeStore.RedoOperator` | scripts/templates_py/operator_modal_draw.py:92-96 | redoes one stroke as Y does and returns FINISHED |
| `ModalDraw.StrokeStore.DrawnStrokes` | scripts/templates_py/operator_modal_draw.py:19-26 | the draw selection over the stroke objects equals `StrokeHistory.Drawn` of the state |
| `GreasePencil.Neighbour` | scripts/startup/bl_operators/grease_pencil.py:46-49 | ABOVE gives the next node and BELOW the previous one, and there is none past either end |
| `GreasePencil.Decide` | scripts/startup/bl_operators/grease_pencil.py:51-59 | no layer found exactly when the neighbour is missing or not a layer; already a mask exactly when its name is in the mask list; otherwise add exactly its name, which is not yet a mask |
| `GreasePencil.AddMaskKeepsNoDuplicates` | scripts/startup/bl_operators/grease_pencil.py:55-61 | a successful addition never creates a duplicate mask entry |
| `GreasePencil.AddMaskTwice` | scripts/startup/bl_operators/grease_pencil.py:55-57 | repeating a successful addition is refused as already added |
| `GreasePencil.RelativeLayerMaskAdd` | scripts/startup/bl_operators/grease_pencil.py:42-61 | on success the mask list gains exactly the neighbour's name, use_masks is set and the result is FINISHED; otherwise CANCELLED with masks and use_masks unchanged |
| `GreasePencil.Least` | scripts/startup/bl_operators/grease_pencil.py:98-101 | the minimum coordinate is at most every point's and is attained by some point |
| `GreasePencil.Greatest` | scripts/startup/bl_operators/grease_pencil.py:98-101 | the maximum coordinate is at least every point's and is attained by some point |
| `GreasePencil.BoundingBox` | scripts/startup/bl_operators/grease_pencil.py:98-107 | four corners in the order (min_x,min_y), (max_x,min_y), (max_x,max_y), (min_x,max_y); every point lies inside and every bound is attained |
| `GreasePencil.BoundingBoxIsTightest` | scripts/startup/bl_operators/grease_pencil.py:98-107 | every axis-aligned box holding all points contains the bounding box |
| `GreasePencil.StrokeToWarp` | scripts/startup/bl_operators/grease_pencil.py:88-96 | a stroke is chosen exactly when there is an active frame with exactly one stroke, and it is that stroke |
| `GreasePencil.WarpPoint` | scripts/startup/bl_operators/grease_pencil.py:141-144 | a point's x and y are replaced by the warped position; z is kept |
| `GreasePencil.WarpOperator.constructor` | scripts/startup/bl_operators/grease_pencil.py:71-73 | no handles, no source box, not confirmed |
| `GreasePencil.WarpOperator.Invoke` | scripts/startup/bl_operators/grease_pencil.py:83-121 | CANCELLED with no change when there is no frame, no stroke or more than one; otherwise RUNNING_MODAL, the bounding box is stored, and four distinct fresh handles sit at (corner.x, corner.y, 0) in corner order |
| `GreasePencil.FirstStroke` | scripts/startup/bl_operators/grease_pencil.py:135-140 | the stroke `finish` would warp exists exactly when the active frame exists and has a stroke, and it is the first one |
| `GreasePencil.WarpOperator.Finish` | scripts/startup/bl_operators/grease_pencil.py:132-149 | confirmed, with a solved map and a first stroke in the active frame: every point of it is warped, in order; confirmed when the solve fails or there is no such stroke: raises with the handles left set and no point changed; unconfirmed: no point changes; whenever it does not raise, FINISHED with the handles cleared |
| `GreasePencil.WarpOperator.Modal` | scripts/startup/bl_operators/grease_pencil.py:123-130 | RET/NUMPAD_ENTER confirms and finishes: the warp is applied, or the solve or the lookup raises with the handles kept; ESC un-confirms and finishes with the stroke unchanged; anything else is PASS_THROUGH with nothing changed; the source box is always kept |

## Left out

- GPU drawing in the draw callback: shader, blend state, line width, batches. Only the choice of what is drawn is kept.
- `ModalDrawOperator.invoke`, `draw_handler_add`/`draw_handler_remove`, `modal_handler_add`, `tag_redraw`, `register`/`unregister` and `StrokePanel`: host plumbing with no state of the model.
- `compute_matrix`, which solves an 8×8 linear system with numpy, and the homogeneous division of the warped points. These are floating-point numerics in a foreign library; the resulting map, or its absence when the solve raises, is the parameter `warp`. Which inputs make the system singular is not computed.
- `GreasePencil.WarpOperator.Finish`: does not check that the warp comes from the handles' current positions, because that relation runs through `compute_matrix`.
- Division by zero in that homogeneous step is not modelled either.
- `GreasePencil.WarpOperator.Finish`: assumes the active object and active layer still exist when it runs. If the layer is gone, the script's lookup raises on both paths before the handles are removed; the model covers only a missing frame or stroke.
- The handles' display size and display type, linking them into the collection, `view_layer.update`, and removing them from the blend data. These are host calls; the model keeps only the handle list and each handle's location.
- Report messages. Only the returned status is modelled.
- The `poll` methods, apart from the existence of an active layer, which is a precondition. The other checks read host attributes: the object type and whether it is editable.
- Coordinates are `real`. Python floats (rounding, NaN, infinities) are not modelled; min and max of finite values are exact.
- `GreasePencil.WarpOperator.Invoke` requires the single stroke to have at least one point: `min` over an empty stroke raises in the script.
- Layer groups and their children: the layer tree is a flat sequence of the active layer's siblings, and a non-layer node is only ever refused.
- Uniqueness of layer names across the whole tree is not modelled.
