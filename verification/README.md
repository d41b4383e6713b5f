# boba: router, layout box and cursor list

This project is a Dafny model of the three state machines in the Go package
`boba`, a composition layer over the bubbletea model-update-view runtime:

- **Router** (`App`, `app.go`, module `Router` in `router.dfy`). It is a
  registry of named child models. One of them is focused. A delegate hook can
  intercept messages, and a fallback start-up command is used while nothing is
  focused. `Update` is a strict priority dispatcher:
  1. no focus: nothing happens;
  2. the interrupt key (`ctrl+c`): quit;
  3. a `MessageStateChange`: refocus;
  4. a delegate command: returned as is;
  5. otherwise: the message goes to the focused model, and its result is
     stored under the focused name.
- **Layout box** (`Box`/`BoxNode`, `box.go`, module `Layout` in
  `layout.dfy`). Each node is a child model with width and height fractions of
  the box. The box is itself a fraction of the window. A window resize sets the
  box size and sends each node its own rectangle. Any other message is
  forwarded to every node. Rendering returns empty text while the box has
  nodes and a zero side.
- **Cursor list** (`List`, `list.go`, module `CursorList` in
  `cursor_list.dfy`). It is a cursor over a sequence of items. It handles the
  keys up/`k`, down/`j`, enter and quit. Items can be appended or cleared. The
  view draws one line per item, and the cursor's line carries a `"> "` marker.

Module `Tea` (`tea.dfy`) holds the runtime vocabulary. `Msg` has key presses
(identified by their textual form), window sizes, focus requests and
application messages. `Cmd` has quit, emit-a-message and opaque commands.
`Panel<M>` is a record of the three pure functions a child model of state type
`M` offers: `init`, `update`, `view`.

Child models are values, not pointers. A child step returns the model that
replaces the old one, and the step functions are parameters, so nothing is
assumed about them. Go's `float64` fractions are exact `real`s here. Go's
float-to-int conversion is modelled as truncation toward zero (`Layout.Trunc`).
`tea.Batch(cmds...)` is kept as the sequence of its entries (`seq<Option<Cmd>>`,
where `None` is Go's `nil`).

Behaviour of the code worth knowing, all modelled as written:
- Without focus, even `ctrl+c` is a no-op (app.go:68-70).
- `Box.Update` discards the node that `BoxNode.Update` builds (box.go:111,
  box.go:152), so a node's `Model` field is never replaced. A model that
  changes in place through a pointer still changes in Go; see the pointer
  aliasing line under "Left out".
- `BoxNode.Init` returns nil (box.go:27-29), so `Box.Init` starts no child.
- Sizes are computed without subtracting frame overhead and without clamping
  at zero (box.go:103-104, box.go:129-130).

## Model

| member | source | states |
|---|---|---|
| Router.NewApp | app.go:21-27 | A new app has no models and no focus. Its fallback init yields no command, and its delegate never intercepts. |
| Router.Add | app.go:35-41 | Inserts or overwrites exactly one key. Every other key and value is kept. Focus is untouched and the focus invariant is preserved. |
| Router.SetFocus | app.go:43-46 | Sets the focused name. The focused model is the registered one, or absent exactly when the name is unregistered. The focus invariant holds afterwards. |
| Router.SetInit | app.go:52-54 | Replaces only the fallback initializer. |
| Router.SetDelegate | app.go:56-58 | Replaces only the delegate. |
| Router.Init | app.go:60-65 | Returns the fallback's command when unfocused, and the focused model's start-up command otherwise. |
| Router.View | app.go:99-105 | Returns empty text when unfocused, and the focused model's view otherwise. |
| Router.Update | app.go:67-97 | Priority dispatch. Unfocused: no-op for every message. Interrupt key: `Quit`, state unchanged. Focus request: refocus with no command. Delegate command: returned, state unchanged. Otherwise only the focused name's entry is replaced, by the model's result, and `current` stays stale. Focus moves only on a focus request. The focus invariant and the key set are preserved. |
| Router.UnfocusedIsInert | app.go:67-70 | An unfocused app is unchanged by any message sequence. |
| Router.UnregisteredFocusFreezes | app.go:43-46 | Focusing an unregistered name makes every later message sequence a no-op. |
| Router.RunKeepsFocusValid | app.go:35-46 | Over any message sequence, a focused app's name stays registered, and the set of registered names never changes. |
| Router.FocusStableWithoutStateChange | app.go:74-96 | A message sequence with no focus request leaves the focused name and model unchanged. |
| Router.ChangeState | app.go:29-33 | The command emits a focus request for exactly the given name. |
| Router.ChangeStateRefocuses | app.go:29-33 | The message a `ChangeState(name)` command emits refocuses a focused app on `name`, with no command. |
| Router.ReservedMessagesSkipDelegateAndModel | app.go:76-85 | For the interrupt key and focus requests, the outcome does not depend on the delegate or on the child model's behaviour. |
| Router.AddThenFocus | app.go:35-46 | Focusing after registering picks up the new model. Registering after focusing does not refresh the focused model. |
| Router.InitAndViewFollowFocus | app.go:60-65 | After `SetFocus(name)`, start-up and view come from the model under `name`, or fall back to the initializer and empty text if `name` is unregistered. |
| Layout.Fraction | box.go:64-65 | A percentage becomes the fraction p/100, which lies in [0,1] for percentages 0..100. |
| Layout.Trunc | box.go:103-104 | Float-to-int conversion truncates toward zero: floor for non-negative values, ceiling for negative ones. |
| Layout.ScaleBounds | box.go:103-104 | A fraction in [0,1] of a non-negative dimension lies between 0 and that dimension. |
| Layout.NewBox | box.go:61-69 | A fresh box has no nodes, zero width and height, and is not ready. Its first percentage sets the height fraction and the second sets the width fraction. |
| Layout.AddNode | box.go:71-80 | Appends exactly one node with the default style, width fraction w/100 and height fraction h/100. Earlier nodes and every other field are kept. |
| Layout.AddNodeWithStyle | box.go:82-90 | Same as `AddNode`, with the given style and the height percentage first. |
| Layout.Init | box.go:92-99 | The start-up batch has one absent command per node, because `BoxNode.Init` returns nil and so no child is started. |
| Layout.NodeSize | box.go:101-107 | A node's rectangle is the truncated box size times its fractions; with a non-negative box side and a fraction in [0,1], each side lies between 0 and the box's side. |
| Layout.NodeUpdate | box.go:31-42 | Steps the node's model and copies the fractions and the style. |
| Layout.DropNil | box.go:109-117 | Keeps exactly the present commands and never grows the list. |
| Layout.DropNilAppend | box.go:109-117 | Dropping absent commands commutes with concatenation, so forwarded commands keep node order. |
| Layout.DropNilKeepsPresent | box.go:109-117 | A batch with no absent commands is kept whole. |
| Layout.Update | box.go:119-142 | A resize sets the box size to the truncated window-times-fraction and makes the box ready. Each node then gets the resize for its own rectangle of the new size, with exactly one entry per node, nil included. Any other message leaves the box unchanged and returns exactly the nodes' present commands, in node order with repeats kept. The node list and fractions never change, and `ready` is never reset. |
| Layout.ResizeNodes | box.go:144-156 | `resizeNodes` yields, in node order, one command per node for that node's rectangle. |
| Layout.UpdateNodes | box.go:109-117 | `updateNodes` yields the nodes' present commands for the forwarded message, in node order. |
| Layout.View | box.go:158-167 | A box with nodes and a zero side renders empty text. Otherwise the opaque renderer receives each node's view with its rectangle, in order. |
| Layout.RunKeepsNodes | box.go:111 | No message sequence alters the node list or the box fractions, and a ready box stays ready. |
| Layout.ResizeIdempotent | box.go:128-136 | Delivering the same resize twice gives the same box and the same batch the second time. |
| Layout.ResizeBounds | box.go:101-107 | With fractions in [0,1] and a non-negative window, the box fits the window and every node rectangle fits the box. |
| Layout.UnsizedBoxRendersEmpty | box.go:158-167 | A box that was never resized renders empty text once it has a node. |
| Layout.TwoHalvesExample | box.go:128-136 | A full-window box with two half-width nodes gives each node 50 by 50 on a 100 by 50 window. |
| CursorList.NewList | list.go:31-39 | A new list is empty, its cursor is 0, and selecting yields no command. |
| CursorList.Clear | list.go:41-43 | Empties the items and leaves the cursor and selection untouched. |
| CursorList.SetSelectedFunc | list.go:45-49 | Replaces only the selection function. |
| CursorList.AddItem | list.go:52-54 | Appends exactly one item at the end and keeps the earlier items and the cursor. |
| CursorList.Add | list.go:57-60 | Appends exactly one printed item at the end and keeps the earlier items and the cursor. |
| CursorList.CurrentItem | list.go:63-65 | `CurrentItem` returns the item under the cursor exactly when the cursor is in range; otherwise indexing `items` panics. |
| CursorList.Update | list.go:72-100 | A cursor beyond the end is first reset to 0; one exactly at the end is kept. Enter panics exactly when that cursor is out of range, and otherwise returns the selection's command. Quit keys return `Quit`. Up decrements only above 0. Down increments only below the last index. Every other message changes nothing but the reset. Items never change. |
| CursorList.CursorStaysBounded | list.go:73-95 | From a non-negative cursor, an update keeps the cursor between 0 and the item count. |
| CursorList.CursorStaysOnItem | list.go:81-95 | A cursor on an item stays on an item, and no update panics. |
| CursorList.RunStaysOnItem | list.go:72-100 | Starting on an item, no message sequence panics or changes the items, and the cursor stays on an item. |
| CursorList.ClearThenUpdate | list.go:41-43 | After `Clear`, enter panics, and a positive cursor is reset to 0 by the next update of any other kind. |
| CursorList.RefilledListPanicsOnEnter | list.go:73-75 | Clearing a list with its cursor at 1 and adding one item leaves the cursor at the end: enter panics, and up moves it to 0. |
| CursorList.MarkerOnlyAtCursor | list.go:104-109 | Each line is a two-character marker followed by the item's text. The marker is `"> "` exactly at the cursor, so at most one line is marked. |
| CursorList.SplitUnlines | list.go:102-113 | Splitting newline-terminated text into lines undoes joining, for lines without line ends. |
| CursorList.View | list.go:102-113 | `List.View` renders each line followed by a line end. When no item text holds a line end, splitting the view gives back exactly one line per item, in order. |

## Left out

- `examples/pinger.go`: a demo that does HTTP requests and logging, with no
  core logic.
- `input.go`: a thin wrapper over the text input widget of the bubbles
  library. Its state is not part of this model.
- Rendering in `Box.View`: lipgloss sizing, frames, joins, borders and colours
  (box.go:169-193). They are one opaque `render` parameter that receives the box
  and each node's view with its rectangle. The orientation is passed to it
  unread.
- Layout.Trunc: computes on exact reals. Go multiplies in `float64`, which can
  round differently. For example, with `SizeX := float64(29)/100` held in a
  variable and a width of 100, `int(float64(width) * SizeX)` is 28 in Go but
  29 here.
- The bubbletea runtime: the event loop, command execution, what `tea.Batch`
  does with its entries, and what `tea.Quit` does. A command's effect is
  modelled only for `ChangeState`, whose command emits a focus request.
- Pointer aliasing: Go child models are pointers that may mutate in place, so
  the box's dropped node results and the router's stale `current` can still see
  updates in Go. Here models are values. The router stores the stepped model
  under the focused name but keeps `current` as it was read at focus time.
- Nil functions: `SetInit(nil)`, `SetDelgate(nil)` and `SetSelectedFunc(nil)`
  make the next call of that function panic (app.go:62, app.go:87,
  list.go:82). Functions here are total values that cannot be nil, so these
  panics are not modelled.
- Registering a nil model under a name, which would make `SetFocus` produce an
  unfocused app although the name is registered.
- Nil nodes and items: a nil model passed to `AddNode` or `AddNodeWithStyle`
  makes the next `Box.Update` of any kind panic, because `BoxNode.Update`
  calls the nil model (box.go:33, reached from box.go:111 and box.go:152). A
  nil item passed to `AddItem` makes the next `List.View` panic (list.go:109).
  Models and items here cannot be nil, so `Layout.Update` and `CursorList.View`
  describe a result where Go panics in these cases.
- Nesting a box inside a box. Both the router and the box take the child model
  type as a parameter, so a box cannot hold boxes of its own type.
- Key identity: a key is identified by its textual form. The router's test
  on the key type `KeyCtrlC` is taken to be the key whose text is `"ctrl+c"`.
- `List.Init` (list.go:67-69) returns nil and reads no state. The `viewer`
  wrapper used by `List.Add` (list.go:14-21) formats its value with
  `fmt.Sprint`, and formatting is not modelled: `Add` takes the printed text.
- The unused `max` helper (box.go:195-200).
