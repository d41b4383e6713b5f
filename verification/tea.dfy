/** The vocabulary shared with the reactive runtime that drives every model:
    messages, deferred commands, and the three operations a child model
    offers. The runtime itself (event loop, command execution) is not part
    of this model. */
module Tea {

  /** Go's nil-able values: a command or model that may be absent. */
  datatype Option<+T> = None | Some(value: T)

  /** The messages the models inspect. A key message is identified by its
      textual form (`"ctrl+c"`, `"enter"`, `"q"`, ...); `Custom` stands for
      every message an application defines for itself. */
  datatype Msg =
    | KeyPress(key: string)
    | WindowSize(width: int, height: int)
    | StateChange(name: string)
    | Custom(tag: nat)

  /** Deferred work. `Quit` asks the runtime to stop, `Emit(m)` delivers `m`
      back into the update loop when executed, `Opaque` is any other command. */
  datatype Cmd = Quit | Emit(msg: Msg) | Opaque(id: nat)

  /** The behaviour of a child model whose state has type `M`: how it starts,
      how it steps on a message, and how it renders. Child models are
      values here; a step returns the model that replaces the old one. */
  datatype Panel<!M> = Panel(
    init: M -> Option<Cmd>,
    update: (M, Msg) -> (M, Option<Cmd>),
    view: M -> string)

  /** The textual form of the interrupt key. */
  const CtrlC: string := "ctrl+c"
}
