/** The router: a registry of named child models, one of which is focused
    and receives the message stream. */
module Router {
  import opened Tea

  /** `current` is the focused model as it was read from `views` when focus
      was last set (`None` when nothing is focused, or the name was not
      registered); `currentName` is the name focus was set to. */
  datatype App<!M> = App(
    current: Option<M>,
    currentName: string,
    views: map<string, M>,
    initFunc: () -> Option<Cmd>,
    delegate: Msg -> (Option<M>, Option<Cmd>))

  /** The focus invariant: a focused app's name is a registered key. */
  predicate FocusValid<M>(a: App<M>) {
    a.current.Some? ==> a.currentName in a.views
  }

  /** An app with no models, no focus, a fallback init that yields no
      command and a delegate that never intercepts. */
  function NewApp<M>(): (a: App<M>)
    ensures a.current == None && a.views == map[]
    ensures a.initFunc() == None
    ensures forall msg :: a.delegate(msg).1 == None
    ensures FocusValid(a)
  {
    App(None, "", map[], () => None, _ => (None, None))
  }

  /** The command whose execution delivers a request to focus `name`. */
  function ChangeState(name: string): (c: Cmd)
    ensures c.Emit? && c.msg.StateChange? && c.msg.name == name
  {
    Emit(StateChange(name))
  }

  /** Registers `m` under `name`, replacing any earlier entry. Focus is
      left alone, even when `name` is the focused name. */
  function Add<M>(a: App<M>, name: string, m: M): (r: App<M>)
    ensures name in r.views && r.views[name] == m
    ensures forall k :: k != name ==> (k in r.views <==> k in a.views)
    ensures forall k :: k != name && k in a.views ==> r.views[k] == a.views[k]
    ensures r.current == a.current && r.currentName == a.currentName
    ensures r.initFunc == a.initFunc && r.delegate == a.delegate
    ensures FocusValid(a) ==> FocusValid(r)
  {
    a.(views := a.views[name := m])
  }

  /** Focuses `name`, reading its model from the registry; an unregistered
      name leaves the app unfocused. */
  function SetFocus<M>(a: App<M>, name: string): (r: App<M>)
    ensures r.currentName == name
    ensures r.current.Some? <==> name in a.views
    ensures name in a.views ==> r.current.value == a.views[name]
    ensures r.views == a.views && r.initFunc == a.initFunc && r.delegate == a.delegate
    ensures FocusValid(r)
  {
    a.(current := if name in a.views then Some(a.views[name]) else None,
       currentName := name)
  }

  function SetInit<M>(a: App<M>, f: () -> Option<Cmd>): (r: App<M>)
    ensures r.initFunc == f
    ensures r.current == a.current && r.currentName == a.currentName
    ensures r.views == a.views && r.delegate == a.delegate
  {
    a.(initFunc := f)
  }

  function SetDelegate<M>(a: App<M>, f: Msg -> (Option<M>, Option<Cmd>)): (r: App<M>)
    ensures r.delegate == f
    ensures r.current == a.current && r.currentName == a.currentName
    ensures r.views == a.views && r.initFunc == a.initFunc
  {
    a.(delegate := f)
  }

  /** The start-up command: the focused model's, or the fallback's when
      nothing is focused. */
  function Init<M>(a: App<M>, p: Panel<M>): (c: Option<Cmd>)
    ensures a.current.None? ==> c == a.initFunc()
    ensures a.current.Some? ==> c == p.init(a.current.value)
  {
    if a.current.None? then a.initFunc() else p.init(a.current.value)
  }

  /** The rendering: the focused model's view, or empty when unfocused. */
  function View<M>(a: App<M>, p: Panel<M>): (s: string)
    ensures a.current.None? ==> s == ""
    ensures a.current.Some? ==> s == p.view(a.current.value)
  {
    if a.current.None? then "" else p.view(a.current.value)
  }

  /** The delegate takes `msg`: focus is set, `msg` is neither the interrupt
      key nor a focus request, and the delegate answers with a command. */
  predicate Intercepted<M>(a: App<M>, msg: Msg) {
    && a.current.Some?
    && msg != KeyPress(CtrlC)
    && !msg.StateChange?
    && a.delegate(msg).1.Some?
  }

  /** `msg` reaches the focused model. */
  predicate Dispatched<M>(a: App<M>, msg: Msg) {
    && a.current.Some?
    && msg != KeyPress(CtrlC)
    && !msg.StateChange?
    && a.delegate(msg).1.None?
  }

  /** One message through the router, in strict priority order: no focus,
      interrupt key, focus request, delegate, focused model. */
  function Update<M>(a: App<M>, p: Panel<M>, msg: Msg): (r: (App<M>, Option<Cmd>))
    // Without focus every message, the interrupt key included, is a no-op.
    ensures a.current.None? ==> r == (a, None)
    ensures a.current.Some? && msg == KeyPress(CtrlC) ==> r == (a, Some(Quit))
    ensures a.current.Some? && msg.StateChange? ==>
      && r.1 == None
      && r.0.currentName == msg.name
      && r.0.views == a.views
      && (r.0.current.Some? <==> msg.name in a.views)
      && (msg.name in a.views ==> r.0.current.value == a.views[msg.name])
    // The delegate's command is returned as is; the model it returns is dropped.
    ensures Intercepted(a, msg) ==> r == (a, a.delegate(msg).1)
    // Dispatch replaces exactly the focused name's entry; `current` stays stale.
    ensures Dispatched(a, msg) ==>
      && r.1 == p.update(a.current.value, msg).1
      && a.currentName in r.0.views
      && r.0.views[a.currentName] == p.update(a.current.value, msg).0
      && (forall k :: k != a.currentName ==> (k in r.0.views <==> k in a.views))
      && (forall k :: k != a.currentName && k in a.views ==> r.0.views[k] == a.views[k])
    ensures !msg.StateChange? ==>
      r.0.current == a.current && r.0.currentName == a.currentName
    ensures r.0.initFunc == a.initFunc && r.0.delegate == a.delegate
    ensures FocusValid(a) ==> FocusValid(r.0) && r.0.views.Keys == a.views.Keys
  {
    if a.current.None? then (a, None)
    else if msg == KeyPress(CtrlC) then (a, Some(Quit))
    else if msg.StateChange? then (SetFocus(a, msg.name), None)
    else if a.delegate(msg).1.Some? then (a, a.delegate(msg).1)
    else
      var (m, cmd) := p.update(a.current.value, msg);
      (a.(views := a.views[a.currentName := m]), cmd)
  }

  /** The app after a sequence of messages, delivered in order. */
  function Run<M>(a: App<M>, p: Panel<M>, msgs: seq<Msg>): App<M>
    decreases |msgs|
  {
    if |msgs| == 0 then a else Run(Update(a, p, msgs[0]).0, p, msgs[1..])
  }

  predicate NoStateChange(msgs: seq<Msg>) {
    forall i :: 0 <= i < |msgs| ==> !msgs[i].StateChange?
  }

  /** An unfocused app ignores every message sequence. */
  lemma {:induction false} UnfocusedIsInert<M>(a: App<M>, p: Panel<M>, msgs: seq<Msg>)
    requires a.current.None?
    ensures Run(a, p, msgs) == a
    decreases |msgs|
  {
    if |msgs| > 0 {
      UnfocusedIsInert(Update(a, p, msgs[0]).0, p, msgs[1..]);
    }
  }

  /** Focusing a name that was never registered freezes the app: every
      later message sequence leaves it as it is. */
  lemma UnregisteredFocusFreezes<M>(a: App<M>, p: Panel<M>, name: string, msgs: seq<Msg>)
    requires name !in a.views
    ensures Run(SetFocus(a, name), p, msgs) == SetFocus(a, name)
  {
    UnfocusedIsInert(SetFocus(a, name), p, msgs);
  }

  /** The focus invariant holds after any message sequence, and the set of
      registered names never changes while the router runs. */
  lemma {:induction false} RunKeepsFocusValid<M>(a: App<M>, p: Panel<M>, msgs: seq<Msg>)
    requires FocusValid(a)
    ensures FocusValid(Run(a, p, msgs))
    ensures Run(a, p, msgs).views.Keys == a.views.Keys
    decreases |msgs|
  {
    if |msgs| > 0 {
      RunKeepsFocusValid(Update(a, p, msgs[0]).0, p, msgs[1..]);
    }
  }

  /** Without a focus request in the stream, focus never moves. */
  lemma {:induction false} FocusStableWithoutStateChange<M>(a: App<M>, p: Panel<M>, msgs: seq<Msg>)
    requires NoStateChange(msgs)
    ensures Run(a, p, msgs).currentName == a.currentName
    ensures Run(a, p, msgs).current == a.current
    decreases |msgs|
  {
    if |msgs| > 0 {
      assert !msgs[0].StateChange?;
      assert NoStateChange(msgs[1..]) by {
        forall i | 0 <= i < |msgs[1..]| ensures !msgs[1..][i].StateChange? {
          assert msgs[1..][i] == msgs[i + 1];
        }
      }
      FocusStableWithoutStateChange(Update(a, p, msgs[0]).0, p, msgs[1..]);
    }
  }

  /** Executing a `ChangeState(name)` command and delivering its message to
      a focused app focuses `name`, with no command and no other effect. */
  lemma ChangeStateRefocuses<M>(a: App<M>, p: Panel<M>, name: string)
    requires a.current.Some?
    ensures ChangeState(name).Emit?
    ensures Update(a, p, ChangeState(name).msg) == (SetFocus(a, name), None)
  {
  }

  /** The interrupt key and focus requests are decided before the delegate
      or the focused model are consulted: replacing either changes nothing
      in the outcome. */
  lemma ReservedMessagesSkipDelegateAndModel<M>(
    a: App<M>, p: Panel<M>, q: Panel<M>, d: Msg -> (Option<M>, Option<Cmd>), msg: Msg)
    requires msg == KeyPress(CtrlC) || msg.StateChange?
    ensures Update(SetDelegate(a, d), q, msg).1 == Update(a, p, msg).1
    ensures Update(SetDelegate(a, d), q, msg).0 == SetDelegate(Update(a, p, msg).0, d)
  {
  }

  /** Registering after focusing does not refresh the focused model, and
      focusing after registering picks up the registered model. */
  lemma AddThenFocus<M>(a: App<M>, name: string, m: M)
    ensures SetFocus(Add(a, name, m), name).current == Some(m)
    ensures Add(SetFocus(a, name), name, m).current == SetFocus(a, name).current
  {
  }

  /** After `SetFocus(name)`, start-up and rendering follow the model
      registered under `name`, or fall back when there is none. */
  lemma InitAndViewFollowFocus<M>(a: App<M>, p: Panel<M>, name: string)
    ensures name in a.views ==>
      Init(SetFocus(a, name), p) == p.init(a.views[name]) &&
      View(SetFocus(a, name), p) == p.view(a.views[name])
    ensures name !in a.views ==>
      Init(SetFocus(a, name), p) == a.initFunc() &&
      View(SetFocus(a, name), p) == ""
  {
  }
}
