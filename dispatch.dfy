/** The event-dispatch core of meowmeow.c as a state machine: the window
    stack, the `running` flag and the commands sent to the X server so
    far. Every X call is an entry of the command log; the keysym of a key
    event is given directly, and events come one by one from a sequence.
    The class in Meowmeow runs these steps imperatively. */
module Dispatch {
  import opened WindowStack
  import opened KeyBindings

  /** Requests the window manager sends to the X server. */
  datatype Command =
    | MapWindow(w: Window)
    | MoveResize(w: Window, x: int, y: int, width: int, height: int)
    | RaiseWindow(w: Window)
    | SetInputFocus(w: Window)
    | SendDelete(w: Window)
    | SpawnProcess(argv: seq<string>)

  /** Event type codes of X11's X.h that have handlers. */
  const KeyPress: nat := 2
  const DestroyNotify: nat := 17
  const MapRequest: nat := 20

  /** An X event as far as the handlers read it: its type, the window
      of a map request or destroy notification, and the keysym and
      modifier state of a key press. */
  datatype XEvent = XEvent(kind: nat, window: Window, keysym: KeySym, state: ModMask)

  datatype Handler = OnKeyPress | OnMapRequest | OnDestroyNotify

  /** The evHandler table: only three event types have a handler. */
  function EvHandler(kind: nat): (h: Option<Handler>)
    ensures h == Some(OnKeyPress) <==> kind == KeyPress
    ensures h == Some(OnMapRequest) <==> kind == MapRequest
    ensures h == Some(OnDestroyNotify) <==> kind == DestroyNotify
  {
    if kind == KeyPress then Some(OnKeyPress)
    else if kind == MapRequest then Some(OnMapRequest)
    else if kind == DestroyNotify then Some(OnDestroyNotify)
    else None
  }

  /** The window manager's globals: the window stack read from its head,
      the running flag, the commands issued so far and the display size
      read at setup. */
  datatype WmState = WmState(stack: seq<Window>, running: bool, log: seq<Command>, disWidth: int, disHeight: int)

  /** The state right after setup: nothing managed, running. */
  function Initial(width: int, height: int): WmState {
    WmState([], true, [], width, height)
  }

  /** refocusCurWindow: raise and focus the head, if there is one. */
  function Refocus(stack: seq<Window>): seq<Command> {
    if stack == [] then [] else [RaiseWindow(stack[0]), SetInputFocus(stack[0])]
  }

  /** One delete request per window, in the given order. */
  function Deletes(ws: seq<Window>): (r: seq<Command>)
    ensures |r| == |ws|
  {
    if ws == [] then [] else [SendDelete(ws[0])] + Deletes(ws[1..])
  }

  /** tabNextWindow. */
  function TabNextStep(st: WmState): WmState {
    if st.stack == [] then st
    else
      var stack := Cycle(st.stack);
      st.(stack := stack, log := st.log + Refocus(stack))
  }

  /** closeCurWindow: ask the head to close, unlink the head's window,
      refocus. When the head's handle also sits in a later entry,
      remWindow unlinks that entry instead (see Target). */
  function CloseCurStep(st: WmState): WmState {
    if st.stack == [] then st
    else
      var stack := Removed(st.stack, st.stack[0]);
      st.(stack := stack, log := st.log + [SendDelete(st.stack[0])] + Refocus(stack))
  }

  /** quit: stop running and drain the stack, asking each head to close
      before unlinking it. */
  function QuitStep(st: WmState): WmState {
    st.(running := false, stack := [], log := st.log + Deletes(DrainOrder(st.stack)))
  }

  /** The function a binding names, run with its argument. */
  function RunAction(st: WmState, a: Action): WmState {
    match a
    case Quit => QuitStep(st)
    case TabNextWindow => TabNextStep(st)
    case CloseCurWindow => CloseCurStep(st)
    case Spawn(argv) => st.(log := st.log + [SpawnProcess(argv)])
  }

  /** keyPressHandler: run the first binding that matches, if any. */
  function KeyPressStep(st: WmState, ks: KeySym, state: ModMask): WmState {
    match FirstMatch(Bindings, ks, state)
    case None => st
    case Some(i) => RunAction(st, Bindings[i].action)
  }

  /** mapRequestHandler as written: map the window over the whole
      display, push it as the new head, refocus. addWindow does not look
      for the window first, so a window that is already managed gets a
      second entry. */
  function MapRequestStep(st: WmState, w: Window): WmState {
    var stack := [w] + st.stack;
    st.(stack := stack,
        log := st.log + [MapWindow(w), MoveResize(w, 0, 0, st.disWidth, st.disHeight)] + Refocus(stack))
  }

  /** mapRequestHandler with a membership check before addWindow: a
      window that is already managed is mapped and resized again but
      gets no second entry. */
  function MapRequestFixedStep(st: WmState, w: Window): WmState {
    var stack := if w in st.stack then st.stack else [w] + st.stack;
    st.(stack := stack,
        log := st.log + [MapWindow(w), MoveResize(w, 0, 0, st.disWidth, st.disHeight)] + Refocus(stack))
  }

  /** destroyNotifyHandler as written: when chkWindowExists reports the
      window, unlink it and refocus; otherwise nothing changes. The check
      misses the last entry of a chain of two or more. */
  function DestroyNotifyStep(st: WmState, w: Window): WmState {
    if !ExistsAsWritten(st.stack, w) then st
    else
      var stack := Removed(st.stack, w);
      st.(stack := stack, log := st.log + Refocus(stack))
  }

  /** destroyNotifyHandler with the corrected existence check: forget a
      tracked window and refocus; an untracked one changes nothing. */
  function DestroyNotifyFixedStep(st: WmState, w: Window): WmState {
    if w !in st.stack then st
    else
      var stack := Removed(st.stack, w);
      st.(stack := stack, log := st.log + Refocus(stack))
  }

  /** Which handlers the loop runs: those of meowmeow.c as written, or
      the same handlers with the existence check comparing every entry
      and the map request adding no second entry for a managed window. */
  datatype Variant = AsWritten | Corrected

  /** One pass of the loop body: look the event's type up in evHandler
      and run the handler, if there is one. */
  function Step(v: Variant, st: WmState, ev: XEvent): WmState {
    match EvHandler(ev.kind)
    case None => st
    case Some(OnKeyPress) => KeyPressStep(st, ev.keysym, ev.state)
    case Some(OnMapRequest) =>
      if v == AsWritten then MapRequestStep(st, ev.window) else MapRequestFixedStep(st, ev.window)
    case Some(OnDestroyNotify) =>
      if v == AsWritten then DestroyNotifyStep(st, ev.window) else DestroyNotifyFixedStep(st, ev.window)
  }

  /** The loop: handle events while running; stop when `running` is
      cleared or the events run out. */
  function Run(v: Variant, st: WmState, events: seq<XEvent>): WmState
    decreases |events|
  {
    if !st.running || events == [] then st
    else Run(v, Step(v, st, events[0]), events[1..])
  }

  /** The event is not a map request for a window that is already
      managed. The X server does send such requests (a client that
      withdraws its window and maps it again: unmaps are not tracked),
      and then the handlers as written give the window a second entry. */
  predicate StepAdmissible(st: WmState, ev: XEvent) {
    EvHandler(ev.kind) == Some(OnMapRequest) ==> ev.window !in st.stack
  }

  /** Every event the loop as written handles is admissible in the state
      it meets. */
  predicate Admissible(st: WmState, events: seq<XEvent>)
    decreases |events|
  {
    !st.running || events == [] ||
    (StepAdmissible(st, events[0]) && Admissible(Step(AsWritten, st, events[0]), events[1..]))
  }

  /** The last window the log gave input focus to. */
  function LastFocus(log: seq<Command>): Option<Window> {
    if log == [] then None
    else if log[|log| - 1].SetInputFocus? then Some(log[|log| - 1].w)
    else LastFocus(log[..|log| - 1])
  }

  /** The window last given focus is the head whenever there is one. */
  predicate FocusOnHead(st: WmState) {
    st.stack != [] ==> LastFocus(st.log) == Some(st.stack[0])
  }

  /** The invariant of a well-kept buffer: handles are distinct, and the
      focus is on the head. */
  ghost predicate Inv(st: WmState) {
    Distinct(st.stack) && FocusOnHead(st)
  }

  lemma InitialInv(width: int, height: int)
    ensures Inv(Initial(width, height))
  {
  }

  lemma LastFocusOfRefocus(log: seq<Command>, stack: seq<Window>)
    requires stack != []
    ensures LastFocus(log + Refocus(stack)) == Some(stack[0])
  {
  }

  /** Appending a command other than a focus request keeps the focus. */
  lemma LastFocusSkips(log: seq<Command>, c: Command)
    requires !c.SetInputFocus?
    ensures LastFocus(log + [c]) == LastFocus(log)
  {
    assert (log + [c])[..|log|] == log;
  }

  /** Every handler of either variant leaves the focus on the head;
      handles stay distinct under the corrected handlers, and under the
      handlers as written when the event is admissible. */
  lemma StepKeepsInv(v: Variant, st: WmState, ev: XEvent)
    requires FocusOnHead(st)
    ensures FocusOnHead(Step(v, st, ev))
    ensures Distinct(st.stack) && (v == Corrected || StepAdmissible(st, ev)) ==> Distinct(Step(v, st, ev).stack)
  {
    match EvHandler(ev.kind)
    case None =>
    case Some(OnKeyPress) => KeyPressKeepsInv(st, ev.keysym, ev.state);
    case Some(OnMapRequest) =>
      if v == AsWritten {
        MapRequestKeepsInv(st, ev.window);
      } else {
        MapRequestFixedKeepsInv(st, ev.window);
      }
    case Some(OnDestroyNotify) =>
      if v == AsWritten {
        if ExistsAsWritten(st.stack, ev.window) {
          RemovedKeepsInv(st, ev.window);
        }
      } else if ev.window in st.stack {
        RemovedKeepsInv(st, ev.window);
      }
  }

  /** Unlinking a managed window and refocusing keeps the invariant. */
  lemma RemovedKeepsInv(st: WmState, w: Window)
    requires w in st.stack
    ensures var stack := Removed(st.stack, w);
            FocusOnHead(st.(stack := stack, log := st.log + Refocus(stack))) &&
            (Distinct(st.stack) ==> Distinct(stack))
  {
    var stack := Removed(st.stack, w);
    if Distinct(st.stack) {
      RemovedDistinct(st.stack, w);
    }
    if stack != [] {
      LastFocusOfRefocus(st.log, stack);
    }
  }

  lemma KeyPressKeepsInv(st: WmState, ks: KeySym, state: ModMask)
    requires FocusOnHead(st)
    ensures FocusOnHead(KeyPressStep(st, ks, state))
    ensures Distinct(st.stack) ==> Distinct(KeyPressStep(st, ks, state).stack)
  {
    match FirstMatch(Bindings, ks, state)
    case None =>
    case Some(i) => ActionKeepsInv(st, Bindings[i].action);
  }

  lemma ActionKeepsInv(st: WmState, a: Action)
    requires FocusOnHead(st)
    ensures FocusOnHead(RunAction(st, a))
    ensures Distinct(st.stack) ==> Distinct(RunAction(st, a).stack)
  {
    match a
    case Quit =>
    case TabNextWindow =>
      if st.stack != [] {
        if Distinct(st.stack) {
          CycleDistinct(st.stack);
        }
        LastFocusOfRefocus(st.log, Cycle(st.stack));
      }
    case CloseCurWindow =>
      if st.stack != [] {
        RemovedKeepsInv(st.(log := st.log + [SendDelete(st.stack[0])]), st.stack[0]);
      }
    case Spawn(argv) =>
      LastFocusSkips(st.log, SpawnProcess(argv));
  }

  /** A map request as written keeps handles distinct exactly when the
      window is not managed yet. */
  lemma MapRequestKeepsInv(st: WmState, w: Window)
    requires FocusOnHead(st)
    ensures FocusOnHead(MapRequestStep(st, w))
    ensures Distinct(st.stack) ==> (Distinct(MapRequestStep(st, w).stack) <==> w !in st.stack)
  {
    var stack := [w] + st.stack;
    if Distinct(st.stack) && w !in st.stack {
      PushDistinct(st.stack, w);
    }
    if w in st.stack {
      var j := IndexOf(st.stack, w);
      assert stack[0] == stack[j + 1];
    }
    LastFocusOfRefocus(st.log + [MapWindow(w), MoveResize(w, 0, 0, st.disWidth, st.disHeight)], stack);
  }

  lemma MapRequestFixedKeepsInv(st: WmState, w: Window)
    requires FocusOnHead(st)
    ensures FocusOnHead(MapRequestFixedStep(st, w))
    ensures Distinct(st.stack) ==> Distinct(MapRequestFixedStep(st, w).stack)
  {
    var stack := if w in st.stack then st.stack else [w] + st.stack;
    if Distinct(st.stack) && w !in st.stack {
      PushDistinct(st.stack, w);
    }
    LastFocusOfRefocus(st.log + [MapWindow(w), MoveResize(w, 0, 0, st.disWidth, st.disHeight)], stack);
  }

  /** Pushing a new handle keeps handles distinct. */
  lemma PushDistinct(s: seq<Window>, w: Window)
    requires Distinct(s) && w !in s
    ensures Distinct([w] + s)
  {
    var stack := [w] + s;
    forall i, j | 0 <= i < j < |stack|
      ensures stack[i] != stack[j]
    {
      if i == 0 {
        assert stack[j] == s[j - 1];
      }
    }
  }

  /** The loop of either variant keeps the focus on the head; the
      corrected loop keeps handles distinct over any events, the loop as
      written over admissible ones. */
  lemma {:induction false} RunKeepsInv(v: Variant, st: WmState, events: seq<XEvent>)
    requires FocusOnHead(st)
    ensures FocusOnHead(Run(v, st, events))
    ensures Distinct(st.stack) && (v == Corrected || Admissible(st, events)) ==> Distinct(Run(v, st, events).stack)
    decreases |events|
  {
    if st.running && events != [] {
      StepKeepsInv(v, st, events[0]);
      RunKeepsInv(v, Step(v, st, events[0]), events[1..]);
    }
  }

  /** The whole invariant over a run: the corrected loop keeps it over
      any events, the loop as written over admissible ones. */
  lemma RunKeepsWholeInv(v: Variant, st: WmState, events: seq<XEvent>)
    requires Inv(st) && (v == Corrected || Admissible(st, events))
    ensures Inv(Run(v, st, events))
  {
    RunKeepsInv(v, st, events);
  }

  /** A window mapped twice by the handlers as written has two entries;
      destroying it then unlinks only one, and the destroyed window stays
      managed. The corrected handlers forget it. */
  lemma DuplicateMapKeepsDestroyedWindow(a: Window, width: int, height: int)
    ensures var events := [XEvent(MapRequest, a, 0, 0), XEvent(MapRequest, a, 0, 0), XEvent(DestroyNotify, a, 0, 0)];
            Run(AsWritten, Initial(width, height), events).stack == [a] &&
            Run(Corrected, Initial(width, height), events).stack == []
  {
    var e0, e2 := XEvent(MapRequest, a, 0, 0), XEvent(DestroyNotify, a, 0, 0);
    var s0 := Initial(width, height);
    var w1 := Step(AsWritten, s0, e0);
    var w2 := Step(AsWritten, w1, e0);
    assert w2.stack == [a, a];
    assert Target(w2.stack, a) == 1 by {
      assert w2.stack[1..] == [a];
    }
    var w3 := Step(AsWritten, w2, e2);
    assert w3.stack == [a];
    assert Run(AsWritten, s0, [e0, e0, e2]) == Run(AsWritten, w1, [e0, e2]);
    assert Run(AsWritten, w1, [e0, e2]) == Run(AsWritten, w2, [e2]);
    assert Run(AsWritten, w2, [e2]) == Run(AsWritten, w3, []);
    var c1 := Step(Corrected, s0, e0);
    var c2 := Step(Corrected, c1, e0);
    assert c2.stack == [a];
    var c3 := Step(Corrected, c2, e2);
    assert c3.stack == [];
    assert Run(Corrected, s0, [e0, e0, e2]) == Run(Corrected, c1, [e0, e2]);
    assert Run(Corrected, c1, [e0, e2]) == Run(Corrected, c2, [e2]);
    assert Run(Corrected, c2, [e2]) == Run(Corrected, c3, []);
  }

  /** For a window not yet managed, both map handlers agree. */
  lemma MapRequestFixedAgrees(st: WmState, w: Window)
    requires w !in st.stack
    ensures MapRequestFixedStep(st, w) == MapRequestStep(st, w)
  {
  }

  /** Handling two batches of events one after the other is handling
      their concatenation. */
  lemma {:induction false} RunConcat(v: Variant, st: WmState, first: seq<XEvent>, second: seq<XEvent>)
    ensures Run(v, st, first + second) == Run(v, Run(v, st, first), second)
    decreases |first|
  {
    if st.running && first != [] {
      assert (first + second)[1..] == first[1..] + second;
      RunConcat(v, Step(v, st, first[0]), first[1..], second);
    } else if !st.running {
      StoppedRunsNothing(v, st, first + second);
      StoppedRunsNothing(v, st, first);
      StoppedRunsNothing(v, st, second);
    } else {
      assert first + second == second;
    }
  }

  /** Alt+Tab moves the head along; Alt+q quits. */
  lemma AltTabCycles(st: WmState)
    ensures KeyPressStep(st, KeyTab, Mod1Mask) == TabNextStep(st)
  {
    assert FirstMatch(Bindings, KeyTab, Mod1Mask) == Some(1);
  }

  lemma AltQQuits(st: WmState)
    ensures KeyPressStep(st, KeyQ, Mod1Mask) == QuitStep(st)
  {
    AltQSelectsQuit();
  }

  /** A key that no binding names, under any modifiers, changes nothing. */
  lemma UnboundKeyIgnored(st: WmState, ks: KeySym, state: ModMask)
    requires ks !in {KeyQ, KeyTab, KeyP, KeyReturn}
    ensures KeyPressStep(st, ks, state) == st
  {
    assert forall j :: 0 <= j < |Bindings| ==> !Matches(Bindings[j], ks, state);
    FirstMatchIsUnique(Bindings, ks, state, |Bindings|);
  }

  /** Map A, then B, then press Alt+Tab: B was on top and A is now the
      head, with the input focus. */
  lemma MapTwoThenTab(v: Variant, a: Window, b: Window, width: int, height: int)
    requires a != b
    ensures var events := [XEvent(MapRequest, a, 0, 0), XEvent(MapRequest, b, 0, 0), XEvent(KeyPress, 0, KeyTab, Mod1Mask)];
            var after := Run(v, Initial(width, height), events);
            after.stack == [a, b] && LastFocus(after.log) == Some(a) && after.running
  {
    var e0, e1, e2 := XEvent(MapRequest, a, 0, 0), XEvent(MapRequest, b, 0, 0), XEvent(KeyPress, 0, KeyTab, Mod1Mask);
    var s0 := Initial(width, height);
    var s1 := Step(v, s0, e0);
    assert s1.stack == [a];
    var s2 := Step(v, s1, e1);
    assert s2.stack == [b, a];
    var s3 := Step(v, s2, e2);
    AltTabCycles(s2);
    assert s3.stack == [a, b];
    LastFocusOfRefocus(s2.log, [a, b]);
    assert Run(v, s0, [e0, e1, e2]) == Run(v, s1, [e1, e2]);
    assert Run(v, s1, [e1, e2]) == Run(v, s2, [e2]);
    assert Run(v, s2, [e2]) == Run(v, s3, []);
  }

  /** Events whose type has no handler change nothing. */
  lemma UnhandledEventIgnored(v: Variant, st: WmState, ev: XEvent)
    requires ev.kind !in {KeyPress, MapRequest, DestroyNotify}
    ensures Step(v, st, ev) == st
  {
  }

  /** Once `running` is false, no further event is handled. */
  lemma StoppedRunsNothing(v: Variant, st: WmState, events: seq<XEvent>)
    requires !st.running
    ensures Run(v, st, events) == st
  {
  }

  /** One turn of the drain loop: the head's delete request comes first,
      then those of the windows left after unlinking it. */
  lemma DrainLog(log: seq<Command>, s: seq<Window>)
    requires s != []
    ensures log + [SendDelete(s[0])] + Deletes(DrainOrder(Removed(s, s[0]))) == log + Deletes(DrainOrder(s))
  {
    var rest := DrainOrder(Removed(s, s[0]));
    assert DrainOrder(s) == [s[0]] + rest;
    assert ([s[0]] + rest)[1..] == rest;
  }

  /** quit leaves nothing managed, stops the loop, and sends exactly one
      delete request per window: the head first, then each predecessor
      in turn going backwards along the chain. */
  lemma QuitDrainsStack(st: WmState)
    requires st.stack != [] && Distinct(st.stack)
    ensures var after := QuitStep(st);
            !after.running && after.stack == [] &&
            after.log == st.log + Deletes([st.stack[0]] + Reverse(st.stack[1..]))
  {
    DrainIsHeadThenPredecessors(st.stack);
  }

  /** The i-th command of Deletes asks the i-th window to close. */
  lemma {:induction false} DeletesAt(ws: seq<Window>, i: nat)
    requires i < |ws|
    ensures Deletes(ws)[i] == SendDelete(ws[i])
  {
    if i > 0 {
      DeletesAt(ws[1..], i - 1);
    }
  }

  /** A window gets a delete request exactly when it is in the list. */
  lemma {:induction false} DeletesMention(ws: seq<Window>, w: Window)
    ensures SendDelete(w) in Deletes(ws) <==> w in ws
  {
    if ws != [] {
      DeletesMention(ws[1..], w);
      assert ws == [ws[0]] + ws[1..];
    }
  }

  /** Every managed window is asked to close by quit, and nothing else. */
  lemma QuitDeletesEveryWindow(st: WmState, w: Window)
    ensures SendDelete(w) in QuitStep(st).log[|st.log|..] <==> w in st.stack
  {
    var order := DrainOrder(st.stack);
    assert QuitStep(st).log[|st.log|..] == Deletes(order);
    DeletesMention(order, w);
    DrainOrderMultiset(st.stack);
    assert w in order <==> w in multiset(order);
    assert w in st.stack <==> w in multiset(st.stack);
  }

  /** closeCurWindow on a stack of two or more asks the old head to
      close and makes its predecessor the head and the focus target. */
  lemma CloseCurFocusesPredecessor(st: WmState)
    requires Distinct(st.stack) && |st.stack| >= 2
    ensures var after := CloseCurStep(st);
            after.stack[0] == Last(st.stack) &&
            st.stack[0] !in after.stack &&
            after.log == st.log + [SendDelete(st.stack[0]), RaiseWindow(Last(st.stack)), SetInputFocus(Last(st.stack))]
  {
    RemovedDistinct(st.stack, st.stack[0]);
  }

  /** Pressing the cycle key as many times as there are windows brings
      the stack back to where it started. */
  function TabNextN(st: WmState, k: nat): WmState {
    if k == 0 then st else TabNextStep(TabNextN(st, k - 1))
  }

  lemma {:induction false} TabNextNStack(st: WmState, k: nat)
    ensures TabNextN(st, k).stack == CycleN(st.stack, k)
  {
    if k > 0 {
      var prev := TabNextN(st, k - 1);
      TabNextNStack(st, k - 1);
      TabNextStack(prev);
    }
  }

  lemma TabNextStack(st: WmState)
    ensures TabNextStep(st).stack == Cycle(st.stack)
  {
  }

  lemma TabFullTurn(st: WmState)
    ensures TabNextN(st, |st.stack|).stack == st.stack
  {
    TabNextNStack(st, |st.stack|);
    CycleFullTurn(st.stack);
  }

  /** A map request for window w leaves w at the head, with focus. */
  lemma MapRequestFocusesNewWindow(st: WmState, w: Window)
    ensures var after := MapRequestStep(st, w);
            after.stack[0] == w && LastFocus(after.log) == Some(w)
  {
    LastFocusOfRefocus(st.log + [MapWindow(w), MoveResize(w, 0, 0, st.disWidth, st.disHeight)], [w] + st.stack);
  }

  /** Map A, then B: the chain is B -> A. When A is destroyed, the
      handler as written keeps it; the corrected one drops it. */
  lemma DestroyedLastWindowStaysManaged(st: WmState, a: Window, b: Window)
    requires a != b && st.stack == [b, a]
    ensures DestroyNotifyStep(st, a) == st && a in st.stack
    ensures DestroyNotifyFixedStep(st, a).stack == [b]
  {
    assert Target(st.stack, a) == 1 by {
      assert st.stack[1..] == [a];
    }
  }

  /** Wherever the scan as written finds the window, both handlers
      agree, whether or not handles repeat. */
  lemma DestroyAsWrittenAgrees(st: WmState, w: Window)
    requires ExistsAsWritten(st.stack, w)
    ensures DestroyNotifyStep(st, w) == DestroyNotifyFixedStep(st, w)
  {
  }

  /** With distinct handles, the handlers agree on every managed window
      except the last entry of a chain of two or more. */
  lemma DestroyAsWrittenAgreesOffLast(st: WmState, w: Window)
    requires Distinct(st.stack) && w in st.stack && (|st.stack| == 1 || w != Last(st.stack))
    ensures DestroyNotifyStep(st, w) == DestroyNotifyFixedStep(st, w)
  {
    ExistsAsWrittenMissesLast(st.stack, w);
  }

  /** A destroy notification for an untracked window changes nothing,
      under either handler. */
  lemma DestroyUntrackedIgnored(st: WmState, w: Window)
    requires w !in st.stack
    ensures DestroyNotifyStep(st, w) == st && DestroyNotifyFixedStep(st, w) == st
  {
  }
}
