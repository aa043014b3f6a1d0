/** meowmeow.c: the window manager's globals and handlers, run on the
    linked buffer of WindowBuffer. Each X request is appended to `log`
    instead of being sent; every handler is proved to perform exactly the
    step of the same name in Dispatch. */
module Meowmeow {
  import opened WindowStack
  import opened KeyBindings
  import opened WindowBuffer
  import opened Dispatch

  class WindowManager {
    var running: bool
    const winBuff: WindowBuff
    var log: seq<Command>
    const disWidth: int
    const disHeight: int

    ghost predicate Valid()
      reads this, winBuff, winBuff.Repr
    {
      this !in winBuff.Repr && winBuff.Valid()
    }

    /** The globals as a Dispatch state. */
    ghost function State(): WmState
      reads this, winBuff
    {
      WmState(winBuff.windows, running, log, disWidth, disHeight)
    }

    /** setup: the display size is read once, the loop is armed and an
        empty buffer is allocated. */
    constructor (width: int, height: int)
      ensures Valid() && fresh(winBuff.Repr)
      ensures State() == Initial(width, height)
    {
      disWidth, disHeight := width, height;
      running := true;
      log := [];
      winBuff := new WindowBuff();
    }

    /** refocusCurWindow. */
    method RefocusCurWindow()
      requires Valid()
      modifies this
      ensures Valid()
      ensures State() == old(State()).(log := old(log) + Refocus(winBuff.windows))
    {
      if winBuff.head == null {
        return;
      }
      log := log + [RaiseWindow(winBuff.head.window), SetInputFocus(winBuff.head.window)];
    }

    /** tabNextWindow: the head moves one entry along the chain. */
    method TabNextWindow()
      requires Valid()
      modifies this, winBuff
      ensures Valid() && winBuff.Repr == old(winBuff.Repr)
      ensures State() == TabNextStep(old(State()))
    {
      if winBuff.head == null {
        return;
      }
      ghost var cycled := winBuff.nodes[1..] + [winBuff.nodes[0]];
      CycledLinks(winBuff.nodes, cycled);
      winBuff.head := winBuff.head.next;
      winBuff.nodes, winBuff.windows := cycled, Cycle(winBuff.windows);
      RefocusCurWindow();
    }

    /** closeCurWindow: the head is asked to close and its window is
        unlinked. The existence check always finds the head, so the
        defect of chkWindowExists does not show here. */
    method CloseCurWindow()
      requires Valid()
      modifies this, winBuff.Repr
      ensures Valid() && winBuff.Repr <= old(winBuff.Repr)
      ensures State() == CloseCurStep(old(State()))
    {
      var found := false;
      if winBuff.head != null {
        found := winBuff.ChkWindowExists(winBuff.head.window);
      }
      if winBuff.head == null || !found {
        return;
      }
      var window := winBuff.head.window;
      log := log + [SendDelete(window)];
      winBuff.RemWindow(window);
      RefocusCurWindow();
    }

    /** quit: clears `running`, then asks the head to close and unlinks
        its window until the buffer is empty. */
    method Quit()
      requires Valid()
      modifies this, winBuff.Repr
      ensures Valid() && winBuff.Repr <= old(winBuff.Repr)
      ensures State() == QuitStep(old(State()))
    {
      ghost var drained := old(log) + Deletes(DrainOrder(winBuff.windows));
      running := false;
      while winBuff.head != null
        invariant Valid() && winBuff.Repr <= old(winBuff.Repr)
        invariant !running
        invariant log + Deletes(DrainOrder(winBuff.windows)) == drained
        decreases |winBuff.windows|
      {
        ghost var s, before := winBuff.windows, log;
        CloseHead();
        DrainLog(before, s);
      }
    }

    /** One turn of quit's loop: the head is asked to close and its
        window is unlinked (the existence check inside remWindow always
        finds the head). */
    method CloseHead()
      requires Valid() && winBuff.head != null
      modifies this, winBuff.Repr
      ensures Valid() && winBuff.Repr <= old(winBuff.Repr)
      ensures running == old(running)
      ensures winBuff.windows == Removed(old(winBuff.windows), old(winBuff.windows[0]))
      ensures log == old(log) + [SendDelete(old(winBuff.windows[0]))]
    {
      var window := winBuff.head.window;
      assert ExistsAsWritten(winBuff.windows, window);
      log := log + [SendDelete(window)];
      winBuff.RemWindow(window);
    }

    /** spawn: the child process is started with the binding's argv. */
    method Spawn(argv: seq<string>)
      requires Valid()
      modifies this
      ensures Valid()
      ensures State() == old(State()).(log := old(log) + [SpawnProcess(argv)])
    {
      log := log + [SpawnProcess(argv)];
    }

    /** Calls the function a binding names with its argument. */
    method RunBinding(a: Action)
      requires Valid()
      modifies this, winBuff, winBuff.Repr
      ensures Valid() && winBuff.Repr <= old(winBuff.Repr)
      ensures State() == RunAction(old(State()), a)
    {
      match a
      case Quit => Quit();
      case TabNextWindow => TabNextWindow();
      case CloseCurWindow => CloseCurWindow();
      case Spawn(argv) => Spawn(argv);
    }

    /** keyPressHandler: the first binding whose keysym and modifier mask
        both match is run, and no other. */
    method KeyPressHandler(ks: KeySym, state: ModMask)
      requires Valid()
      modifies this, winBuff, winBuff.Repr
      ensures Valid() && winBuff.Repr <= old(winBuff.Repr)
      ensures State() == KeyPressStep(old(State()), ks, state)
    {
      var i := FindBinding(Bindings, ks, state);
      if i.Some? {
        RunBinding(Bindings[i.value].action);
      }
    }

    /** mapRequestHandler: the window is mapped over the whole display
        and becomes the head. addWindow does not look for it first, so a
        window that is already managed gets a second entry. */
    method MapRequestHandler(w: Window)
      requires Valid()
      modifies this, winBuff.Repr
      ensures Valid() && fresh(winBuff.Repr - old(winBuff.Repr))
      ensures State() == MapRequestStep(old(State()), w)
    {
      log := log + [MapWindow(w), MoveResize(w, 0, 0, disWidth, disHeight)];
      winBuff.AddWindow(w);
      RefocusCurWindow();
    }

    /** mapRequestHandler with a membership check before addWindow: a
        managed window is mapped and resized again but not added twice. */
    method MapRequestHandlerFixed(w: Window)
      requires Valid()
      modifies this, winBuff.Repr
      ensures Valid() && fresh(winBuff.Repr - old(winBuff.Repr))
      ensures State() == MapRequestFixedStep(old(State()), w)
    {
      log := log + [MapWindow(w), MoveResize(w, 0, 0, disWidth, disHeight)];
      var found := winBuff.ChkWindowExistsFixed(w);
      if !found {
        winBuff.AddWindow(w);
      }
      RefocusCurWindow();
    }

    /** destroyNotifyHandler: a window chkWindowExists reports is
        unlinked and the new head focused; one it does not report (an
        untracked window, or the last entry of a chain of two or more)
        changes nothing. */
    method DestroyNotifyHandler(w: Window)
      requires Valid()
      modifies this, winBuff.Repr
      ensures Valid() && winBuff.Repr <= old(winBuff.Repr)
      ensures State() == DestroyNotifyStep(old(State()), w)
    {
      var found := winBuff.ChkWindowExists(w);
      if !found {
        return;
      }
      winBuff.RemWindow(w);
      RefocusCurWindow();
    }

    /** destroyNotifyHandler with the corrected existence check: every
        tracked window is unlinked and the new head focused. */
    method DestroyNotifyHandlerFixed(w: Window)
      requires Valid()
      modifies this, winBuff.Repr
      ensures Valid() && winBuff.Repr <= old(winBuff.Repr)
      ensures State() == DestroyNotifyFixedStep(old(State()), w)
    {
      var found := winBuff.ChkWindowExistsFixed(w);
      if !found {
        return;
      }
      winBuff.RemWindowFixed(w);
      RefocusCurWindow();
    }

    /** The body of loop: the handler evHandler holds for the event's
        type is called, if there is one; `v` picks the handlers as
        written or the corrected ones. */
    method HandleEvent(v: Variant, ev: XEvent)
      requires Valid()
      modifies this, winBuff, winBuff.Repr
      ensures Valid() && fresh(winBuff.Repr - old(winBuff.Repr))
      ensures State() == Step(v, old(State()), ev)
    {
      match EvHandler(ev.kind)
      case None =>
      case Some(OnKeyPress) => KeyPressHandler(ev.keysym, ev.state);
      case Some(OnMapRequest) =>
        if v == AsWritten {
          MapRequestHandler(ev.window);
        } else {
          MapRequestHandlerFixed(ev.window);
        }
      case Some(OnDestroyNotify) =>
        if v == AsWritten {
          DestroyNotifyHandler(ev.window);
        } else {
          DestroyNotifyHandlerFixed(ev.window);
        }
    }

    /** loop: handles the events in order while `running` holds. */
    method Loop(v: Variant, events: seq<XEvent>)
      requires Valid()
      modifies this, winBuff, winBuff.Repr
      ensures Valid() && fresh(winBuff.Repr - old(winBuff.Repr))
      ensures State() == Run(v, old(State()), events)
    {
      var i := 0;
      while running && i < |events|
        invariant 0 <= i <= |events|
        invariant Valid() && fresh(winBuff.Repr - old(winBuff.Repr))
        invariant Run(v, State(), events[i..]) == Run(v, old(State()), events)
        decreases |events| - i
      {
        assert events[i..][1..] == events[i + 1..];
        HandleEvent(v, events[i]);
        i := i + 1;
      }
    }
  }
}
