/** The frame loop (GameLoop, GameExit) over the runtime's state. The first
    half is the value-level specification of a run: what one tick does, the
    ticks a run performs and the shutdown that follows. The second half is
    the runtime itself, a class over the key and button tables and the flags
    that the source keeps in globals, whose methods are proved to do what the
    specification says. */
module Game {
  import opened Trace
  import opened Events
  import opened Sockets

  /** What the outside world supplies to one tick: the raw events queued in the
      window since the last drain, and whether the script calls exit()
      anywhere during this tick (from a callback or a socket handler). Nothing
      in a tick sets the running flag again, so the model clears it after
      onUpdate wherever the call was made. */
  datatype Tick = Tick(events: seq<Event>, scriptExits: bool)

  /** Tick t clears the running flag, so that it is the last tick of the run. */
  predicate Stops(t: Tick)
  {
    t.scriptExits || exists e :: e in t.events && StopsRunning(e)
  }

  /** The actions of one tick over the socket registry: the event drain, then
      the socket poll, then onUpdate, onDraw and the frame's display. */
  function TickTrace(t: Tick, registry: seq<int>): seq<Action>
  {
    [UpdateInput] + RequestsOf(t.events) + Handles(Serviced(registry)) +
    [Call(OnUpdate), Call(OnDraw), Display]
  }

  /** A tick starts with the event drain, asks only for window callbacks and
      socket handling in between, and ends with onUpdate, onDraw and the
      display, in that order: its actions come in phase order. */
  lemma TickInPhaseOrder(t: Tick, registry: seq<int>)
    ensures var r := TickTrace(t, registry);
      |r| >= 4 && InPhaseOrder(r) && r[0] == UpdateInput &&
      r[|r| - 3..] == [Call(OnUpdate), Call(OnDraw), Display] &&
      forall i :: 0 < i < |r| - 3 ==> Phase(r[i]) == 1 || Phase(r[i]) == 2
  {
    var requests := RequestsOf(t.events);
    var handles := Handles(Serviced(registry));
    var r := TickTrace(t, registry);
    var n, m := |requests|, |handles|;
    OnlyWindowCallbacks(t.events);
    HandlesEach(Serviced(registry));
    assert forall i :: 0 < i <= n ==> r[i] == requests[i - 1] && requests[i - 1] in requests;
    assert forall i :: n < i <= n + m ==> r[i] == handles[i - 1 - n];
    assert forall i :: 0 <= i < |r| ==>
      Phase(r[i]) == if i == 0 then 0 else if i <= n then 1 else if i <= n + m then 2
                     else 3 + (i - 1 - n - m);
  }

  /** Proof helper. A tick's actions appended after the actions done so far, one step at a
      time: the order in which GameLoop performs them. */
  lemma TickSteps(t: Tick, registry: seq<int>, done: seq<Action>)
    ensures done + TickTrace(t, registry) ==
      ((((done + [UpdateInput]) + RequestsOf(t.events)) + Handles(Serviced(registry)))
        + [Call(OnUpdate)] + [Call(OnDraw)]) + [Display]
  {
  }

  /** The runtime state after tick t: the drained state, with running cleared
      if the script called exit(). */
  function AfterTick(s: State, t: Tick, p: Policy): (u: State)
    requires s.Valid()
    ensures u.Valid()
  {
    var drained := Drain(s, t.events, p);
    if t.scriptExits then drained.(running := false) else drained
  }

  /** A tick leaves the loop running iff it was running and the tick holds no
      stop request. */
  lemma AfterTickRunning(s: State, t: Tick, p: Policy)
    requires s.Valid()
    ensures AfterTick(s, t, p).running <==> s.running && !Stops(t)
  {
    DrainRunning(s, t.events, p);
  }

  /** A run of the loop: the state it ends in, its actions and the number of
      ticks it performed. */
  datatype Outcome = Outcome(state: State, trace: seq<Action>, ticks: nat)

  /** The ticks of a run from state s, one per element of ticks while the
      running flag holds. The run stops early only once running is cleared,
      and performs no shutdown action. */
  function Run(s: State, ticks: seq<Tick>, registry: seq<int>, p: Policy): Outcome
    requires s.Valid()
    decreases |ticks|
  {
    if !s.running || ticks == [] then Outcome(s, [], 0)
    else
      var rest := Run(AfterTick(s, ticks[0], p), ticks[1..], registry, p);
      Outcome(rest.state, TickTrace(ticks[0], registry) + rest.trace, rest.ticks + 1)
  }

  /** A run performs at most one tick per element of ticks, and stops short
      only once the running flag is down. */
  lemma {:induction false} RunStopsOnlyWhenHalted(s: State, ticks: seq<Tick>, registry: seq<int>, p: Policy)
    requires s.Valid()
    ensures var o := Run(s, ticks, registry, p);
      o.ticks <= |ticks| && (o.ticks < |ticks| ==> !o.state.running)
    decreases |ticks|
  {
    if s.running && ticks != [] {
      RunStopsOnlyWhenHalted(AfterTick(s, ticks[0], p), ticks[1..], registry, p);
    }
  }

  /** Proof helper. A run from a running state with ticks left, seen from tick i on and
      after the actions done so far: tick i, then the run from the state it
      leaves. */
  lemma RunFrom(s: State, ticks: seq<Tick>, i: nat, registry: seq<int>, p: Policy, done: seq<Action>)
    requires s.Valid() && s.running && i < |ticks|
    ensures var rest := Run(AfterTick(s, ticks[i], p), ticks[i + 1..], registry, p);
      Run(s, ticks[i..], registry, p).state == rest.state &&
      done + Run(s, ticks[i..], registry, p).trace == (done + TickTrace(ticks[i], registry)) + rest.trace
  {
    assert ticks[i..][0] == ticks[i] && ticks[i..][1..] == ticks[i + 1..];
  }

  /** The ticks of a run contain no shutdown action. */
  lemma {:induction false} RunBeforeShutdown(s: State, ticks: seq<Tick>, registry: seq<int>, p: Policy)
    requires s.Valid()
    ensures forall a :: a in Run(s, ticks, registry, p).trace ==> Phase(a) <= Phase(Display)
    decreases |ticks|
  {
    if s.running && ticks != [] {
      var first := TickTrace(ticks[0], registry);
      TickInPhaseOrder(ticks[0], registry);
      forall a | a in first ensures Phase(a) <= Phase(Display) {
        var i :| 0 <= i < |first| && first[i] == a;
        assert Phase(first[i]) <= Phase(first[|first| - 1]);
      }
      RunBeforeShutdown(AfterTick(s, ticks[0], p), ticks[1..], registry, p);
    }
  }

  /** The shutdown sequence: every registered socket closed in registry order,
      then onExit, then the window closed. */
  function Shutdown(registry: seq<int>): seq<Action>
  {
    Closes(|registry|) + [Call(OnExit), CloseWindow]
  }

  /** Everything GameLoop does from state s: the ticks of the run and, once
      the running flag is down, the shutdown sequence. */
  function LoopTrace(s: State, ticks: seq<Tick>, registry: seq<int>, p: Policy): seq<Action>
    requires s.Valid()
  {
    var o := Run(s, ticks, registry, p);
    o.trace + if o.state.running then [] else Shutdown(registry)
  }

  /** A stop request (Escape, F5, a close event or exit() from the script)
      in tick j of a running loop, with none in earlier ticks: the loop
      finishes tick j, performs no further tick, and shuts down. */
  lemma {:induction false} StopRequestEndsRun(s: State, ticks: seq<Tick>, registry: seq<int>, p: Policy, j: nat)
    requires s.Valid() && s.running
    requires j < |ticks| && Stops(ticks[j])
    requires forall i :: 0 <= i < j ==> !Stops(ticks[i])
    ensures Run(s, ticks, registry, p).ticks == j + 1
    ensures !Run(s, ticks, registry, p).state.running
    ensures LoopTrace(s, ticks, registry, p) ==
            Run(s, ticks, registry, p).trace + Closes(|registry|) + [Call(OnExit), CloseWindow]
    decreases j
  {
    var next := AfterTick(s, ticks[0], p);
    AfterTickRunning(s, ticks[0], p);
    if j == 0 {
      assert !next.running;
      assert Run(next, ticks[1..], registry, p).ticks == 0;
    } else {
      assert !Stops(ticks[0]);
      assert forall i :: 0 <= i < j - 1 ==> ticks[1..][i] == ticks[i + 1];
      StopRequestEndsRun(next, ticks[1..], registry, p, j - 1);
    }
  }

  /** Without a stop request the loop performs every tick it is given and
      never shuts down. */
  lemma {:induction false} NoStopKeepsRunning(s: State, ticks: seq<Tick>, registry: seq<int>, p: Policy)
    requires s.Valid() && s.running
    requires forall t :: t in ticks ==> !Stops(t)
    ensures Run(s, ticks, registry, p).ticks == |ticks|
    ensures Run(s, ticks, registry, p).state.running
    ensures Call(OnExit) !in LoopTrace(s, ticks, registry, p)
    decreases |ticks|
  {
    RunBeforeShutdown(s, ticks, registry, p);
    if ticks != [] {
      assert ticks[0] in ticks;
      assert forall t :: t in ticks[1..] ==> t in ticks;
      AfterTickRunning(s, ticks[0], p);
      NoStopKeepsRunning(AfterTick(s, ticks[0], p), ticks[1..], registry, p);
    }
  }

  /** The shutdown sequence closes the sockets first, then calls onExit,
      then closes the window. */
  lemma ShutdownPhases(registry: seq<int>)
    ensures |Shutdown(registry)| == |registry| + 2
    ensures forall i :: 0 <= i < |Shutdown(registry)| ==>
      Phase(Shutdown(registry)[i]) == if i < |registry| then 6 else if i == |registry| then 7 else 8
  {
    ClosesEach(|registry|);
  }

  /** Once the first socket is closed no action of a tick follows, and the
      shutdown actions come in their order: the sockets, onExit, the window. */
  lemma ShutdownComesLast(s: State, ticks: seq<Tick>, registry: seq<int>, p: Policy)
    requires s.Valid()
    ensures forall i, j ::
      (0 <= i < j < |LoopTrace(s, ticks, registry, p)| &&
       Phase(LoopTrace(s, ticks, registry, p)[i]) >= Phase(CloseSocket(0))) ==>
      Phase(LoopTrace(s, ticks, registry, p)[i]) <= Phase(LoopTrace(s, ticks, registry, p)[j])
  {
    var o := Run(s, ticks, registry, p);
    var tr := LoopTrace(s, ticks, registry, p);
    var n := |o.trace|;
    RunBeforeShutdown(s, ticks, registry, p);
    forall i | 0 <= i < n ensures Phase(tr[i]) <= Phase(Display) {
      assert tr[i] == o.trace[i] && o.trace[i] in o.trace;
    }
    if !o.state.running {
      var down := Shutdown(registry);
      ShutdownPhases(registry);
      forall i | n <= i < |tr| ensures tr[i] == down[i - n] {
      }
    }
  }

  /** Sets every entry of a key or button table to up: the effect assumed of
      resetKeys(false) and resetButtons(false). */
  method ClearAll(a: array<bool>)
    modifies a
    ensures a[..] == Cleared(a.Length)
  {
    for i := 0 to a.Length
      invariant forall j :: 0 <= j < i ==> !a[j]
    {
      a[i] := false;
    }
  }

  /** The runtime's globals: the key and button tables, the modifier, run and
      pointer flags, the reset policy, the socket registry (status codes) and
      the actions performed so far. */
  class Runtime {
    const keys: array<bool>       // gameKeys
    const buttons: array<bool>    // gameButtons
    var ctrl: bool                // gameKeyControl
    var shift: bool               // gameKeyShift
    var alt: bool                 // gameKeyAlt
    var running: bool             // gameRunning
    var reload: bool              // gameReload
    var focus: bool               // gameFocus
    var pointerInside: bool       // gameMouse
    var mouseX: int               // gameMouseX
    var mouseY: int               // gameMouseY
    var scroll: int               // gameMouseScroll
    const keyReset: bool          // gameKeyReset
    const buttonReset: bool       // gameButtonReset
    const sockets: seq<int>       // the status of each registered socket
    var trace: seq<Action>

    ghost predicate Valid()
    {
      keys.Length == KeyCount && buttons.Length == ButtonCount
    }

    /** The translator's view of the runtime. */
    function Snapshot(): (s: State)
      reads this, keys, buttons
      requires Valid()
      ensures s.Valid()
    {
      State(keys[..], buttons[..], ctrl, shift, alt, running, reload, focus, pointerInside,
            mouseX, mouseY, scroll)
    }

    function ResetPolicy(): Policy
    {
      Policy(buttonReset, keyReset)
    }

    /** The runtime as GameCreate leaves it: running, every key and button up. */
    constructor (keyReset: bool, buttonReset: bool, registry: seq<int>)
      ensures Valid() && fresh(keys) && fresh(buttons)
      ensures Snapshot() == State(Cleared(KeyCount), Cleared(ButtonCount), false, false, false,
                                  true, false, false, false, 0, 0, 0)
      ensures ResetPolicy() == Policy(buttonReset, keyReset)
      ensures sockets == registry && trace == []
    {
      keys := new bool[KeyCount](_ => false);
      buttons := new bool[ButtonCount](_ => false);
      ctrl, shift, alt := false, false, false;
      running, reload, focus, pointerInside := true, false, false, false;
      mouseX, mouseY, scroll := 0, 0, 0;
      this.keyReset, this.buttonReset := keyReset, buttonReset;
      sockets, trace := registry, [];
    }

    /** The KeyPressed arm of the switch in GameEvents. */
    method PressKey(k: Key)
      requires Valid()
      modifies this, keys
      ensures Valid()
      ensures Snapshot() == Press(old(Snapshot()), k)
      ensures trace == old(trace)
    {
      if k == Escape {
        running := false;
      } else if k == F5 {
        running := false;
        reload := true;
      }
      keys[k] := true;
      if k == LControl || k == RControl {
        ctrl := true;
      }
      if k == LShift || k == RShift {
        shift := true;
      }
      if k == LAlt || k == RAlt {
        alt := true;
      }
    }

    /** The KeyReleased arm of the switch in GameEvents. */
    method ReleaseKey(k: Key)
      requires Valid()
      modifies this, keys
      ensures Valid()
      ensures Snapshot() == Release(old(Snapshot()), k)
      ensures trace == old(trace)
    {
      keys[k] := false;
      if k == LControl || k == RControl {
        ctrl := false;
      }
      if k == LShift || k == RShift {
        shift := false;
      }
      if k == LAlt || k == RAlt {
        alt := false;
      }
    }

    /** The Closed arm of the switch in GameEvents. */
    method RequestClose()
      requires Valid()
      modifies this
      ensures Valid()
      ensures Snapshot() == Halt(old(Snapshot()))
      ensures trace == old(trace)
    {
      running := false;
    }

    /** The GainedFocus arm of the switch in GameEvents. */
    method GainFocus()
      requires Valid()
      modifies this
      ensures Valid()
      ensures Snapshot() == Focus(old(Snapshot()))
      ensures trace == old(trace) + [Call(OnFocus)]
    {
      focus := true;
      trace := trace + [Call(OnFocus)];
    }

    /** The LostFocus arm of the switch in GameEvents. */
    method LoseFocus()
      requires Valid()
      modifies this, keys, buttons
      ensures Valid()
      ensures Snapshot() == Blur(old(Snapshot()), ResetPolicy())
      ensures trace == old(trace) + [Call(OnBlur)]
    {
      focus := false;
      if buttonReset {
        ClearAll(buttons);
      }
      if keyReset {
        ClearAll(keys);
      }
      trace := trace + [Call(OnBlur)];
    }

    /** The MouseWheelMoved arm of the switch in GameEvents. */
    method ScrollWheel(d: int)
      requires Valid()
      modifies this
      ensures Valid()
      ensures Snapshot() == Scroll(old(Snapshot()), d)
      ensures trace == old(trace)
    {
      scroll := d;
    }

    /** The MouseMoved arm of the switch in GameEvents. */
    method MovePointer(x: int, y: int)
      requires Valid()
      modifies this
      ensures Valid()
      ensures Snapshot() == MoveTo(old(Snapshot()), x, y)
      ensures trace == old(trace)
    {
      mouseX, mouseY := x, y;
    }

    /** The MouseEntered arm of the switch in GameEvents. */
    method PointerEntered()
      requires Valid()
      modifies this
      ensures Valid()
      ensures Snapshot() == Enter(old(Snapshot()))
      ensures trace == old(trace) + [Call(OnEnter)]
    {
      pointerInside := true;
      trace := trace + [Call(OnEnter)];
    }

    /** The MouseLeft arm of the switch in GameEvents. */
    method PointerLeft()
      requires Valid()
      modifies this, buttons
      ensures Valid()
      ensures Snapshot() == Leave(old(Snapshot()), ResetPolicy())
      ensures trace == old(trace) + [Call(OnLeave)]
    {
      pointerInside := false;
      if buttonReset {
        ClearAll(buttons);
      }
      trace := trace + [Call(OnLeave)];
    }

    /** The MouseButtonPressed and MouseButtonReleased arms of the switch in
        GameEvents: the button is marked down or up. */
    method MarkButton(b: Button, down: bool)
      requires Valid()
      modifies buttons
      ensures Valid()
      ensures Snapshot() == SetButton(old(Snapshot()), b, down)
      ensures trace == old(trace)
    {
      buttons[b] := down;
    }

    /** One pass of the switch in GameEvents. */
    method Translate(e: Event)
      requires Valid()
      modifies this, keys, buttons
      ensures Valid()
      ensures Snapshot() == Next(old(Snapshot()), e, ResetPolicy())
      ensures trace == old(trace) + Requests(e)
    {
      match e
      case KeyPressed(k) =>
        PressKey(k);
      case KeyReleased(k) =>
        ReleaseKey(k);
      case Closed =>
        RequestClose();
      case GainedFocus =>
        GainFocus();
      case LostFocus =>
        LoseFocus();
      case MouseWheelMoved(d) =>
        ScrollWheel(d);
      case MouseMoved(x, y) =>
        MovePointer(x, y);
      case MouseEntered =>
        PointerEntered();
      case MouseLeft =>
        PointerLeft();
      case MouseButtonPressed(b) =>
        MarkButton(b, true);
      case MouseButtonReleased(b) =>
        MarkButton(b, false);
      case Unhandled =>
    }

    /** The event loop of GameEvents: every event of the queue, in order. */
    method DrainQueue(queue: seq<Event>)
      requires Valid()
      modifies this, keys, buttons
      ensures Valid()
      ensures Snapshot() == Drain(old(Snapshot()), queue, ResetPolicy())
      ensures trace == old(trace) + RequestsOf(queue)
    {
      ghost var drained := Drain(Snapshot(), queue, ResetPolicy());
      ghost var whole := old(trace) + RequestsOf(queue);
      var i := 0;
      while i < |queue|
        invariant Valid() && 0 <= i <= |queue|
        invariant drained == Drain(Snapshot(), queue[i..], ResetPolicy())
        invariant whole == trace + RequestsOf(queue[i..])
      {
        DrainFrom(Snapshot(), queue, i, ResetPolicy(), trace);
        Translate(queue[i]);
        i := i + 1;
      }
      assert queue[i..] == [];
    }

    /** GameEvents: updateInput(), then the drain of the window's queue. */
    method DrainEvents(queue: seq<Event>)
      requires Valid()
      modifies this, keys, buttons
      ensures Valid()
      ensures Snapshot() == Drain(old(Snapshot()), queue, ResetPolicy())
      ensures trace == old(trace) + [UpdateInput] + RequestsOf(queue)
    {
      trace := trace + [UpdateInput];
      DrainQueue(queue);
    }

    /** GameSockets: handle() on every registered socket that is ready. */
    method PollSockets()
      modifies this`trace
      ensures trace == old(trace) + Handles(Serviced(sockets))
    {
      for i := 0 to |sockets|
        invariant trace == old(trace) + Handles(Serviced(sockets[..i]))
      {
        ghost var polled := sockets[..i + 1];
        ghost var before := Serviced(sockets[..i]);
        assert polled[..i] == sockets[..i];
        if sockets[i] > 0 && sockets[i] != Closing {
          trace := trace + [Handle(i)];
          assert Serviced(polled) == before + [i];
          assert (before + [i])[..|before|] == before;
          assert old(trace) + Handles(before + [i]) == (old(trace) + Handles(before)) + [Handle(i)];
        } else {
          assert Serviced(polled) == before;
        }
      }
      assert sockets[..|sockets|] == sockets;
    }

    /** The socket closing at the end of GameLoop: close() on every registered
        socket, whatever its status, in registry order. */
    method CloseSockets()
      modifies this`trace
      ensures trace == old(trace) + Closes(|sockets|)
    {
      for i := 0 to |sockets|
        invariant trace == old(trace) + Closes(i)
      {
        trace := trace + [CloseSocket(i)];
        assert Closes(i + 1) == Closes(i) + [CloseSocket(i)];
      }
    }

    /** GameExit: the script's exit() only clears the running flag. */
    method Exit()
      modifies this`running
      ensures !running
    {
      running := false;
    }

    /** One iteration of the loop in GameLoop: the event drain, the socket
        poll, onUpdate (whose frame-time argument is not modelled), onDraw and
        the display of the frame. */
    method RunTick(t: Tick)
      requires Valid()
      modifies this, keys, buttons
      ensures Valid()
      ensures Snapshot() == AfterTick(old(Snapshot()), t, ResetPolicy())
      ensures trace == old(trace) + TickTrace(t, sockets)
    {
      ghost var drained := Drain(Snapshot(), t.events, ResetPolicy());
      TickSteps(t, sockets, trace);
      DrainEvents(t.events);
      PollSockets();
      trace := trace + [Call(OnUpdate)];
      if t.scriptExits {
        Exit();
      }
      trace := trace + [Call(OnDraw)];
      trace := trace + [Display];
      assert Snapshot() == if t.scriptExits then drained.(running := false) else drained;
    }

    /** The end of GameLoop: every socket closed, onExit, the window closed. */
    method CloseDown()
      modifies this`trace
      ensures trace == old(trace) + Shutdown(sockets)
    {
      CloseSockets();
      trace := trace + [Call(OnExit)];
      trace := trace + [CloseWindow];
    }

    /** The loop of GameLoop, over the ticks the outside world supplies: one
        tick while the running flag holds and ticks remain. */
    method Ticks(ticks: seq<Tick>)
      requires Valid()
      modifies this, keys, buttons
      ensures Valid()
      ensures Snapshot() == Run(old(Snapshot()), ticks, sockets, ResetPolicy()).state
      ensures trace == old(trace) + Run(old(Snapshot()), ticks, sockets, ResetPolicy()).trace
    {
      ghost var final := Run(Snapshot(), ticks, sockets, ResetPolicy());
      ghost var whole := old(trace) + final.trace;
      var i := 0;
      while running && i < |ticks|
        invariant Valid() && 0 <= i <= |ticks|
        invariant final.state == Run(Snapshot(), ticks[i..], sockets, ResetPolicy()).state
        invariant whole == trace + Run(Snapshot(), ticks[i..], sockets, ResetPolicy()).trace
      {
        RunFrom(Snapshot(), ticks, i, sockets, ResetPolicy(), trace);
        RunTick(ticks[i]);
        i := i + 1;
      }
      assert i == |ticks| ==> ticks[i..] == [];
    }

    /** GameLoop: the ticks, then, once the running flag is down, the shutdown
        sequence. */
    method Loop(ticks: seq<Tick>)
      requires Valid()
      modifies this, keys, buttons
      ensures Valid()
      ensures Snapshot() == Run(old(Snapshot()), ticks, sockets, ResetPolicy()).state
      ensures trace == old(trace) + LoopTrace(old(Snapshot()), ticks, sockets, ResetPolicy())
    {
      Ticks(ticks);
      if !running {
        CloseDown();
      }
    }
  }
}
