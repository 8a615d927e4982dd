/** The event translator of one tick (GameEvents): every raw window event is
    turned into updates of the key and button tables, the modifier flags, the
    run flags and the pointer state, and into requests for script callbacks.
    This module is the value-level specification; Game.Runtime.Events is the
    imperative drain proved against it. */
module Events {
  import opened Trace

  /** Size of the key-down table: the Count entry of the SFML 1.x key enumeration. */
  const KeyCount: nat := 321
  /** Size of the button-down table: the ButtonCount entry of the SFML 1.x mouse buttons. */
  const ButtonCount: nat := 5

  type Key = k: nat | k < KeyCount
  type Button = b: nat | b < ButtonCount

  // The key codes the translator tests for (SFML 1.x values).
  const Escape: Key := 256
  const LControl: Key := 257
  const LShift: Key := 258
  const LAlt: Key := 259
  const RControl: Key := 261
  const RShift: Key := 262
  const RAlt: Key := 263
  const F5: Key := 309

  datatype Modifier = Control | Shift | Alt

  /** Key k is the left or the right variant of modifier m. */
  predicate Operates(k: Key, m: Modifier)
  {
    match m
    case Control => k == LControl || k == RControl
    case Shift => k == LShift || k == RShift
    case Alt => k == LAlt || k == RAlt
  }

  datatype Event =
    | KeyPressed(key: Key)
    | KeyReleased(key: Key)
    | Closed
    | GainedFocus
    | LostFocus
    | MouseWheelMoved(delta: int)
    | MouseMoved(x: int, y: int)
    | MouseEntered
    | MouseLeft
    | MouseButtonPressed(button: Button)
    | MouseButtonReleased(button: Button)
    | Unhandled   // Resized, TextEntered and the joystick events

  /** The reset policy (gameButtonReset, gameKeyReset), read but never changed here. */
  datatype Policy = Policy(resetButtons: bool, resetKeys: bool)

  /** The state the translator updates: gameKeys, gameButtons, the modifier
      flags, gameRunning, gameReload, gameFocus, gameMouse and the pointer. */
  datatype State = State(
    keys: seq<bool>, buttons: seq<bool>,
    ctrl: bool, shift: bool, alt: bool,
    running: bool, reload: bool, focus: bool, pointerInside: bool,
    mouseX: int, mouseY: int, scroll: int)
  {
    predicate Valid()
    {
      |keys| == KeyCount && |buttons| == ButtonCount
    }
  }

  function Held(s: State, m: Modifier): bool
  {
    match m
    case Control => s.ctrl
    case Shift => s.shift
    case Alt => s.alt
  }

  /** A table with every entry up: what resetKeys(false) and resetButtons(false)
      leave behind. */
  function Cleared(n: nat): (r: seq<bool>)
    ensures |r| == n && forall i :: 0 <= i < n ==> !r[i]
  {
    if n == 0 then [] else Cleared(n - 1) + [false]
  }

  /** The events that make the frame loop stop after the current tick. */
  predicate StopsRunning(e: Event)
  {
    e == Closed || e == KeyPressed(Escape) || e == KeyPressed(F5)
  }

  predicate IsKeyEvent(e: Event)
  {
    e.KeyPressed? || e.KeyReleased?
  }

  predicate IsButtonEvent(e: Event)
  {
    e.MouseButtonPressed? || e.MouseButtonReleased?
  }

  /** Event e may change the down state of key k under policy p. */
  predicate TouchesKey(e: Event, k: Key, p: Policy)
  {
    (IsKeyEvent(e) && e.key == k) || (e.LostFocus? && p.resetKeys)
  }

  /** Event e may change the flag of modifier m. */
  predicate TouchesModifier(e: Event, m: Modifier)
  {
    IsKeyEvent(e) && Operates(e.key, m)
  }

  /** The Closed arm: the loop stops after this tick. */
  function Halt(s: State): (t: State)
    requires s.Valid()
    ensures t.Valid()
  {
    s.(running := false)
  }

  /** The GainedFocus arm. */
  function Focus(s: State): (t: State)
    requires s.Valid()
    ensures t.Valid()
  {
    s.(focus := true)
  }

  /** The MouseWheelMoved arm: the wheel delta replaces the previous one. */
  function Scroll(s: State, delta: int): (t: State)
    requires s.Valid()
    ensures t.Valid()
  {
    s.(scroll := delta)
  }

  /** The MouseMoved arm: the pointer position replaces the previous one. */
  function MoveTo(s: State, x: int, y: int): (t: State)
    requires s.Valid()
    ensures t.Valid()
  {
    s.(mouseX := x, mouseY := y)
  }

  /** The MouseEntered arm. */
  function Enter(s: State): (t: State)
    requires s.Valid()
    ensures t.Valid()
  {
    s.(pointerInside := true)
  }

  /** The KeyPressed arm: Escape and F5 stop the loop, F5 also asks for a
      reload; the key is marked down and a Ctrl, Shift or Alt variant sets its
      modifier flag. */
  function Press(s: State, k: Key): (t: State)
    requires s.Valid()
    ensures t.Valid()
  {
    s.(running := s.running && k != Escape && k != F5,
       reload := s.reload || k == F5,
       keys := s.keys[k := true],
       ctrl := s.ctrl || k == LControl || k == RControl,
       shift := s.shift || k == LShift || k == RShift,
       alt := s.alt || k == LAlt || k == RAlt)
  }

  /** The KeyReleased arm: the key is marked up and a Ctrl, Shift or Alt
      variant clears its modifier flag. */
  function Release(s: State, k: Key): (t: State)
    requires s.Valid()
    ensures t.Valid()
  {
    s.(keys := s.keys[k := false],
       ctrl := s.ctrl && k != LControl && k != RControl,
       shift := s.shift && k != LShift && k != RShift,
       alt := s.alt && k != LAlt && k != RAlt)
  }

  /** The LostFocus arm: focus is lost and, as the policy says, the button and
      the key tables are cleared. */
  function Blur(s: State, p: Policy): (t: State)
    requires s.Valid()
    ensures t.Valid()
  {
    s.(focus := false,
       buttons := if p.resetButtons then Cleared(ButtonCount) else s.buttons,
       keys := if p.resetKeys then Cleared(KeyCount) else s.keys)
  }

  /** The MouseLeft arm: the pointer is outside and, as the policy says, the
      button table is cleared; the key table is left alone. */
  function Leave(s: State, p: Policy): (t: State)
    requires s.Valid()
    ensures t.Valid()
  {
    s.(pointerInside := false,
       buttons := if p.resetButtons then Cleared(ButtonCount) else s.buttons)
  }

  /** The MouseButtonPressed and MouseButtonReleased arms: the button is
      marked down or up. */
  function SetButton(s: State, b: Button, down: bool): (t: State)
    requires s.Valid()
    ensures t.Valid()
  {
    s.(buttons := s.buttons[b := down])
  }

  /** One pass of the switch in GameEvents: the state after event e. */
  function Next(s: State, e: Event, p: Policy): (t: State)
    requires s.Valid()
    ensures t.Valid()
  {
    match e
    case KeyPressed(k) => Press(s, k)
    case KeyReleased(k) => Release(s, k)
    case Closed => Halt(s)
    case GainedFocus => Focus(s)
    case LostFocus => Blur(s, p)
    case MouseWheelMoved(d) => Scroll(s, d)
    case MouseMoved(x, y) => MoveTo(s, x, y)
    case MouseEntered => Enter(s)
    case MouseLeft => Leave(s, p)
    case MouseButtonPressed(b) => SetButton(s, b, true)
    case MouseButtonReleased(b) => SetButton(s, b, false)
    case Unhandled =>
      s
  }

  /** The run and pointer flags: only a close request, Escape or F5 stops
      the loop and only F5 asks for a reload; focus and pointer presence
      follow the focus and enter/leave events; the pointer position and the
      wheel delta are overwritten, never accumulated; an unhandled event
      changes nothing. */
  lemma Flags(s: State, e: Event, p: Policy)
    requires s.Valid()
    ensures Next(s, e, p).running <==> s.running && !StopsRunning(e)
    ensures Next(s, e, p).reload <==> s.reload || e == KeyPressed(F5)
    ensures Next(s, e, p).focus ==
      if e.GainedFocus? then true else if e.LostFocus? then false else s.focus
    ensures Next(s, e, p).pointerInside ==
      if e.MouseEntered? then true else if e.MouseLeft? then false else s.pointerInside
    ensures Next(s, e, p).mouseX == if e.MouseMoved? then e.x else s.mouseX
    ensures Next(s, e, p).mouseY == if e.MouseMoved? then e.y else s.mouseY
    ensures Next(s, e, p).scroll == if e.MouseWheelMoved? then e.delta else s.scroll
    ensures e.Unhandled? ==> Next(s, e, p) == s
  {
    match e
    case KeyPressed(k) =>
    case KeyReleased(k) =>
    case LostFocus =>
    case MouseLeft =>
    case _ =>
  }

  /** The key table: a press or release of k sets or clears entry k and no
      other; a lost focus clears the table when the policy says so; no other
      event touches it. */
  lemma KeyTable(s: State, e: Event, p: Policy)
    requires s.Valid()
    ensures var t := Next(s, e, p);
      (IsKeyEvent(e) ==>
        t.keys[e.key] == e.KeyPressed? &&
        forall k :: 0 <= k < KeyCount && k != e.key ==> t.keys[k] == s.keys[k]) &&
      (e.LostFocus? ==> t.keys == if p.resetKeys then Cleared(KeyCount) else s.keys) &&
      (!IsKeyEvent(e) && !e.LostFocus? ==> t.keys == s.keys)
  {
  }

  /** The button table: likewise for button events, and both a lost focus and
      the pointer leaving the window clear it when the policy says so. */
  lemma ButtonTable(s: State, e: Event, p: Policy)
    requires s.Valid()
    ensures var t := Next(s, e, p);
      (IsButtonEvent(e) ==>
        t.buttons[e.button] == e.MouseButtonPressed? &&
        forall b :: 0 <= b < ButtonCount && b != e.button ==> t.buttons[b] == s.buttons[b]) &&
      (e.LostFocus? || e.MouseLeft? ==>
        t.buttons == if p.resetButtons then Cleared(ButtonCount) else s.buttons) &&
      (!IsButtonEvent(e) && !e.LostFocus? && !e.MouseLeft? ==> t.buttons == s.buttons)
  {
  }

  /** The modifier flags: pressing either variant of a modifier sets its flag,
      releasing either variant clears it, and no other event changes it. */
  lemma ModifierFlags(s: State, e: Event, p: Policy, m: Modifier)
    requires s.Valid()
    ensures Held(Next(s, e, p), m) == if TouchesModifier(e, m) then e.KeyPressed? else Held(s, m)
  {
  }

  /** The callbacks the switch in GameEvents asks for on event e. */
  function Requests(e: Event): seq<Action>
  {
    match e
    case GainedFocus => [Call(OnFocus)]
    case LostFocus => [Call(OnBlur)]
    case MouseEntered => [Call(OnEnter)]
    case MouseLeft => [Call(OnLeave)]
    case _ => []
  }

  /** The callbacks asked for while draining the queue es, in queue order. */
  function RequestsOf(es: seq<Event>): seq<Action>
    decreases |es|
  {
    if es == [] then [] else Requests(es[0]) + RequestsOf(es[1..])
  }

  /** Only the four window callbacks are ever asked for, at most one per
      event. */
  lemma {:induction false} OnlyWindowCallbacks(es: seq<Event>)
    ensures var r := RequestsOf(es);
      |r| <= |es| &&
      forall a :: a in r ==> a in {Call(OnFocus), Call(OnBlur), Call(OnEnter), Call(OnLeave)}
    decreases |es|
  {
    if es != [] {
      OnlyWindowCallbacks(es[1..]);
    }
  }

  /** The state after draining the whole queue es, event by event. */
  function Drain(s: State, es: seq<Event>, p: Policy): (t: State)
    requires s.Valid()
    ensures t.Valid()
    decreases |es|
  {
    if es == [] then s else Drain(Next(s, es[0], p), es[1..], p)
  }

  /** Proof helper. A drain seen from event i on and after the actions done so far: event
      i, then the rest of the queue. */
  lemma DrainFrom(s: State, es: seq<Event>, i: nat, p: Policy, done: seq<Action>)
    requires s.Valid() && i < |es|
    ensures Drain(s, es[i..], p) == Drain(Next(s, es[i], p), es[i + 1..], p)
    ensures done + RequestsOf(es[i..]) == (done + Requests(es[i])) + RequestsOf(es[i + 1..])
  {
    assert es[i..][0] == es[i] && es[i..][1..] == es[i + 1..];
  }

  lemma {:induction false} DrainAppend(s: State, a: seq<Event>, b: seq<Event>, p: Policy)
    requires s.Valid()
    ensures Drain(s, a + b, p) == Drain(Drain(s, a, p), b, p)
    decreases |a|
  {
    if a == [] {
      assert a + b == b;
    } else {
      assert (a + b)[0] == a[0];
      assert (a + b)[1..] == a[1..] + b;
      DrainAppend(Next(s, a[0], p), a[1..], b, p);
    }
  }

  /** After a drain the loop is still running iff it was before and no event
      of the queue was a close request, an Escape press or an F5 press. */
  lemma {:induction false} DrainRunning(s: State, es: seq<Event>, p: Policy)
    requires s.Valid()
    ensures Drain(s, es, p).running <==> s.running && forall e :: e in es ==> !StopsRunning(e)
    decreases |es|
  {
    if es != [] {
      assert es == [es[0]] + es[1..];
      Flags(s, es[0], p);
      DrainRunning(Next(s, es[0], p), es[1..], p);
    }
  }

  /** A reload is requested after a drain iff it was before or F5 was pressed. */
  lemma {:induction false} DrainReload(s: State, es: seq<Event>, p: Policy)
    requires s.Valid()
    ensures Drain(s, es, p).reload <==> s.reload || KeyPressed(F5) in es
    decreases |es|
  {
    if es != [] {
      assert es == [es[0]] + es[1..];
      Flags(s, es[0], p);
      DrainReload(Next(s, es[0], p), es[1..], p);
    }
  }

  /** A key no event of the queue touches keeps its down state. */
  lemma {:induction false} DrainKeepsKey(s: State, es: seq<Event>, p: Policy, k: Key)
    requires s.Valid()
    requires forall e :: e in es ==> !TouchesKey(e, k, p)
    ensures Drain(s, es, p).keys[k] == s.keys[k]
    decreases |es|
  {
    if es != [] {
      assert es[0] in es;
      assert forall e :: e in es[1..] ==> e in es;
      KeyTable(s, es[0], p);
      DrainKeepsKey(Next(s, es[0], p), es[1..], p, k);
    }
  }

  /** The last press or release of key k in the queue decides its down state,
      provided no later lost focus clears the table. */
  lemma {:induction false} LastKeyEventDecides(s: State, es: seq<Event>, p: Policy, i: nat)
    requires s.Valid() && i < |es| && IsKeyEvent(es[i])
    requires forall e :: e in es[i + 1..] ==> !TouchesKey(e, es[i].key, p)
    ensures Drain(s, es, p).keys[es[i].key] == es[i].KeyPressed?
  {
    assert es == es[..i] + [es[i]] + es[i + 1..];
    DrainAppend(s, es[..i] + [es[i]], es[i + 1..], p);
    DrainAppend(s, es[..i], [es[i]], p);
    var before := Drain(s, es[..i], p);
    assert Drain(before, [es[i]], p) == Drain(Next(before, es[i], p), [], p);
    KeyTable(before, es[i], p);
    DrainKeepsKey(Next(before, es[i], p), es[i + 1..], p, es[i].key);
  }

  /** A modifier no key event of the queue operates keeps its flag. */
  lemma {:induction false} DrainKeepsModifier(s: State, es: seq<Event>, p: Policy, m: Modifier)
    requires s.Valid()
    requires forall e :: e in es ==> !TouchesModifier(e, m)
    ensures Held(Drain(s, es, p), m) == Held(s, m)
    decreases |es|
  {
    if es != [] {
      assert es[0] in es;
      assert forall e :: e in es[1..] ==> e in es;
      ModifierFlags(s, es[0], p, m);
      DrainKeepsModifier(Next(s, es[0], p), es[1..], p, m);
    }
  }

  /** The last press or release of either variant of a modifier decides its
      flag, whatever the other variant's key is doing. */
  lemma {:induction false} LastModifierEventDecides(s: State, es: seq<Event>, p: Policy, i: nat, m: Modifier)
    requires s.Valid() && i < |es| && TouchesModifier(es[i], m)
    requires forall e :: e in es[i + 1..] ==> !TouchesModifier(e, m)
    ensures Held(Drain(s, es, p), m) == es[i].KeyPressed?
  {
    assert es == es[..i] + [es[i]] + es[i + 1..];
    DrainAppend(s, es[..i] + [es[i]], es[i + 1..], p);
    DrainAppend(s, es[..i], [es[i]], p);
    var before := Drain(s, es[..i], p);
    assert Drain(before, [es[i]], p) == Drain(Next(before, es[i], p), [], p);
    ModifierFlags(before, es[i], p, m);
    DrainKeepsModifier(Next(before, es[i], p), es[i + 1..], p, m);
  }

  /** Holding both Ctrl keys and releasing the left one clears the Ctrl flag
      although the right Ctrl key is still down. */
  lemma CtrlClearedWhileOtherVariantHeld(s: State, p: Policy)
    requires s.Valid()
    ensures var t := Drain(s, [KeyPressed(LControl), KeyPressed(RControl), KeyReleased(LControl)], p);
            t.keys[RControl] && !t.ctrl
  {
    var s1 := Next(s, KeyPressed(LControl), p);
    var s2 := Next(s1, KeyPressed(RControl), p);
    var s3 := Next(s2, KeyReleased(LControl), p);
    KeyTable(s1, KeyPressed(RControl), p);
    KeyTable(s2, KeyReleased(LControl), p);
    ModifierFlags(s2, KeyReleased(LControl), p, Control);
    var es := [KeyPressed(LControl), KeyPressed(RControl), KeyReleased(LControl)];
    assert es[1..] == [KeyPressed(RControl), KeyReleased(LControl)];
    assert es[1..][1..] == [KeyReleased(LControl)];
    assert Drain(s2, [KeyReleased(LControl)], p) == Drain(s3, [], p);
  }

  /** A second lost focus in a row changes nothing the first did not. */
  lemma LostFocusIdempotent(s: State, p: Policy)
    requires s.Valid()
    ensures Next(Next(s, LostFocus, p), LostFocus, p) == Next(s, LostFocus, p)
  {
  }
}
