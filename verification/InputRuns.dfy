/** All interleavings of the message thread with the frame thread. */
module InputRuns {
  import opened Prelude
  import opened InputQueue

  /** Post runs on the message thread, Apply and Count are the two halves of a
      frame, Reset is a device reset that releases all keys. */
  datatype Action = Post(message: Message) | Apply | Count(sample: Sample) | Reset

  function Act(s: State, a: Action): (r: State)
    requires StateOk(s)
    ensures StateOk(r)
  {
    match a
    case Post(m) =>
      PostedOk(s, m);
      Posted(s, m)
    case Apply => Popped(s)
    case Count(sample) => Advanced(s, sample)
    case Reset => Released(s)
  }

  function Run(s: State, actions: seq<Action>): (r: State)
    requires StateOk(s)
    ensures StateOk(r)
    decreases |actions|
  {
    if actions == [] then s else Run(Act(s, actions[0]), actions[1..])
  }

  /** The frame thread alternates its two halves; `mid` says it is between them. */
  predicate Interleaving(actions: seq<Action>, mid: bool) {
    actions == [] ||
    match actions[0]
    case Apply => !mid && Interleaving(actions[1..], true)
    case Count(_) => mid && Interleaving(actions[1..], false)
    case _ => Interleaving(actions[1..], mid)
  }

  /** In the middle of a frame there is at most one batch, and it is the current
      frame's; elsewhere there are at most two, the second being the current
      frame's. */
  predicate Bounded(s: State, mid: bool) {
    && |s.events| <= (if mid then 1 else 2)
    && (|s.events| == (if mid then 1 else 2) ==> s.frame == s.lastFrame)
  }

  function MidAfter(actions: seq<Action>, mid: bool): bool {
    if actions == [] then mid
    else MidAfter(actions[1..], if actions[0].Apply? then true else if actions[0].Count? then false else mid)
  }

  /** The queue never holds more than two batches, in any interleaving and even
      across a wrap of the 64-bit frame counter. */
  lemma {:induction false} QueueIsBounded(s: State, actions: seq<Action>, mid: bool)
    requires StateOk(s) && Bounded(s, mid) && Interleaving(actions, mid)
    ensures Bounded(Run(s, actions), MidAfter(actions, mid)) && |Run(s, actions).events| <= 2
    decreases |actions|
  {
    if actions != [] {
      var a := actions[0];
      QueueIsBounded(Act(s, a), actions[1..], if a.Apply? then true else if a.Count? then false else mid);
    }
  }

  /** Two batches do occur: a message in the middle of a frame that found the
      queue empty, and another one after the frame. */
  lemma TwoBatchesOccur(s: State, sample: Sample)
    requires StateOk(s) && s.events == [] && s.frame + 1 < FRAME_MODULUS
    ensures Bounded(s, true) && |Act(Act(Act(s, Post(Other)), Count(sample)), Post(Other)).events| == 2
  {
    var s1 := Act(s, Post(Other));
    assert |s1.events| == 1 && s1.lastFrame == s1.frame;
    var s2 := Act(s1, Count(sample));
    assert s2.events == s1.events && s2.frame == s1.frame + 1;
  }

  // ----- what a message does to the input state -----

  /** Left, right and middle are 0, 1 and 2; the X buttons, told apart by the high
      half of the parameter, are 3 and 4. */
  function ButtonNumber(b: MouseButton, w: nat): (n: nat)
    ensures n < 5
  {
    match b
    case Left => 0
    case Right => 1
    case Middle => 2
    case Extra => if w / 65536 % 65536 == 1 then 3 else 4
  }

  /** The high half of the parameter as a signed 16-bit number. */
  function Delta(w: nat): real {
    var high := w / 65536 % 65536;
    (if high < 32768 then high else high - 65536) as real
  }

  lemma CodesAreNumbers(b: MouseButton, w: nat)
    ensures ButtonCode(b, w) == ButtonNumber(b, w) && Notches(w) == Delta(w) / 120.0
  {
  }

  lemma OnlyPress(down: seq<bool>, p: Press)
    requires p.code < |down|
    ensures Pressed(down, [p]) == down[p.code := p.down]
  {
    assert [p][1..] == [];
  }

  lemma KeysPressed(down: seq<bool>, m: Message)
    requires |down| == KEY_COUNT
    ensures PressesOk(KeysIn(m), KEY_COUNT)
    ensures Pressed(down, KeysIn(m)) ==
      if (m.KeyDown? || m.KeyUp?) && m.wParam < 256 then down[m.wParam := m.KeyDown?] else down
  {
    if (m.KeyDown? || m.KeyUp?) && m.wParam < 256 {
      OnlyPress(down, Press(m.wParam, m.KeyDown?));
    }
  }

  lemma ButtonsPressed(down: seq<bool>, m: Message)
    requires |down| == BUTTON_COUNT
    ensures PressesOk(ButtonsIn(m), BUTTON_COUNT)
    ensures Pressed(down, ButtonsIn(m)) ==
      if m.ButtonDown? || m.ButtonUp? then down[ButtonNumber(m.button, m.wParam) := m.ButtonDown?] else down
  {
    if m.ButtonDown? || m.ButtonUp? {
      CodesAreNumbers(m.button, m.wParam);
      var code := ButtonCode(m.button, m.wParam);
      OnlyPress(down, Press(code, m.ButtonDown?));
      assert ButtonsIn(m) == [Press(code, m.ButtonDown?)];
    }
  }

  /** A message posted to an empty queue and applied: each changes its own part of
      the input state and no other. */
  lemma MessageReachesInput(s: State, m: Message)
    requires StateOk(s) && s.events == []
    ensures var r := Run(s, [Post(m), Apply]);
      && r.events == [] && r.frame == s.frame
      && r.keysDown == (
           match m
           case KeyDown(w) => if w < 256 then s.keysDown[w := true] else s.keysDown
           case KeyUp(w) => if w < 256 then s.keysDown[w := false] else s.keysDown
           case KillFocus => seq(256, i => false)
           case _ => s.keysDown)
      && r.mouseDown == (
           match m
           case ButtonDown(b, w) => s.mouseDown[ButtonNumber(b, w) := true]
           case ButtonUp(b, w) => s.mouseDown[ButtonNumber(b, w) := false]
           case KillFocus => [false, false, false, false, false]
           case _ => s.mouseDown)
      && r.chars == s.chars + (if m.Char? && 0 < m.wParam < 65536 then [m.wParam] else [])
      && r.wheel == s.wheel + (if m.Wheel? then Delta(m.wParam) / 120.0 else 0.0)
      && r.wheelH == s.wheelH + (if m.WheelH? then Delta(m.wParam) / 120.0 else 0.0)
      && (if m.KillFocus? then r.modifiers == Modifiers(false, false, false, false) && r.mousePos == Some((0, 0))
          else r.modifiers == s.modifiers && r.mousePos == s.mousePos)
  {
    var p := Act(s, Post(m));
    assert [Post(m), Apply][1..] == [Apply] && [Apply][1..] == [];
    assert Run(s, [Post(m), Apply]) == Act(p, Apply);
    assert p.events == [Add(EMPTY_BATCH, m)];
    assert Add(EMPTY_BATCH, m).keys == KeysIn(m) && Add(EMPTY_BATCH, m).buttons == ButtonsIn(m);
    KeysPressed(p.keysDown, m);
    ButtonsPressed(p.mouseDown, m);
    if m.Wheel? || m.WheelH? {
      CodesAreNumbers(Left, m.wParam);
    }
  }

  /** A frame takes the modifiers from the system and from the left, right and
      neutral keys, and the mouse position from the system. */
  lemma FrameReadsModifiers(s: State, sample: Sample)
    requires StateOk(s)
    ensures var (r, down) := (Act(s, Count(sample)), s.keysDown);
      && (r.modifiers.ctrl <==> sample.ctrl || down[0x11] || down[0xA2] || down[0xA3])
      && (r.modifiers.shift <==> sample.shift || down[0x10] || down[0xA0] || down[0xA1])
      && (r.modifiers.alt <==> sample.alt || down[0x12] || down[0xA4] || down[0xA5])
      && !r.modifiers.super && r.mousePos == sample.mouse && r.keysDown == down
      && r.frame == (s.frame + 1) % 0x1_0000_0000_0000_0000
  {
    var down := s.keysDown;
    AnyOfThree(down, VK_CONTROL, VK_LCONTROL, VK_RCONTROL);
    AnyOfThree(down, VK_SHIFT, VK_LSHIFT, VK_RSHIFT);
    AnyOfThree(down, VK_MENU, VK_LMENU, VK_RMENU);
  }

  lemma AnyOfThree(down: seq<bool>, a: nat, b: nat, c: nat)
    requires a < |down| && b < |down| && c < |down|
    ensures AnyDown(down, [a, b, c]) <==> down[a] || down[b] || down[c]
  {
    assert a in [a, b, c] && b in [a, b, c] && c in [a, b, c];
  }

  // ----- conservation, for any channel of the batches -----

  /** A channel: what it takes from a message and where a batch keeps it. */
  datatype Channel<!T> = Channel(of: Batch -> seq<T>, from: Message -> seq<T>)

  ghost predicate Appends<T(!new)>(c: Channel<T>) {
    c.of(EMPTY_BATCH) == [] && forall b, m :: c.of(Add(b, m)) == c.of(b) + c.from(m)
  }

  function Queued<T>(c: Channel<T>, events: seq<Batch>): seq<T> {
    if events == [] then [] else c.of(events[0]) + Queued(c, events[1..])
  }

  function PostedBy<T>(c: Channel<T>, a: Action): seq<T> {
    if a.Post? then c.from(a.message) else []
  }

  function PostedIn<T>(c: Channel<T>, actions: seq<Action>): seq<T> {
    if actions == [] then [] else PostedBy(c, actions[0]) + PostedIn(c, actions[1..])
  }

  /** What an Apply step hands over. */
  function DeliveredBy<T>(c: Channel<T>, s: State, a: Action): seq<T> {
    if a.Apply? && s.events != [] then c.of(s.events[0]) else []
  }

  function Delivered<T>(c: Channel<T>, s: State, actions: seq<Action>): seq<T>
    requires StateOk(s)
    decreases |actions|
  {
    if actions == [] then []
    else DeliveredBy(c, s, actions[0]) + Delivered(c, Act(s, actions[0]), actions[1..])
  }

  lemma {:induction false} QueuedConcat<T>(c: Channel<T>, a: seq<Batch>, b: seq<Batch>)
    ensures Queued(c, a + b) == Queued(c, a) + Queued(c, b)
  {
    if a == [] {
      assert a + b == b;
    } else {
      assert (a + b)[1..] == a[1..] + b;
      QueuedConcat(c, a[1..], b);
    }
  }

  lemma QueuedSnoc<T>(c: Channel<T>, a: seq<Batch>, b: Batch)
    ensures Queued(c, a + [b]) == Queued(c, a) + c.of(b)
  {
    QueuedConcat(c, a, [b]);
    assert Queued(c, [b]) == c.of(b) + Queued(c, [b][1..]) == c.of(b);
  }

  /** The queue after a message: one more batch, or the last one extended. */
  lemma PostedEvents(s: State, m: Message) returns (front: seq<Batch>, last: Batch)
    ensures Posted(s, m).events == front + [Add(last, m)]
    ensures Opened(s).events == front + [last]
    ensures (front == s.events && last == EMPTY_BATCH) || s.events == front + [last]
  {
    var o := Opened(s);
    var n := |o.events| - 1;
    front, last := o.events[..n], o.events[n];
  }

  /** A message adds its items at the end of the queue. */
  lemma PostAppends<T(!new)>(c: Channel<T>, s: State, m: Message)
    requires Appends(c)
    ensures Queued(c, Posted(s, m).events) == Queued(c, s.events) + c.from(m)
  {
    var front, last := PostedEvents(s, m);
    QueuedSnoc(c, front, Add(last, m));
    assert c.of(Add(last, m)) == c.of(last) + c.from(m);
    if s.events == front + [last] {
      QueuedSnoc(c, front, last);
    }
  }

  lemma ActConserves<T(!new)>(c: Channel<T>, s: State, a: Action)
    requires StateOk(s) && Appends(c)
    ensures Queued(c, s.events) + PostedBy(c, a) == DeliveredBy(c, s, a) + Queued(c, Act(s, a).events)
  {
    var q := Queued(c, s.events);
    assert q + [] == q && [] + q == q;
    if a.Post? {
      PostAppends(c, s, a.message);
      assert [] + Queued(c, Act(s, a).events) == Queued(c, Act(s, a).events);
    }
  }

  /** Nothing is lost, duplicated or reordered within a channel. */
  lemma {:induction false} Conserved<T(!new)>(c: Channel<T>, s: State, actions: seq<Action>)
    requires StateOk(s) && Appends(c)
    ensures Queued(c, s.events) + PostedIn(c, actions) ==
      Delivered(c, s, actions) + Queued(c, Run(s, actions).events)
    decreases |actions|
  {
    var q, r := Queued(c, s.events), Queued(c, Run(s, actions).events);
    if actions == [] {
      assert q + [] == q && [] + r == r;
    } else {
      var a, rest := actions[0], actions[1..];
      var s' := Act(s, a);
      ActConserves(c, s, a);
      Conserved(c, s', rest);
      Regroup(q, PostedBy(c, a), PostedIn(c, rest), DeliveredBy(c, s, a), Queued(c, s'.events),
              Delivered(c, s', rest), r);
    }
  }

  lemma Regroup<T>(q: seq<T>, f: seq<T>, p: seq<T>, h: seq<T>, q': seq<T>, d: seq<T>, r: seq<T>)
    requires q + f == h + q' && q' + p == d + r
    ensures q + (f + p) == (h + d) + r
  {
    assert q + (f + p) == (q + f) + p == h + (q' + p);
    assert (h + d) + r == h + (d + r);
  }

  function Applies(actions: seq<Action>): nat {
    if actions == [] then 0 else (if actions[0].Apply? then 1 else 0) + Applies(actions[1..])
  }

  /** As many Apply steps as there are batches deliver all that is queued. */
  lemma {:induction false} AppliesDeliver<T(!new)>(c: Channel<T>, s: State, actions: seq<Action>, n: nat)
    requires StateOk(s) && Appends(c) && n <= |s.events| && n <= Applies(actions)
    ensures Queued(c, s.events[..n]) <= Delivered(c, s, actions)
    decreases |actions|
  {
    if actions != [] {
      var a := actions[0];
      var n' := if a.Apply? && 0 < n then n - 1 else n;
      var s' := Act(s, a);
      if a.Apply? && n == 0 {
        assert s.events[..0] == [];
      } else {
        ActKeepsFront(c, s, a, n);
        AppliesDeliver(c, s', actions[1..], n');
        PrefixChain(Queued(c, s.events[..n]), DeliveredBy(c, s, a), Queued(c, s'.events[..n']),
                    Delivered(c, s', actions[1..]));
      }
    }
  }

  lemma PrefixChain<T>(x: seq<T>, h: seq<T>, y: seq<T>, d: seq<T>)
    requires x <= h + y && y <= d
    ensures x <= h + d
  {
    assert h + d == (h + y) + d[|y|..];
  }

  /** An action delivers the first batch or leaves the first n in front. */
  lemma ActKeepsFront<T(!new)>(c: Channel<T>, s: State, a: Action, n: nat)
    requires StateOk(s) && Appends(c) && n <= |s.events| && !(a.Apply? && n == 0)
    ensures var n' := if a.Apply? then n - 1 else n;
      && n' <= |Act(s, a).events|
      && Queued(c, s.events[..n]) <= DeliveredBy(c, s, a) + Queued(c, Act(s, a).events[..n'])
  {
    if a.Post? {
      PostKeepsFront(c, s, a.message, n);
      var q := Queued(c, Act(s, a).events[..n]);
      assert [] + q == q;
    } else if a.Apply? {
      assert s.events[..n][1..] == Act(s, a).events[..n - 1];
    } else {
      assert [] + Queued(c, s.events[..n]) == Queued(c, s.events[..n]);
    }
  }

  lemma PostKeepsFront<T(!new)>(c: Channel<T>, s: State, m: Message, n: nat)
    requires Appends(c) && n <= |s.events|
    ensures n <= |Posted(s, m).events|
    ensures Queued(c, s.events[..n]) <= Queued(c, Posted(s, m).events[..n])
  {
    var front, last := PostedEvents(s, m);
    var after := Posted(s, m).events;
    if |front| < n {
      assert s.events[..n] == front + [last] && after[..n] == front + [Add(last, m)];
      QueuedSnoc(c, front, last);
      QueuedSnoc(c, front, Add(last, m));
      assert c.of(Add(last, m)) == c.of(last) + c.from(m);
    } else {
      assert after[..n] == s.events[..n];
    }
  }

  /** Whatever has been posted is applied by the second Apply after it. */
  lemma AppliedBySecondFrame<T(!new)>(c: Channel<T>, s: State, mid: bool, m: Message, actions: seq<Action>)
    requires StateOk(s) && Bounded(s, mid) && Appends(c) && 2 <= Applies(actions)
    ensures StateOk(Posted(s, m))
    ensures Queued(c, s.events) + c.from(m) <= Delivered(c, Posted(s, m), actions)
  {
    PostedOk(s, m);
    PostAppends(c, s, m);
    var s' := Posted(s, m);
    assert Bounded(s', mid);
    assert s'.events[..|s'.events|] == s'.events;
    AppliesDeliver(c, s', actions, |s'.events|);
  }

  const KEYS: Channel<Press> := Channel((b: Batch) => b.keys, (m: Message) => KeysIn(m))
  const BUTTONS: Channel<Press> := Channel((b: Batch) => b.buttons, (m: Message) => ButtonsIn(m))
  const CHARS: Channel<nat> := Channel((b: Batch) => b.chars, (m: Message) => CharsIn(m))

  /** Keys, buttons and characters are each conserved in order, and the input
      characters are exactly the delivered ones. */
  lemma InputIsConserved(s: State, actions: seq<Action>)
    requires StateOk(s)
    ensures var r := Run(s, actions);
      && Queued(KEYS, s.events) + PostedIn(KEYS, actions) == Delivered(KEYS, s, actions) + Queued(KEYS, r.events)
      && Queued(BUTTONS, s.events) + PostedIn(BUTTONS, actions) ==
         Delivered(BUTTONS, s, actions) + Queued(BUTTONS, r.events)
      && Queued(CHARS, s.events) + PostedIn(CHARS, actions) == Delivered(CHARS, s, actions) + Queued(CHARS, r.events)
      && r.chars == s.chars + Delivered(CHARS, s, actions)
  {
    Conserved(KEYS, s, actions);
    Conserved(BUTTONS, s, actions);
    Conserved(CHARS, s, actions);
    CharsAreDelivered(s, actions);
  }

  lemma ActDeliversChars(s: State, a: Action)
    requires StateOk(s)
    ensures Act(s, a).chars == s.chars + DeliveredBy(CHARS, s, a)
  {
  }

  lemma {:induction false} CharsAreDelivered(s: State, actions: seq<Action>)
    requires StateOk(s)
    ensures Run(s, actions).chars == s.chars + Delivered(CHARS, s, actions)
    decreases |actions|
  {
    if actions != [] {
      var a, s' := actions[0], Act(s, actions[0]);
      ActDeliversChars(s, a);
      CharsAreDelivered(s', actions[1..]);
      assert Run(s, actions) == Run(s', actions[1..]);
      var d := Delivered(CHARS, s', actions[1..]);
      assert Delivered(CHARS, s, actions) == DeliveredBy(CHARS, s, a) + d;
      assert (s.chars + DeliveredBy(CHARS, s, a)) + d == s.chars + (DeliveredBy(CHARS, s, a) + d);
    }
  }

  // ----- the wheels -----

  function QueuedWheel(events: seq<Batch>): (real, real) {
    if events == [] then (0.0, 0.0)
    else
      var (v, h) := QueuedWheel(events[1..]);
      (events[0].wheel + v, events[0].wheelH + h)
  }

  function PostedWheel(actions: seq<Action>): (real, real) {
    if actions == [] then (0.0, 0.0)
    else
      var (v, h) := PostedWheel(actions[1..]);
      if actions[0].Post? then (WheelIn(actions[0].message) + v, WheelHIn(actions[0].message) + h) else (v, h)
  }

  lemma {:induction false} QueuedWheelConcat(a: seq<Batch>, b: seq<Batch>)
    ensures QueuedWheel(a + b).0 == QueuedWheel(a).0 + QueuedWheel(b).0
    ensures QueuedWheel(a + b).1 == QueuedWheel(a).1 + QueuedWheel(b).1
  {
    if a == [] {
      assert a + b == b;
    } else {
      assert (a + b)[1..] == a[1..] + b;
      QueuedWheelConcat(a[1..], b);
    }
  }

  lemma PostAddsWheel(s: State, m: Message)
    ensures QueuedWheel(Posted(s, m).events).0 == QueuedWheel(s.events).0 + WheelIn(m)
    ensures QueuedWheel(Posted(s, m).events).1 == QueuedWheel(s.events).1 + WheelHIn(m)
  {
    var front, last := PostedEvents(s, m);
    QueuedWheelSnoc(front, Add(last, m));
    if s.events == front + [last] {
      QueuedWheelSnoc(front, last);
    }
  }

  lemma QueuedWheelSnoc(a: seq<Batch>, b: Batch)
    ensures QueuedWheel(a + [b]).0 == QueuedWheel(a).0 + b.wheel
    ensures QueuedWheel(a + [b]).1 == QueuedWheel(a).1 + b.wheelH
  {
    QueuedWheelConcat(a, [b]);
    assert QueuedWheel([b][1..]) == (0.0, 0.0);
  }

  /** Both wheels: what has arrived plus what is queued is what was posted. */
  lemma {:induction false} WheelIsConserved(s: State, actions: seq<Action>)
    requires StateOk(s)
    ensures var r := Run(s, actions);
      && r.wheel + QueuedWheel(r.events).0 == s.wheel + QueuedWheel(s.events).0 + PostedWheel(actions).0
      && r.wheelH + QueuedWheel(r.events).1 == s.wheelH + QueuedWheel(s.events).1 + PostedWheel(actions).1
    decreases |actions|
  {
    if actions != [] {
      WheelIsConserved(Act(s, actions[0]), actions[1..]);
      if actions[0].Post? {
        PostAddsWheel(s, actions[0].message);
      }
    }
  }

  // ----- which keys are down -----

  /** The last word on a key: up or down at its last press, else as before. */
  function LastPress(was: bool, presses: seq<Press>, code: nat): bool
    decreases |presses|
  {
    if presses == [] then was
    else LastPress(if presses[0].code == code then presses[0].down else was, presses[1..], code)
  }

  lemma {:induction false} PressedIsLast(down: seq<bool>, presses: seq<Press>, code: nat)
    requires PressesOk(presses, |down|) && code < |down|
    ensures Pressed(down, presses)[code] == LastPress(down[code], presses, code)
    decreases |presses|
  {
    if presses != [] {
      assert presses[0] in presses;
      PressedIsLast(down[presses[0].code := presses[0].down], presses[1..], code);
    }
  }

  lemma {:induction false} LastPressConcat(was: bool, a: seq<Press>, b: seq<Press>, code: nat)
    ensures LastPress(was, a + b, code) == LastPress(LastPress(was, a, code), b, code)
    decreases |a|
  {
    if a == [] {
      assert a + b == b;
    } else {
      assert (a + b)[1..] == a[1..] + b;
      LastPressConcat(if a[0].code == code then a[0].down else was, a[1..], b, code);
    }
  }

  predicate Releases(a: Action) {
    a.Reset? || (a.Post? && a.message.KillFocus?)
  }

  /** Without a focus loss or device reset, a key is as its last delivered event
      left it, and so is a mouse button. */
  lemma {:induction false} KeysFollowEvents(s: State, actions: seq<Action>, key: nat, button: nat)
    requires StateOk(s) && key < KEY_COUNT && button < BUTTON_COUNT
    requires forall a | a in actions :: !Releases(a)
    ensures Run(s, actions).keysDown[key] == LastPress(s.keysDown[key], Delivered(KEYS, s, actions), key)
    ensures Run(s, actions).mouseDown[button] == LastPress(s.mouseDown[button], Delivered(BUTTONS, s, actions), button)
    decreases |actions|
  {
    if actions != [] {
      var a := actions[0];
      assert a in actions;
      var s' := Act(s, a);
      KeysFollowEvents(s', actions[1..], key, button);
      if a.Apply? && s.events != [] {
        var b := s.events[0];
        assert BatchOk(b);
        PressedIsLast(s.keysDown, b.keys, key);
        PressedIsLast(s.mouseDown, b.buttons, button);
        assert KEYS.of(b) == b.keys && BUTTONS.of(b) == b.buttons;
        LastPressConcat(s.keysDown[key], b.keys, Delivered(KEYS, s', actions[1..]), key);
        LastPressConcat(s.mouseDown[button], b.buttons, Delivered(BUTTONS, s', actions[1..]), button);
      } else {
        assert [] + Delivered(KEYS, s', actions[1..]) == Delivered(KEYS, s', actions[1..]);
        assert [] + Delivered(BUTTONS, s', actions[1..]) == Delivered(BUTTONS, s', actions[1..]);
      }
    }
  }

  lemma {:induction false} NothingPosted<T>(c: Channel<T>, actions: seq<Action>)
    requires forall a | a in actions :: !a.Post?
    ensures PostedIn(c, actions) == []
  {
    if actions != [] {
      assert actions[0] in actions;
      NothingPosted(c, actions[1..]);
    }
  }

  /** With nothing more posted, enough frames deliver exactly what was queued. */
  lemma QueueIsDrained<T(!new)>(c: Channel<T>, s: State, actions: seq<Action>)
    requires StateOk(s) && Appends(c) && |s.events| <= Applies(actions)
    requires forall a | a in actions :: !a.Post?
    ensures Delivered(c, s, actions) == Queued(c, s.events)
  {
    Conserved(c, s, actions);
    NothingPosted(c, actions);
    assert s.events[..|s.events|] == s.events;
    AppliesDeliver(c, s, actions, |s.events|);
    assert Queued(c, s.events) + [] == Queued(c, s.events);
  }

  lemma LossKeepsQueue(s: State)
    requires StateOk(s) && Bounded(s, false)
    ensures var r := Posted(s, KillFocus);
      && StateOk(r) && |r.events| <= 2 && r.keysDown == AllUp(KEY_COUNT)
      && Queued(KEYS, r.events) == Queued(KEYS, s.events)
  {
    PostedOk(s, KillFocus);
    PostAppends(KEYS, s, KillFocus);
    assert KEYS.from(KillFocus) == [];
    assert Queued(KEYS, s.events) + [] == Queued(KEYS, s.events);
  }

  /** A focus loss releases the keys but not the queue: after it, and with no
      further messages, a key ends up down exactly when the last event for it
      that was still queued is a key-down. */
  lemma KeyStuckAfterFocusLossIff(s: State, actions: seq<Action>, key: nat)
    requires StateOk(s) && Bounded(s, false) && key < KEY_COUNT && 2 <= Applies(actions)
    requires forall a | a in actions :: a.Apply? || a.Count?
    ensures StateOk(Posted(s, KillFocus))
    ensures Run(Posted(s, KillFocus), actions).keysDown[key] <==> LastPress(false, Queued(KEYS, s.events), key)
  {
    LossKeepsQueue(s);
    var s' := Posted(s, KillFocus);
    KeysFollowEvents(s', actions, key, 0);
    QueueIsDrained(KEYS, s', actions);
  }
}
