/** Window messages queued per frame: the message handler fills the newest
    batch, each frame applies the oldest one. */
module InputQueue {
  import opened Prelude

  const FRAME_MODULUS: nat := 0x1_0000_0000_0000_0000
  const KEY_COUNT: nat := 256
  const BUTTON_COUNT: nat := 5

  /** A key or button going down or up. */
  datatype Press = Press(code: nat, down: bool)

  datatype Batch = Batch(keys: seq<Press>, buttons: seq<Press>, chars: seq<nat>, wheel: real, wheelH: real)

  const VK_SHIFT: nat := 0x10
  const VK_CONTROL: nat := 0x11
  const VK_MENU: nat := 0x12
  const VK_LSHIFT: nat := 0xA0
  const VK_RSHIFT: nat := 0xA1
  const VK_LCONTROL: nat := 0xA2
  const VK_RCONTROL: nat := 0xA3
  const VK_LMENU: nat := 0xA4
  const VK_RMENU: nat := 0xA5

  datatype Modifiers = Modifiers(ctrl: bool, shift: bool, alt: bool, super: bool)

  const NO_MODIFIERS := Modifiers(false, false, false, false)

  /** What the second half of a frame reads from the system; the mouse has no
      position while another window is in front. */
  datatype Sample = Sample(ctrl: bool, shift: bool, alt: bool, mouse: Option<(int, int)>)

  const EMPTY_BATCH := Batch([], [], [], 0.0, 0.0)

  datatype MouseButton = Left | Right | Middle | Extra

  datatype Message =
    | ButtonDown(button: MouseButton, wParam: nat)  // double clicks included
    | ButtonUp(button: MouseButton, wParam: nat)
    | Wheel(wParam: nat)
    | WheelH(wParam: nat)
    | KeyDown(wParam: nat)  // system keys included
    | KeyUp(wParam: nat)
    | Char(wParam: nat)
    | KillFocus
    | Other

  function HighWord(w: nat): nat { w / 0x10000 % 0x10000 }

  function ButtonCode(b: MouseButton, wParam: nat): (code: nat)
    ensures code < BUTTON_COUNT
  {
    match b
    case Left => 0
    case Right => 1
    case Middle => 2
    case Extra => if HighWord(wParam) == 1 then 3 else 4
  }

  /** The wheel delta is a signed 16-bit number of 120ths of a notch. */
  function Notches(wParam: nat): real {
    var w := HighWord(wParam);
    (if w < 0x8000 then w else w - 0x10000) as real / 120.0
  }

  // What one message adds to a batch, channel by channel.

  function KeysIn(m: Message): seq<Press> {
    match m
    case KeyDown(w) => if w < KEY_COUNT then [Press(w, true)] else []
    case KeyUp(w) => if w < KEY_COUNT then [Press(w, false)] else []
    case _ => []
  }

  function ButtonsIn(m: Message): seq<Press> {
    match m
    case ButtonDown(b, w) => [Press(ButtonCode(b, w), true)]
    case ButtonUp(b, w) => [Press(ButtonCode(b, w), false)]
    case _ => []
  }

  function CharsIn(m: Message): seq<nat> {
    if m.Char? && 0 < m.wParam < 0x10000 then [m.wParam] else []
  }

  function WheelIn(m: Message): real { if m.Wheel? then Notches(m.wParam) else 0.0 }

  function WheelHIn(m: Message): real { if m.WheelH? then Notches(m.wParam) else 0.0 }

  function Add(b: Batch, m: Message): Batch {
    Batch(b.keys + KeysIn(m), b.buttons + ButtonsIn(m), b.chars + CharsIn(m),
          b.wheel + WheelIn(m), b.wheelH + WheelHIn(m))
  }

  datatype State = State(
    events: seq<Batch>, frame: nat, lastFrame: nat,
    keysDown: seq<bool>, mouseDown: seq<bool>, chars: seq<nat>, wheel: real, wheelH: real,
    modifiers: Modifiers, mousePos: Option<(int, int)>)

  predicate PressesOk(presses: seq<Press>, n: nat) {
    forall p | p in presses :: p.code < n
  }

  predicate BatchOk(b: Batch) {
    PressesOk(b.keys, KEY_COUNT) && PressesOk(b.buttons, BUTTON_COUNT)
  }

  predicate StateOk(s: State) {
    && |s.keysDown| == KEY_COUNT && |s.mouseDown| == BUTTON_COUNT
    && forall b | b in s.events :: BatchOk(b)
  }

  function Opened(s: State): (r: State)
    ensures r.events != []
  {
    if s.frame != s.lastFrame || s.events == [] then
      s.(events := s.events + [EMPTY_BATCH], lastFrame := s.frame)
    else s
  }

  function AllUp(n: nat): seq<bool> { seq(n, i => false) }

  function Released(s: State): State {
    s.(keysDown := AllUp(KEY_COUNT), mouseDown := AllUp(BUTTON_COUNT),
       modifiers := NO_MODIFIERS, mousePos := Some((0, 0)))
  }

  function Posted(s: State, m: Message): State {
    var o := Opened(s);
    var last := |o.events| - 1;
    var filled := o.(events := o.events[last := Add(o.events[last], m)]);
    if m.KillFocus? then Released(filled) else filled
  }

  function Pressed(down: seq<bool>, presses: seq<Press>): (r: seq<bool>)
    requires PressesOk(presses, |down|)
    ensures |r| == |down|
    decreases |presses|
  {
    if presses == [] then down
    else
      assert presses[0] in presses;
      Pressed(down[presses[0].code := presses[0].down], presses[1..])
  }

  function Popped(s: State): State
    requires StateOk(s)
  {
    if s.events == [] then s
    else
      var b := s.events[0];
      assert BatchOk(b);
      s.(events := s.events[1..],
         keysDown := Pressed(s.keysDown, b.keys), mouseDown := Pressed(s.mouseDown, b.buttons),
         chars := s.chars + b.chars, wheel := s.wheel + b.wheel, wheelH := s.wheelH + b.wheelH)
  }

  predicate AnyDown(down: seq<bool>, keys: seq<nat>)
    requires forall k | k in keys :: k < |down|
  {
    exists k :: k in keys && down[k]
  }

  /** A modifier is on when the system says so or one of its keys is down. */
  function ReadModifiers(down: seq<bool>, sample: Sample): Modifiers
    requires |down| == KEY_COUNT
  {
    Modifiers(sample.ctrl || AnyDown(down, [VK_CONTROL, VK_LCONTROL, VK_RCONTROL]),
              sample.shift || AnyDown(down, [VK_SHIFT, VK_LSHIFT, VK_RSHIFT]),
              sample.alt || AnyDown(down, [VK_MENU, VK_LMENU, VK_RMENU]), false)
  }

  function Advanced(s: State, sample: Sample): State
    requires StateOk(s)
  {
    s.(modifiers := ReadModifiers(s.keysDown, sample), mousePos := sample.mouse, frame := (s.frame + 1) % FRAME_MODULUS)
  }

  lemma OpenedOk(s: State)
    requires StateOk(s)
    ensures StateOk(Opened(s))
  {
    forall b | b in Opened(s).events
      ensures BatchOk(b)
    {
      assert b in s.events || b == EMPTY_BATCH;
    }
  }

  lemma AddOk(b: Batch, m: Message)
    requires BatchOk(b)
    ensures BatchOk(Add(b, m))
  {
    assert forall p | p in b.keys + KeysIn(m) :: p in b.keys || p in KeysIn(m);
    assert forall p | p in b.buttons + ButtonsIn(m) :: p in b.buttons || p in ButtonsIn(m);
  }

  lemma PostedOk(s: State, m: Message)
    requires StateOk(s)
    ensures StateOk(Posted(s, m))
  {
    OpenedOk(s);
    var events := Opened(s).events;
    var last := |events| - 1;
    assert events[last] in events;
    AddOk(events[last], m);
    forall b | b in Posted(s, m).events
      ensures BatchOk(b)
    {
      assert b in events || b == Add(events[last], m);
    }
  }

  /** The globals of the backend together with the part of ImGuiIO they feed. */
  class Backend {
    var events: seq<Batch>
    var frameCount: nat
    var lastFrameCount: nat
    const keysDown: array<bool>
    const mouseDown: array<bool>
    var chars: seq<nat>
    var wheel: real
    var wheelH: real
    var modifiers: Modifiers
    var mousePos: Option<(int, int)>

    constructor ()
      ensures fresh(keysDown) && fresh(mouseDown) && Valid()
      ensures View() == State([], 0, 0, AllUp(KEY_COUNT), AllUp(BUTTON_COUNT), [], 0.0, 0.0, NO_MODIFIERS, None)
    {
      events, frameCount, lastFrameCount := [], 0, 0;
      keysDown, mouseDown := new bool[KEY_COUNT](_ => false), new bool[BUTTON_COUNT](_ => false);
      chars, wheel, wheelH, modifiers, mousePos := [], 0.0, 0.0, NO_MODIFIERS, None;
    }

    ghost function View(): State
      reads this, keysDown, mouseDown
    {
      State(events, frameCount, lastFrameCount, keysDown[..], mouseDown[..], chars, wheel, wheelH, modifiers, mousePos)
    }

    ghost predicate Valid()
      reads this, keysDown, mouseDown
    {
      keysDown != mouseDown && StateOk(View())
    }

    method ResetKeyStates()
      requires Valid()
      modifies this`modifiers, this`mousePos, keysDown, mouseDown
      ensures Valid() && View() == Released(old(View()))
    {
      modifiers := NO_MODIFIERS;
      mousePos := Some((0, 0));
      forall i | 0 <= i < mouseDown.Length { mouseDown[i] := false; }
      forall i | 0 <= i < keysDown.Length { keysDown[i] := false; }
      assert keysDown[..] == AllUp(KEY_COUNT) && mouseDown[..] == AllUp(BUTTON_COUNT);
    }

    /** The switch over the messages, as far as it fills the newest batch. */
    method FillBatch(batch: Batch, m: Message) returns (b: Batch)
      ensures b == Add(batch, m)
    {
      b := batch;
      match m {
        case ButtonDown(button, w) => b := b.(buttons := b.buttons + [Press(ButtonCode(button, w), true)]);
        case ButtonUp(button, w) => b := b.(buttons := b.buttons + [Press(ButtonCode(button, w), false)]);
        case Wheel(w) => b := b.(wheel := b.wheel + Notches(w));
        case WheelH(w) => b := b.(wheelH := b.wheelH + Notches(w));
        case KeyDown(w) =>
          if w < 256 {
            b := b.(keys := b.keys + [Press(w, true)]);
          }
        case KeyUp(w) =>
          if w < 256 {
            b := b.(keys := b.keys + [Press(w, false)]);
          }
        case Char(w) =>
          if w > 0 && w < 0x10000 {
            b := b.(chars := b.chars + [w]);
          }
        case KillFocus =>
        case Other =>
      }
    }

    /** ImGui_ImplWin32_WndProcHandler */
    method WndProcHandler(m: Message)
      requires Valid()
      modifies this, keysDown, mouseDown
      ensures Valid() && View() == Posted(old(View()), m)
    {
      if frameCount != lastFrameCount || events == [] {
        events := events + [EMPTY_BATCH];
        lastFrameCount := frameCount;
      }
      var last := |events| - 1;
      var b := FillBatch(events[last], m);
      if m.KillFocus? {
        ResetKeyStates();
      }
      events := events[last := b];
      PostedOk(old(View()), m);
    }

    method ApplyPresses(down: array<bool>, presses: seq<Press>)
      requires PressesOk(presses, down.Length)
      modifies down
      ensures down[..] == Pressed(old(down[..]), presses)
    {
      var i := 0;
      while i < |presses|
        invariant 0 <= i <= |presses|
        invariant Pressed(down[..], presses[i..]) == Pressed(old(down[..]), presses)
      {
        assert presses[i] in presses && presses[i..][1..] == presses[i + 1..];
        ghost var was := down[..];
        down[presses[i].code] := presses[i].down;
        assert down[..] == was[presses[i].code := presses[i].down];
        i := i + 1;
      }
    }

    /** The first half of ImGui_ImplWin32_NewFrame, under the input mutex. */
    method NewFrameApply()
      requires Valid()
      modifies this, keysDown, mouseDown
      ensures Valid() && View() == Popped(old(View()))
    {
      if events != [] {
        var evt := events[0];
        assert BatchOk(evt);
        ApplyPresses(keysDown, evt.keys);
        ApplyPresses(mouseDown, evt.buttons);
        for i := 0 to |evt.chars|
          invariant chars == old(chars) + evt.chars[..i]
          invariant events == old(events) && frameCount == old(frameCount) && lastFrameCount == old(lastFrameCount)
          invariant wheel == old(wheel) && wheelH == old(wheelH)
          invariant modifiers == old(modifiers) && mousePos == old(mousePos)
          invariant keysDown[..] == Pressed(old(keysDown[..]), evt.keys)
          invariant mouseDown[..] == Pressed(old(mouseDown[..]), evt.buttons)
        {
          chars := chars + [evt.chars[i]];
        }
        assert evt.chars[..|evt.chars|] == evt.chars;
        wheel, wheelH := wheel + evt.wheel, wheelH + evt.wheelH;
        events := events[1..];
      }
    }

    /** The rest of it, outside the mutex. */
    method NewFrameCount(sample: Sample)
      requires Valid()
      modifies this`modifiers, this`mousePos, this`frameCount
      ensures Valid() && View() == Advanced(old(View()), sample)
    {
      var ctrl := sample.ctrl || keysDown[VK_CONTROL] || keysDown[VK_LCONTROL] || keysDown[VK_RCONTROL];
      var shift := sample.shift || keysDown[VK_SHIFT] || keysDown[VK_LSHIFT] || keysDown[VK_RSHIFT];
      var alt := sample.alt || keysDown[VK_MENU] || keysDown[VK_LMENU] || keysDown[VK_RMENU];
      modifiers := Modifiers(ctrl, shift, alt, false);
      mousePos := sample.mouse;
      frameCount := (frameCount + 1) % FRAME_MODULUS;
    }
  }
}
