/** The watchdog over the D3D hooks and the choice between D3D11 and D3D12.
    Times are clock readings in nanoseconds. */
module Renderer {
  import opened Prelude

  const SECOND: int := 1_000_000_000
  const FRAMES_BEFORE_INIT: nat := 60

  datatype RendererType = D3D11 | D3D12

  /** What hooking runs into: whether d3d12.dll loads and whether each hook's own
      `hook` succeeds. */
  datatype HookInput = HookInput(library12: bool, ok11: bool, ok12: bool)

  /** One pass of the monitor: its clock readings in order, and what it sees. */
  datatype MonitorInput = MonitorInput(
    now: int, t1: int, t2: int, t3: int, t4: int, t5: int, t6: int,
    inside11: bool, inside12: bool, messageHookIntact: bool, hooks: HookInput)

  /** One frame callback: the renderer whose detour runs, and what it meets. */
  datatype FrameInput = FrameInput(
    renderer: RendererType, now: int, deviceNull: bool, windowFound: bool, imguiOk: bool, targetsOk: bool,
    unhookOk: bool, hooks: HookInput)

  /** Which renderer is chosen, and the two hook objects with their is_hooked
      flags.  `fellThrough` records that one of the two hook functions found the
      other renderer chosen. */
  datatype Choice = Choice(
    is11: bool, is12: bool, valid: bool, hook11: Option<bool>, hook12: Option<bool>, fellThrough: bool)

  /** How far start-up has got. */
  datatype Startup = Startup(
    initialized: bool, firstInitialize: bool, framesSinceInit: nat, renderer: RendererType,
    window: bool, messageHook: bool, firstFrame: bool, messageHookRequested: bool)

  /** A rehook request.  `armed` and `at` are the two passes that led to it, with
      the latest present at each, and `resumed` the reading taken afterwards. */
  datatype Request = Request(armed: int, presentWhenArmed: int, at: int, presentAt: int, resumed: int)

  /** The monitor's times.  The last three fields only record history. */
  datatype Watch = Watch(
    lastPresentTime: int, lastMessageTime: int, lastSendMessageTime: int, sentMessage: bool,
    lastChanceTime: int, hasLastChance: bool,
    lastPresent: int, presentWhenArmed: int, requests: seq<Request>)

  datatype State = State(choice: Choice, startup: Startup, watch: Watch)

  function Started(now: int, later: int): State {
    State(Choice(false, false, false, None, None, false),
          Startup(false, true, 0, D3D11, false, false, true, false),
          Watch(now, later, 0, false, 0, true, now, now, []))
  }

  // ----- choosing a renderer -----

  function HookedD3D11(c: Choice, i: HookInput): Choice {
    if c.is12 then c.(hook11 := Some(false), fellThrough := true)
    else if i.ok11 then c.(hook11 := Some(true), valid := true, is11 := true)
    else c.(hook11 := Some(false), valid := false, is11 := false)
  }

  function HookedD3D12(c: Choice, i: HookInput): Choice {
    if !i.library12 then HookedD3D11(c.(is12 := false), i)
    else if c.is11 then c.(hook12 := Some(false), fellThrough := true)
    else if i.ok12 then c.(hook12 := Some(true), valid := true, is12 := true)
    else HookedD3D11(c.(hook12 := Some(false), valid := false, is12 := false), i)
  }

  /** What a rehook request does to the choice. */
  function Rechosen(c: Choice, i: HookInput): Choice {
    if c.is11 then HookedD3D11(c, i) else HookedD3D12(c, i)
  }

  /** The chosen renderer's device turned out to be null: try the other one. */
  function Switched(c: Choice, unhookOk: bool, i: HookInput): Choice {
    if c.is11 then HookedD3D12(c.(hook11 := Some(!unhookOk), is11 := false, valid := false), i)
    else HookedD3D11(c.(hook12 := Some(!unhookOk), is12 := false, valid := false), i)
  }

  predicate ChosenIsHooked(c: Choice) {
    if c.is11 then c.hook11 == Some(true) else c.hook12 == Some(true)
  }

  // ----- the monitor -----

  predicate Watched(c: Choice, s: Startup, i: MonitorInput) {
    || c.hook11.None? || c.hook12.None?
    || (s.renderer == D3D11 && !i.inside11)
    || (s.renderer == D3D12 && !i.inside12)
  }

  predicate Stale(w: Watch, now: int) {
    now - w.lastPresentTime > 5 * SECOND
  }

  /** The first stale pass only notes the time; it does so after every pass that
      was not stale and after every request. */
  function Armed(w: Watch, now: int): Watch {
    if w.hasLastChance then w.(hasLastChance := false, lastChanceTime := now, presentWhenArmed := w.lastPresent) else w
  }

  predicate Requests(w: Watch, i: MonitorInput) {
    Stale(w, i.now) && !w.hasLastChance && i.now - w.lastChanceTime > SECOND
  }

  function Requested(w: Watch, i: MonitorInput): Watch {
    w.(lastPresentTime := i.t1 + 5 * SECOND, lastMessageTime := i.t2 + 5 * SECOND,
       lastChanceTime := i.t3 + SECOND, hasLastChance := true,
       requests := w.requests + [Request(w.lastChanceTime, w.presentWhenArmed, i.now, w.lastPresent, i.t1)])
  }

  function WatchedPresent(w: Watch, i: MonitorInput): Watch {
    if !Stale(w, i.now) then w.(lastChanceTime := i.t1, hasLastChance := true)
    else if Requests(w, i) then Requested(w, i)
    else Armed(w, i.now)
  }

  /** The check of the window message hook; it may ask for a new one. */
  function WatchedMessages(s: Startup, w: Watch, i: MonitorInput): (Startup, Watch) {
    if s.initialized && s.window && i.now - w.lastMessageTime > 5 * SECOND then
      if s.messageHook && i.messageHookIntact then
        (s, w.(lastMessageTime := i.now, lastSendMessageTime := i.now, sentMessage := false))
      else if !w.sentMessage then (s, w.(lastSendMessageTime := i.t4, sentMessage := true))
      else if i.now - w.lastSendMessageTime > SECOND then
        (s.(messageHookRequested := true),
         w.(lastMessageTime := i.t5 + 5 * SECOND, lastPresentTime := i.t6 + 5 * SECOND, sentMessage := false))
      else (s, w)
    else (s, w.(sentMessage := false))
  }

  function Monitored(s: State, i: MonitorInput): State {
    if !Watched(s.choice, s.startup, i) then s
    else
      var choice := if Requests(s.watch, i) then Rechosen(s.choice, i.hooks) else s.choice;
      var (startup, watch) := WatchedMessages(s.startup, WatchedPresent(s.watch, i), i);
      State(choice, startup, watch)
  }

  // ----- frames -----

  /** `initialize_windows_message_hook`; the result says whether it was hooked. */
  function MessageHooked(s: Startup): (Startup, bool) {
    if !s.window then (s, false)
    else if s.firstFrame || s.messageHookRequested || !s.messageHook then
      (s.(messageHook := true, messageHookRequested := false), true)
    else (s.(messageHookRequested := false), false)
  }

  datatype Attempt = Done | Waiting | Failing | Switching | Succeeding

  /** What a call of `initialize` comes to. */
  function AttemptOf(s: Startup, c: Choice, i: FrameInput): Attempt {
    if s.initialized then Done
    else if s.firstInitialize || s.framesSinceInit < FRAMES_BEFORE_INIT then Waiting
    else if !c.is11 && !c.is12 then Failing
    else if !ChosenIsHooked(c) then Failing
    else if i.deviceNull then Switching
    else if !i.imguiOk || !i.targetsOk then Failing
    else Succeeding
  }

  /** `initialize`, component by component; success is marked by the frame
      callback. */
  function InitializedChoice(s: Startup, c: Choice, i: FrameInput): Choice {
    if AttemptOf(s, c, i) == Switching then Switched(c, i.unhookOk, i.hooks) else c
  }

  function InitializedStartup(s: Startup, c: Choice, i: FrameInput): Startup {
    match AttemptOf(s, c, i)
    case Done => s
    case Waiting =>
      s.(framesSinceInit := if s.firstInitialize then 1 else s.framesSinceInit + 1, firstInitialize := false)
    case Switching => s.(firstInitialize := true)
    case Failing => if (c.is11 || c.is12) && ChosenIsHooked(c) then s.(window := i.windowFound) else s
    case Succeeding => MessageHooked(s.(window := i.windowFound)).0.(firstFrame := false, initialized := true)
  }

  predicate InitializeHooksMessages(s: Startup, c: Choice, i: FrameInput) {
    AttemptOf(s, c, i) == Succeeding && MessageHooked(s.(window := i.windowFound)).1
  }

  function MessageNow(w: Watch, hooked: bool, now: int): Watch {
    if hooked then w.(lastMessageTime := now) else w
  }

  /** `on_frame_d3d11` and `on_frame_d3d12`, as far as they touch this state. */
  function Framed(s: State, i: FrameInput): State {
    var up, c := s.startup.(renderer := i.renderer), s.choice;
    if !up.initialized then
      State(InitializedChoice(up, c, i), InitializedStartup(up, c, i),
            MessageNow(s.watch, InitializeHooksMessages(up, c, i), i.now))
    else
      var (next, hooked) := if up.messageHookRequested then MessageHooked(up) else (up, false);
      State(c, if i.deviceNull then next.(initialized := false) else next, MessageNow(s.watch, hooked, i.now))
  }

  /** `on_post_present_*`: two clock readings. */
  function PostPresented(w: Watch, now: int, later: int): Watch {
    if w.lastPresentTime <= now then w.(lastPresent := now, lastPresentTime := later) else w.(lastPresent := now)
  }

  /** `on_reset` */
  function WasReset(s: Startup): Startup {
    s.(firstInitialize := false, initialized := false)
  }

  class AutomataMP {
    var is11: bool
    var is12: bool
    var valid: bool
    var hook11: Option<bool>
    var hook12: Option<bool>
    ghost var fellThrough: bool
    var initialized: bool
    var firstInitialize: bool
    var framesSinceInit: nat
    var renderer: RendererType
    var window: bool
    var messageHook: bool
    var firstFrame: bool
    var messageHookRequested: bool
    var lastPresentTime: int
    var lastMessageTime: int
    var lastSendMessageTime: int
    var sentMessage: bool
    var lastChanceTime: int
    var hasLastChance: bool
    ghost var lastPresent: int
    ghost var presentWhenArmed: int
    ghost var requests: seq<Request>

    constructor (now: int, later: int)
      ensures View() == Started(now, later)
    {
      is11, is12, valid, hook11, hook12, fellThrough := false, false, false, None, None, false;
      initialized, firstInitialize, framesSinceInit, renderer := false, true, 0, D3D11;
      window, messageHook, firstFrame, messageHookRequested := false, false, true, false;
      lastPresentTime, lastMessageTime, lastSendMessageTime, sentMessage := now, later, 0, false;
      lastChanceTime, hasLastChance, lastPresent, presentWhenArmed, requests := 0, true, now, now, [];
    }

    ghost function ChoiceView(): Choice
      reads this`is11, this`is12, this`valid, this`hook11, this`hook12, this`fellThrough
    {
      Choice(is11, is12, valid, hook11, hook12, fellThrough)
    }

    ghost function StartupView(): Startup
      reads this`initialized, this`firstInitialize, this`framesSinceInit, this`renderer
      reads this`window, this`messageHook, this`firstFrame, this`messageHookRequested
    {
      Startup(initialized, firstInitialize, framesSinceInit, renderer, window, messageHook, firstFrame,
              messageHookRequested)
    }

    ghost function WatchView(): Watch
      reads this`lastPresentTime, this`lastMessageTime, this`lastSendMessageTime, this`sentMessage
      reads this`lastChanceTime, this`hasLastChance, this`lastPresent, this`presentWhenArmed, this`requests
    {
      Watch(lastPresentTime, lastMessageTime, lastSendMessageTime, sentMessage, lastChanceTime, hasLastChance,
            lastPresent, presentWhenArmed, requests)
    }

    ghost function View(): State
      reads this
    {
      State(ChoiceView(), StartupView(), WatchView())
    }

    method HookD3D11(i: HookInput) returns (ok: bool)
      modifies this`is11, this`valid, this`hook11, this`fellThrough
      ensures ChoiceView() == HookedD3D11(old(ChoiceView()), i)
    {
      hook11 := Some(false);
      if !is12 {
        if i.ok11 {
          hook11, valid, is11 := Some(true), true, true;
          return true;
        }
        valid, is11 := false, false;
        return false;
      }
      fellThrough := true;
      return false;
    }

    method HookD3D12(i: HookInput) returns (ok: bool)
      modifies this`is11, this`is12, this`valid, this`hook11, this`hook12, this`fellThrough
      ensures ChoiceView() == HookedD3D12(old(ChoiceView()), i)
    {
      if !i.library12 {
        is12 := false;
        ok := HookD3D11(i);
        return;
      }
      hook12 := Some(false);
      if !is11 {
        if i.ok12 {
          hook12, valid, is12 := Some(true), true, true;
          return true;
        }
        valid, is12 := false, false;
        ok := HookD3D11(i);
        return;
      }
      fellThrough := true;
      return false;
    }

    method HookAgain(i: HookInput)
      modifies this`is11, this`is12, this`valid, this`hook11, this`hook12, this`fellThrough
      ensures ChoiceView() == Rechosen(old(ChoiceView()), i)
    {
      if is11 {
        var _ := HookD3D11(i);
      } else {
        var _ := HookD3D12(i);
      }
    }

    method RequestHook(i: MonitorInput)
      modifies this`is11, this`is12, this`valid, this`hook11, this`hook12, this`fellThrough
      modifies this`lastPresentTime, this`lastMessageTime, this`lastChanceTime, this`hasLastChance, this`requests
      ensures WatchView() == Requested(old(WatchView()), i) && ChoiceView() == Rechosen(old(ChoiceView()), i.hooks)
    {
      ghost var watch := WatchView();
      HookAgain(i.hooks);
      assert WatchView() == watch;
      requests := requests + [Request(lastChanceTime, presentWhenArmed, i.now, lastPresent, i.t1)];
      lastPresentTime := i.t1 + 5 * SECOND;
      lastMessageTime := i.t2 + 5 * SECOND;
      lastChanceTime := i.t3 + SECOND;
      hasLastChance := true;
    }

    /** The half of the monitor that looks after presents. */
    method WatchPresent(i: MonitorInput)
      modifies this`is11, this`is12, this`valid, this`hook11, this`hook12, this`fellThrough
      modifies this`lastPresentTime, this`lastMessageTime, this`lastChanceTime, this`hasLastChance
      modifies this`presentWhenArmed, this`requests
      ensures WatchView() == WatchedPresent(old(WatchView()), i)
      ensures ChoiceView() ==
        if Requests(old(WatchView()), i) then Rechosen(old(ChoiceView()), i.hooks) else old(ChoiceView())
    {
      if i.now - lastPresentTime > 5 * SECOND {
        if hasLastChance {
          hasLastChance := false;
          lastChanceTime := i.now;
          presentWhenArmed := lastPresent;
        }
        if !hasLastChance && i.now - lastChanceTime > SECOND {
          RequestHook(i);
        }
      } else {
        lastChanceTime := i.t1;
        hasLastChance := true;
      }
    }

    /** The half that looks after the window message hook. */
    method WatchMessages(i: MonitorInput)
      modifies this`messageHookRequested, this`lastPresentTime, this`lastMessageTime
      modifies this`lastSendMessageTime, this`sentMessage
      ensures (StartupView(), WatchView()) == WatchedMessages(old(StartupView()), old(WatchView()), i)
    {
      if initialized && window && i.now - lastMessageTime > 5 * SECOND {
        if messageHook && i.messageHookIntact {
          lastMessageTime, lastSendMessageTime, sentMessage := i.now, i.now, false;
          return;
        }
        if !sentMessage {
          lastSendMessageTime, sentMessage := i.t4, true;
        } else if i.now - lastSendMessageTime > SECOND {
          messageHookRequested := true;
          lastMessageTime := i.t5 + 5 * SECOND;
          lastPresentTime := i.t6 + 5 * SECOND;
          sentMessage := false;
        }
      } else {
        sentMessage := false;
      }
    }

    method LookAtHooks(i: MonitorInput)
      modifies this`is11, this`is12, this`valid, this`hook11, this`hook12, this`fellThrough
      modifies this`lastPresentTime, this`lastMessageTime, this`lastChanceTime, this`hasLastChance
      modifies this`presentWhenArmed, this`requests
      modifies this`messageHookRequested, this`lastSendMessageTime, this`sentMessage
      ensures ChoiceView() ==
        if Requests(old(WatchView()), i) then Rechosen(old(ChoiceView()), i.hooks) else old(ChoiceView())
      ensures (StartupView(), WatchView()) ==
        WatchedMessages(old(StartupView()), WatchedPresent(old(WatchView()), i), i)
    {
      ghost var startup := StartupView();
      WatchPresent(i);
      assert StartupView() == startup;
      WatchMessages(i);
    }

    method HookMonitor(i: MonitorInput)
      modifies this
      ensures View() == Monitored(old(View()), i)
    {
      if hook11 == None || hook12 == None || (renderer == D3D11 && !i.inside11) || (renderer == D3D12 && !i.inside12) {
        LookAtHooks(i);
      }
    }

    method InitializeWindowsMessageHook(now: int)
      modifies this`messageHook, this`messageHookRequested, this`lastMessageTime
      ensures StartupView() == MessageHooked(old(StartupView())).0
      ensures lastMessageTime == if MessageHooked(old(StartupView())).1 then now else old(lastMessageTime)
    {
      if !window {
        return;
      }
      if firstFrame || messageHookRequested || !messageHook {
        lastMessageTime, messageHook := now, true;
      }
      messageHookRequested := false;
    }

    /** Unhooks the renderer whose device is null and hooks the other one. */
    method SwitchRenderer(i: FrameInput)
      requires is11 || is12
      modifies this`is11, this`is12, this`valid, this`hook11, this`hook12, this`fellThrough, this`firstInitialize
      ensures firstInitialize && ChoiceView() == Switched(old(ChoiceView()), i.unhookOk, i.hooks)
    {
      firstInitialize := true;
      if is11 {
        hook11 := Some(!i.unhookOk);
        is11, valid := false, false;
        var _ := HookD3D12(i.hooks);
      } else {
        hook12 := Some(!i.unhookOk);
        valid, is12 := false, false;
        var _ := HookD3D11(i.hooks);
      }
    }

    /** Lets sixty calls pass before anything is initialized. */
    method StillWaiting() returns (waiting: bool)
      modifies this`firstInitialize, this`framesSinceInit
      ensures waiting <==> old(firstInitialize) || old(framesSinceInit) < FRAMES_BEFORE_INIT
      ensures !firstInitialize
      ensures framesSinceInit ==
        if old(firstInitialize) then 1 else if waiting then old(framesSinceInit) + 1 else old(framesSinceInit)
    {
      if firstInitialize {
        framesSinceInit, firstInitialize := 0, false;
      }
      if framesSinceInit < FRAMES_BEFORE_INIT {
        framesSinceInit := framesSinceInit + 1;
        return true;
      }
      return false;
    }

    /** Sets ImGui up on the window of the device. */
    method SetUp(i: FrameInput) returns (ok: bool)
      requires !initialized
      modifies this`window, this`messageHook, this`messageHookRequested, this`firstFrame
      modifies this`initialized, this`lastMessageTime
      ensures ok == initialized == (i.imguiOk && i.targetsOk)
      ensures var s := old(StartupView()).(window := i.windowFound);
        && StartupView() == (if ok then MessageHooked(s).0.(firstFrame := false, initialized := true) else s)
        && lastMessageTime == if ok && MessageHooked(s).1 then i.now else old(lastMessageTime)
    {
      window := i.windowFound;
      if !i.imguiOk || !i.targetsOk {
        return false;
      }
      InitializeWindowsMessageHook(i.now);
      firstFrame, initialized := false, true;
      return true;
    }

    method Initialize(i: FrameInput) returns (ok: bool)
      modifies this`is11, this`is12, this`valid, this`hook11, this`hook12, this`fellThrough
      modifies this`firstInitialize, this`framesSinceInit, this`window, this`messageHook, this`messageHookRequested
      modifies this`firstFrame, this`initialized, this`lastMessageTime
      ensures (ChoiceView(), StartupView()) ==
        (InitializedChoice(old(StartupView()), old(ChoiceView()), i),
         InitializedStartup(old(StartupView()), old(ChoiceView()), i))
      ensures lastMessageTime ==
        if InitializeHooksMessages(old(StartupView()), old(ChoiceView()), i) then i.now else old(lastMessageTime)
      ensures ok == initialized
    {
      if initialized {
        return true;
      }
      var waiting := StillWaiting();
      if waiting {
        return false;
      }
      if (!is11 && !is12) || (is11 && hook11 != Some(true)) || (!is11 && hook12 != Some(true)) {
        return false;
      }
      if i.deviceNull {
        SwitchRenderer(i);
        return false;
      }
      ok := SetUp(i);
    }

    method OnFrame(i: FrameInput)
      modifies this`is11, this`is12, this`valid, this`hook11, this`hook12, this`fellThrough, this`renderer
      modifies this`firstInitialize, this`framesSinceInit, this`window, this`messageHook, this`messageHookRequested
      modifies this`firstFrame, this`initialized, this`lastMessageTime
      ensures ChoiceView() == Framed(old(View()), i).choice
      ensures StartupView() == Framed(old(View()), i).startup
      ensures lastMessageTime == Framed(old(View()), i).watch.lastMessageTime
    {
      renderer := i.renderer;
      if !initialized {
        var _ := Initialize(i);
        return;
      }
      if messageHookRequested {
        InitializeWindowsMessageHook(i.now);
      }
      if i.deviceNull {
        initialized := false;
      }
    }

    method OnPostPresent(now: int, later: int)
      modifies this`lastPresent, this`lastPresentTime
      ensures WatchView() == PostPresented(old(WatchView()), now, later)
    {
      lastPresent := now;
      if lastPresentTime <= now {
        lastPresentTime := later;
      }
    }

    method OnReset()
      modifies this`firstInitialize, this`initialized
      ensures StartupView() == WasReset(old(StartupView()))
    {
      firstInitialize, initialized := false, false;
    }
  }
}
