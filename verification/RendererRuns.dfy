/** Whole runs of the watchdog and of the renderer choice. */
module RendererRuns {
  import opened Prelude
  import opened Renderer

  datatype Event =
    | Tick(m: MonitorInput)
    | Frame(f: FrameInput)
    | Present(now: int, later: int)
    | Message(now: int)
    | Reset

  function Act(s: State, e: Event): State {
    match e
    case Tick(m) => Monitored(s, m)
    case Frame(f) => Framed(s, f)
    case Present(now, later) => s.(watch := PostPresented(s.watch, now, later))
    case Message(now) => s.(watch := s.watch.(lastMessageTime := now))
    case Reset => s.(startup := WasReset(s.startup))
  }

  function Run(s: State, events: seq<Event>): State
    decreases |events|
  {
    if events == [] then s else Run(Act(s, events[0]), events[1..])
  }

  // ----- the choice -----

  /** At most one renderer is chosen, it is hooked, the framework is valid exactly
      when one is chosen, and no hook function ever met the other renderer. */
  predicate ChoiceOk(c: Choice) {
    && !(c.is11 && c.is12) && (c.valid <==> c.is11 || c.is12) && !c.fellThrough
    && (c.is11 ==> c.hook11 == Some(true)) && (c.is12 ==> c.hook12 == Some(true))
  }

  lemma EventKeepsChoice(s: State, e: Event)
    requires ChoiceOk(s.choice)
    ensures ChoiceOk(Act(s, e).choice)
  {
  }

  lemma {:induction false} ChoiceStaysOk(s: State, events: seq<Event>)
    requires ChoiceOk(s.choice)
    ensures ChoiceOk(Run(s, events).choice)
    decreases |events|
  {
    if events != [] {
      EventKeepsChoice(s, events[0]);
      ChoiceStaysOk(Act(s, events[0]), events[1..]);
    }
  }

  lemma ChoiceIsOkInEveryRun(now: int, later: int, events: seq<Event>)
    ensures ChoiceOk(Run(Started(now, later), events).choice)
  {
    ChoiceStaysOk(Started(now, later), events);
  }

  predicate BothInstalled(c: Choice) {
    c.hook11 == Some(true) && c.hook12 == Some(true)
  }

  /** Start-up has let its sixty calls pass and its renderer is hooked. */
  predicate ReadyToStart(s: State) {
    && !s.startup.initialized && !s.startup.firstInitialize && 60 <= s.startup.framesSinceInit
    && (s.choice.is11 || s.choice.is12)
    && (if s.choice.is11 then s.choice.hook11 == Some(true) else s.choice.hook12 == Some(true))
  }

  /** A frame whose device is null then switches renderers. */
  predicate Switches(s: State, f: FrameInput) {
    ReadyToStart(s) && f.deviceNull
  }

  /** Nothing tells the monitor that a Present is being made. */
  predicate NotPresenting(s: State, m: MonitorInput) {
    || s.choice.hook11.None? || s.choice.hook12.None?
    || (if s.startup.renderer == D3D11 then !m.inside11 else !m.inside12)
  }

  /** A pass of the monitor that requests a new hook: the last present is over five
      seconds old, as it already was at a pass more than a second before. */
  predicate Rehooks(s: State, m: MonitorInput) {
    && NotPresenting(s, m) && m.now - s.watch.lastPresentTime > 5_000_000_000
    && !s.watch.hasLastChance && m.now - s.watch.lastChanceTime > 1_000_000_000
  }

  /** While a Present is being made the monitor does nothing. */
  lemma MonitorWaitsForPresent(s: State, m: MonitorInput)
    requires !NotPresenting(s, m)
    ensures Act(s, Tick(m)) == s
  {
  }

  /** What a request comes to: D3D11 is hooked anew if it was chosen, else D3D12 if
      it can be, else D3D11; the framework is valid exactly if one of them hooked. */
  lemma RequestChooses(s: State, m: MonitorInput)
    requires ChoiceOk(s.choice) && Rehooks(s, m)
    ensures var c := Act(s, Tick(m)).choice;
      && (c.is12 <==> !s.choice.is11 && m.hooks.library12 && m.hooks.ok12)
      && (c.is11 <==> !c.is12 && m.hooks.ok11)
      && (c.valid <==> c.is11 || c.is12)
  {
  }

  /** What a switch comes to: the other renderer if it can be hooked; from D3D11
      else D3D11 again, if it can. */
  lemma SwitchChooses(s: State, f: FrameInput)
    requires ChoiceOk(s.choice) && Switches(s, f)
    ensures var c := Act(s, Frame(f)).choice;
      && (c.is12 <==> s.choice.is11 && f.hooks.library12 && f.hooks.ok12)
      && (c.is11 <==> !c.is12 && f.hooks.ok11)
      && Act(s, Frame(f)).startup.firstInitialize
  {
  }

  /** The renderer that is not chosen keeps no hook. */
  predicate OthersUnhooked(c: Choice) {
    (c.hook11 == Some(true) ==> c.is11) && (c.hook12 == Some(true) ==> c.is12)
  }

  /** The two ways to leave a hook behind: a request finds that the library of the
      hooked D3D12 no longer loads, or a switch fails to unhook and does not end by
      hooking the same renderer anew. */
  predicate LeavesHook(s: State, e: Event) {
    match e
    case Tick(m) => Rehooks(s, m) && s.choice.is12 && !m.hooks.library12
    case Frame(f) => Switches(s, f) && !f.unhookOk && (s.choice.is12 || (f.hooks.library12 && f.hooks.ok12))
    case _ => false
  }

  lemma HookIsLeftIff(s: State, e: Event)
    requires ChoiceOk(s.choice) && OthersUnhooked(s.choice)
    ensures OthersUnhooked(Act(s, e).choice) <==> !LeavesHook(s, e)
  {
    match e
    case Tick(m) =>
    case Frame(f) =>
    case _ =>
  }

  /** In every state of the run the renderer that is not chosen has no hook. */
  predicate AlwaysUnhooked(s: State, events: seq<Event>)
    decreases |events|
  {
    OthersUnhooked(s.choice) && (events == [] || AlwaysUnhooked(Act(s, events[0]), events[1..]))
  }

  predicate NoHookLeft(s: State, events: seq<Event>)
    decreases |events|
  {
    events == [] || (!LeavesHook(s, events[0]) && NoHookLeft(Act(s, events[0]), events[1..]))
  }

  lemma {:induction false} RunLeavesNoHookIff(s: State, events: seq<Event>)
    requires ChoiceOk(s.choice) && OthersUnhooked(s.choice)
    ensures AlwaysUnhooked(s, events) <==> NoHookLeft(s, events)
    decreases |events|
  {
    if events != [] {
      HookIsLeftIff(s, events[0]);
      EventKeepsChoice(s, events[0]);
      if OthersUnhooked(Act(s, events[0]).choice) {
        RunLeavesNoHookIff(Act(s, events[0]), events[1..]);
      }
    }
  }

  lemma {:induction false} RunEndsUnhooked(s: State, events: seq<Event>)
    requires AlwaysUnhooked(s, events)
    ensures OthersUnhooked(Run(s, events).choice)
    decreases |events|
  {
    if events != [] {
      RunEndsUnhooked(Act(s, events[0]), events[1..]);
    }
  }

  /** From start-up on: no unchosen renderer is ever hooked exactly when none of
      the two accidents happens, and without them the hooks of both renderers are
      never in place together. */
  lemma HooksStayApartIff(now: int, later: int, events: seq<Event>)
    ensures AlwaysUnhooked(Started(now, later), events) <==> NoHookLeft(Started(now, later), events)
    ensures NoHookLeft(Started(now, later), events) ==> !BothInstalled(Run(Started(now, later), events).choice)
  {
    var s := Started(now, later);
    RunLeavesNoHookIff(s, events);
    if NoHookLeft(s, events) {
      RunEndsUnhooked(s, events);
      ChoiceStaysOk(s, events);
    }
  }

  /** Which single event puts the second hook in place, leftovers of earlier
      accidents included. */
  predicate InstallsSecond(s: State, e: Event) {
    var c := s.choice;
    match e
    case Tick(m) =>
      Rehooks(s, m) &&
      if !c.is11 && m.hooks.library12 then m.hooks.ok12 && c.hook11 == Some(true)
      else m.hooks.ok11 && c.hook12 == Some(true)
    case Frame(f) =>
      Switches(s, f) &&
      if c.is11 && f.hooks.library12 then f.hooks.ok12 && !f.unhookOk
      else if c.is11 then f.hooks.ok11 && c.hook12 == Some(true)
      else f.hooks.ok11 && !f.unhookOk
    case _ => false
  }

  lemma BothInstalledIff(s: State, e: Event)
    requires ChoiceOk(s.choice) && !BothInstalled(s.choice)
    ensures BothInstalled(Act(s, e).choice) <==> InstallsSecond(s, e)
  {
    match e
    case Tick(m) =>
    case Frame(f) =>
    case _ =>
  }

  // ----- waiting between switches -----

  /** How many calls of `initialize` still pass before it does anything. */
  function CallsToWait(s: Startup): nat {
    if s.firstInitialize then FRAMES_BEFORE_INIT
    else if s.framesSinceInit < FRAMES_BEFORE_INIT then FRAMES_BEFORE_INIT - s.framesSinceInit else 0
  }

  function Frames(events: seq<Event>): nat {
    if events == [] then 0 else (if events[0].Frame? then 1 else 0) + Frames(events[1..])
  }

  /** No frame of the run changes the choice of renderer. */
  predicate FramesKeepChoice(s: State, events: seq<Event>)
    decreases |events|
  {
    events == [] ||
    ((events[0].Frame? ==> Act(s, events[0]).choice == s.choice) && FramesKeepChoice(Act(s, events[0]), events[1..]))
  }

  lemma {:induction false} EventWaits(s: State, e: Event)
    requires !s.startup.initialized && !e.Reset? && (e.Frame? ==> 0 < CallsToWait(s.startup))
    ensures var r := Act(s, e);
      && !r.startup.initialized && (e.Frame? ==> r.choice == s.choice)
      && CallsToWait(r.startup) == CallsToWait(s.startup) - (if e.Frame? then 1 else 0)
  {
  }

  /** No frame switches renderers, and no frame finishes start-up, before the
      wait is over, whatever the monitor does meanwhile; a device reset is what
      cuts the wait short. */
  lemma {:induction false} NothingDuringTheWait(s: State, events: seq<Event>)
    requires !s.startup.initialized && Frames(events) <= CallsToWait(s.startup)
    requires forall e | e in events :: !e.Reset?
    ensures FramesKeepChoice(s, events) && !Run(s, events).startup.initialized
    ensures CallsToWait(Run(s, events).startup) == CallsToWait(s.startup) - Frames(events)
    decreases |events|
  {
    if events != [] {
      assert events[0] in events;
      EventWaits(s, events[0]);
      NothingDuringTheWait(Act(s, events[0]), events[1..]);
    }
  }

  /** Exactly when the framework is initialized after a frame. */
  lemma FrameInitializesIff(s: State, f: FrameInput)
    ensures var up := Act(s, Frame(f)).startup;
      && (up.initialized <==>
            if s.startup.initialized then !f.deviceNull
            else ReadyToStart(s) && !f.deviceNull && f.imguiOk && f.targetsOk)
      && up.renderer == f.renderer
      && (up.initialized && !s.startup.initialized ==>
            && up.window == f.windowFound && !up.firstFrame
            && (f.windowFound ==> up.messageHook && !up.messageHookRequested)
            && (f.windowFound && !s.startup.messageHook ==> Act(s, Frame(f)).watch.lastMessageTime == f.now))
  {
  }

  /** From the start sixty frames pass; the next one can initialize, and every one
      after a reset can. */
  lemma SixtyFramesPass(now: int, later: int, events: seq<Event>, f: FrameInput)
    requires (forall e | e in events :: !e.Reset?) && Frames(events) <= 60
    ensures var s := Run(Started(now, later), events);
      && FramesKeepChoice(Started(now, later), events) && !s.startup.initialized
      && (Frames(events) < 60 ==> !Act(s, Frame(f)).startup.initialized)
      && (Frames(events) == 60 && s.choice.valid && !f.deviceNull && f.imguiOk && f.targetsOk ==>
            Act(s, Frame(f)).startup.initialized && ReadyToStart(Act(Act(s, Frame(f)), Reset)))
  {
    var start := Started(now, later);
    NothingDuringTheWait(start, events);
    ChoiceStaysOk(start, events);
    var s := Run(start, events);
    FrameInitializesIff(s, f);
  }

  /** Right after a switch, the next frame can switch again exactly when a reset
      comes in between. */
  lemma SecondSwitchAtOnceIff(s: State, f: FrameInput, reset: bool, g: FrameInput)
    requires ChoiceOk(s.choice) && Switches(s, f) && g.deviceNull
    ensures var s1 := Act(s, Frame(f));
      var s2 := if reset then Act(s1, Reset) else s1;
      (s1.choice.is11 || s1.choice.is12) ==> (Switches(s2, g) <==> reset)
  {
    EventKeepsChoice(s, Frame(f));
  }

  // ----- the times -----

  /** The clock readings of an event come in order, from `t` on. */
  predicate Timed(e: Event, t: int) {
    match e
    case Tick(m) => t <= m.now <= m.t1 <= m.t2 <= m.t3 <= m.t4 <= m.t5 <= m.t6
    case Frame(f) => t <= f.now
    case Present(now, later) => t <= now <= later
    case Message(now) => t <= now
    case Reset => true
  }

  function Clock(e: Event, t: int): int {
    match e
    case Tick(m) => m.t6
    case Frame(f) => f.now
    case Present(now, later) => later
    case Message(now) => now
    case Reset => t
  }

  predicate Monotone(events: seq<Event>, t: int) {
    events == [] || (Timed(events[0], t) && Monotone(events[1..], Clock(events[0], t)))
  }

  /** Every request came from two stale passes more than a second apart, and more
      than eleven seconds after the request before it. */
  predicate RequestsOk(requests: seq<Request>) {
    && (forall k | 0 <= k < |requests| :: RequestOk(requests[k]))
    && (forall j, k | 0 <= j < k < |requests| :: requests[k].at > requests[j].resumed + 11 * SECOND)
  }

  predicate RequestOk(r: Request) {
    && r.at > r.armed + SECOND && r.at <= r.resumed
    && r.armed - r.presentWhenArmed > 5 * SECOND
    && r.at - r.presentAt > 5 * SECOND
  }

  /** Relates the stored times to the clock t and to the last request. */
  predicate WatchOk(w: Watch, t: int) {
    && w.lastPresent <= w.lastPresentTime <= t + 5 * SECOND
    && RequestsOk(w.requests)
    && (w.requests != [] ==>
         forall k | 0 <= k < |w.requests| :: w.lastPresentTime >= w.requests[k].resumed + 5 * SECOND)
    && (!w.hasLastChance ==>
         && w.lastChanceTime - w.presentWhenArmed > 5 * SECOND
         && forall k | 0 <= k < |w.requests| :: w.lastChanceTime > w.requests[k].resumed + 10 * SECOND)
  }

  lemma TickKeepsWatch(w: Watch, t: int, m: MonitorInput)
    requires WatchOk(w, t) && Timed(Tick(m), t)
    ensures WatchOk(WatchedPresent(w, m), m.t3)
    ensures WatchedPresent(w, m).lastPresentTime >= w.lastPresentTime
  {
    if Requests(w, m) {
      var r := Request(w.lastChanceTime, w.presentWhenArmed, m.now, w.lastPresent, m.t1);
      var requests := w.requests + [r];
      forall j, k | 0 <= j < k < |requests|
        ensures requests[k].at > requests[j].resumed + 11 * SECOND
      {
        assert requests[j] == w.requests[j];
      }
    }
  }

  lemma MessagesKeepWatch(up: Startup, w: Watch, t: int, m: MonitorInput)
    requires WatchOk(w, m.t3) && Timed(Tick(m), t)
    ensures WatchOk(WatchedMessages(up, w, m).1, m.t6)
    ensures WatchedMessages(up, w, m).1.lastPresentTime >= w.lastPresentTime
  {
  }

  lemma EventKeepsWatch(s: State, t: int, e: Event)
    requires WatchOk(s.watch, t) && Timed(e, t)
    ensures WatchOk(Act(s, e).watch, Clock(e, t))
    ensures Act(s, e).watch.lastPresentTime >= s.watch.lastPresentTime
  {
    match e
    case Tick(m) =>
      TickKeepsWatch(s.watch, t, m);
      MessagesKeepWatch(s.startup, WatchedPresent(s.watch, m), t, m);
    case _ =>
  }

  /** With a monotone clock, in every run: the present time never goes back, any
      two rehook requests are more than eleven seconds apart, and each request
      follows an earlier pass, more than a second before, the last present being
      more than five seconds old at both. */
  lemma {:induction false} WatchdogIsPatient(s: State, t: int, events: seq<Event>)
    requires WatchOk(s.watch, t) && Monotone(events, t)
    ensures Run(s, events).watch.lastPresentTime >= s.watch.lastPresentTime
    ensures RequestsOk(Run(s, events).watch.requests)
    decreases |events|
  {
    if events != [] {
      EventKeepsWatch(s, t, events[0]);
      WatchdogIsPatient(Act(s, events[0]), Clock(events[0], t), events[1..]);
    }
  }

  lemma WatchdogIsPatientFromStart(now: int, later: int, events: seq<Event>)
    requires now <= later && Monotone(events, later)
    ensures RequestsOk(Run(Started(now, later), events).watch.requests)
  {
    WatchdogIsPatient(Started(now, later), later, events);
  }

  // ----- the watchdog looks at the presents -----

  /** The clock reading of the latest Present event. */
  function LatestPresent(before: int, events: seq<Event>): int
    decreases |events|
  {
    if events == [] then before
    else LatestPresent(if events[0].Present? then events[0].now else before, events[1..])
  }

  lemma {:induction false} LastPresentIsLatest(s: State, events: seq<Event>)
    ensures Run(s, events).watch.lastPresent == LatestPresent(s.watch.lastPresent, events)
    decreases |events|
  {
    if events != [] {
      LastPresentIsLatest(Act(s, events[0]), events[1..]);
    }
  }

  /** Every pass of the monitor comes at most five seconds after a present, the
      latest one before the events being at time `latest`. */
  predicate KeepsPresenting(latest: int, events: seq<Event>)
    decreases |events|
  {
    events == [] ||
    match events[0]
    case Present(now, _) => KeepsPresenting(now, events[1..])
    case Tick(m) => m.now - latest <= 5_000_000_000 && KeepsPresenting(latest, events[1..])
    case _ => KeepsPresenting(latest, events[1..])
  }

  /** A game that keeps presenting is never rehooked. */
  lemma {:induction false} PresentingGameIsLeftAlone(s: State, t: int, events: seq<Event>)
    requires WatchOk(s.watch, t) && Monotone(events, t) && KeepsPresenting(s.watch.lastPresent, events)
    ensures Run(s, events).watch.requests == s.watch.requests
    decreases |events|
  {
    if events != [] {
      EventKeepsWatch(s, t, events[0]);
      NoRequestAfterPresent(s, t, events[0]);
      PresentingGameIsLeftAlone(Act(s, events[0]), Clock(events[0], t), events[1..]);
    }
  }

  lemma NoRequestAfterPresent(s: State, t: int, e: Event)
    requires WatchOk(s.watch, t) && (e.Tick? ==> e.m.now - s.watch.lastPresent <= 5_000_000_000)
    ensures Act(s, e).watch.requests == s.watch.requests
    ensures Act(s, e).watch.lastPresent == if e.Present? then e.now else s.watch.lastPresent
  {
  }

  /** After a request both hooks are given ten seconds: no pass that early asks for
      anything. */
  lemma LeewayAfterRequest(s: State, m: MonitorInput, later: MonitorInput)
    requires Timed(Tick(m), m.now) && Rehooks(s, m) && later.now <= m.t1 + 10_000_000_000
    ensures var r := Act(s, Tick(m));
      && |r.watch.requests| == |s.watch.requests| + 1
      && Act(r, Tick(later)).watch.requests == r.watch.requests
      && Act(r, Tick(later)).startup.messageHookRequested == r.startup.messageHookRequested
  {
  }

  /** A present whose time is stored counts from its later reading: a pass within
      five seconds of that gives a new last chance. */
  lemma StoredPresentIsFresh(s: State, now: int, later: int, m: MonitorInput)
    requires s.watch.lastPresentTime <= now && NotPresenting(s, m) && m.now - later <= 5_000_000_000
    ensures var r := Act(Act(s, Present(now, later)), Tick(m));
      r.watch.hasLastChance && r.watch.lastChanceTime == m.t1 && r.watch.requests == s.watch.requests
  {
  }

  lemma PresentingGameIsLeftAloneFromStart(now: int, later: int, events: seq<Event>)
    requires now <= later && Monotone(events, later) && KeepsPresenting(now, events)
    ensures Run(Started(now, later), events).watch.requests == []
  {
    PresentingGameIsLeftAlone(Started(now, later), later, events);
  }

  // ----- the watchdog does act -----

  /** The message check of this pass pushes the present time ahead: the messages
      have been stale for as long as the hook check allows. */
  predicate MessagesPostpone(s: State, m: MonitorInput) {
    && s.startup.initialized && s.startup.window && !(s.startup.messageHook && m.messageHookIntact)
    && m.now - s.watch.lastMessageTime > 5 * SECOND
    && s.watch.sentMessage && m.now - s.watch.lastSendMessageTime > SECOND
  }

  /** The game does not present, each pass of the monitor looks at the presents,
      and lost window messages do not postpone its verdict.  Messages, frames and
      resets may come as they like. */
  predicate StaysStale(s: State, events: seq<Event>)
    decreases |events|
  {
    events == [] ||
    (&& !events[0].Present?
     && (events[0].Tick? ==> NotPresenting(s, events[0].m) && !MessagesPostpone(s, events[0].m))
     && StaysStale(Act(s, events[0]), events[1..]))
  }

  lemma {:induction false} RequestsStay(s: State, events: seq<Event>)
    ensures |s.watch.requests| <= |Run(s, events).watch.requests|
    decreases |events|
  {
    if events != [] {
      RequestsStay(Act(s, events[0]), events[1..]);
    }
  }

  /** A pass after time t is among the events. */
  predicate PassAfter(events: seq<Event>, t: int) {
    exists i :: 0 <= i < |events| && events[i].Tick? && events[i].m.now > t
  }

  /** The last chance has been given by time `since`. */
  predicate OnLastChance(w: Watch, since: int) {
    Stale(w, since) && !w.hasLastChance && w.lastChanceTime <= since
  }

  lemma StaleEvent(s: State, t: int, e: Event, since: int)
    requires Timed(e, t) && StaysStale(s, [e]) && since <= t && OnLastChance(s.watch, since)
    ensures OnLastChance(Act(s, e).watch, since) || |s.watch.requests| < |Act(s, e).watch.requests|
    ensures e.Tick? && e.m.now > since + SECOND ==> |s.watch.requests| < |Act(s, e).watch.requests|
  {
  }

  lemma {:induction false} ArmedGameIsRehooked(s: State, t: int, events: seq<Event>, since: int)
    requires Monotone(events, t) && StaysStale(s, events) && since <= t && PassAfter(events, since + SECOND)
    requires OnLastChance(s.watch, since)
    ensures |s.watch.requests| < |Run(s, events).watch.requests|
    decreases |events|
  {
    var e, s' := events[0], Act(s, events[0]);
    assert StaysStale(s, [e]);
    StaleEvent(s, t, e, since);
    RequestsStay(s', events[1..]);
    if |s.watch.requests| == |s'.watch.requests| {
      var i :| 0 <= i < |events| && events[i].Tick? && events[i].m.now > since + SECOND;
      assert events[1..][i - 1] == events[i];
      ArmedGameIsRehooked(s', Clock(e, t), events[1..], since);
    }
  }

  /** While the game stays stale, two passes more than a second apart, the first of
      them already stale, always bring about a request. */
  lemma StaleGameIsRehooked(s: State, t: int, first: MonitorInput, events: seq<Event>)
    requires Monotone([Tick(first)] + events, t) && StaysStale(s, [Tick(first)] + events)
    requires first.now - s.watch.lastPresentTime > 5_000_000_000 && PassAfter(events, first.now + 1_000_000_000)
    requires !s.watch.hasLastChance ==> s.watch.lastChanceTime <= first.now
    ensures |s.watch.requests| < |Run(s, [Tick(first)] + events).watch.requests|
  {
    var all := [Tick(first)] + events;
    assert all[1..] == events;
    var s' := Act(s, Tick(first));
    RequestsStay(s', events);
    if !Requests(s.watch, first) {
      ArmedGameIsRehooked(s', first.t6, events, first.now);
    }
  }

  // ----- the window message hook -----

  /** No message arrives, the window's hook is not seen intact, and each pass of the
      monitor gets to look. */
  predicate StaysSilent(s: State, events: seq<Event>)
    decreases |events|
  {
    events == [] ||
    (&& (events[0].Tick? || events[0].Present?)
     && (events[0].Tick? ==> NotPresenting(s, events[0].m) && !(s.startup.messageHook && events[0].m.messageHookIntact))
     && StaysSilent(Act(s, events[0]), events[1..]))
  }

  /** The test message has been sent by time `since`, and messages were stale then. */
  predicate TestSent(s: State, since: int) {
    && s.startup.initialized && s.startup.window && since - s.watch.lastMessageTime > 5_000_000_000
    && s.watch.sentMessage && s.watch.lastSendMessageTime <= since
  }

  /** A new message hook is asked for, or a new D3D hook was meanwhile. */
  predicate Acted(s: State, r: State) {
    r.startup.messageHookRequested || |s.watch.requests| < |r.watch.requests|
  }

  lemma SilentEvent(s: State, t: int, e: Event, since: int)
    requires Timed(e, t) && StaysSilent(s, [e]) && since <= t && TestSent(s, since)
    ensures TestSent(Act(s, e), since) || Acted(s, Act(s, e))
    ensures e.Tick? && e.m.now > since + 1_000_000_000 ==> Acted(s, Act(s, e))
  {
  }

  lemma {:induction false} RequestIsKept(s: State, events: seq<Event>)
    requires StaysSilent(s, events) && s.startup.messageHookRequested
    ensures Run(s, events).startup.messageHookRequested
    decreases |events|
  {
    if events != [] {
      RequestIsKept(Act(s, events[0]), events[1..]);
    }
  }

  lemma {:induction false} SilentWindowIsRehooked(s: State, t: int, events: seq<Event>, since: int)
    requires Monotone(events, t) && StaysSilent(s, events) && since <= t && TestSent(s, since)
    requires PassAfter(events, since + 1_000_000_000)
    ensures Acted(s, Run(s, events))
    decreases |events|
  {
    var e, s' := events[0], Act(s, events[0]);
    assert StaysSilent(s, [e]);
    SilentEvent(s, t, e, since);
    RequestsStay(s', events[1..]);
    RequestsStay(s, [e]);
    assert [e][1..] == [];
    if s'.startup.messageHookRequested {
      RequestIsKept(s', events[1..]);
    } else if !Acted(s, s') {
      var i :| 0 <= i < |events| && events[i].Tick? && events[i].m.now > since + 1_000_000_000;
      assert events[1..][i - 1] == events[i];
      SilentWindowIsRehooked(s', Clock(e, t), events[1..], since);
    }
  }

  /** A window whose messages no longer arrive gets a new message hook requested: a
      pass over five seconds after the last message, and another one more than a
      second later, are enough. */
  lemma LostMessagesAreNoticed(s: State, t: int, first: MonitorInput, events: seq<Event>)
    requires Monotone([Tick(first)] + events, t) && StaysSilent(s, [Tick(first)] + events)
    requires s.startup.initialized && s.startup.window && first.now - s.watch.lastMessageTime > 5_000_000_000
    requires s.watch.sentMessage ==> s.watch.lastSendMessageTime <= first.now
    requires PassAfter(events, first.t6 + 1_000_000_000)
    ensures Acted(s, Run(s, [Tick(first)] + events))
  {
    var all := [Tick(first)] + events;
    assert all[1..] == events;
    var s' := Act(s, Tick(first));
    RequestsStay(s', events);
    RequestsStay(s, [Tick(first)]);
    assert [Tick(first)][1..] == [];
    if s'.startup.messageHookRequested {
      RequestIsKept(s', events);
    } else if !Acted(s, s') {
      SilentWindowIsRehooked(s', first.t6, events, first.t6);
    }
  }

  /** A pass that finds messages fresh or the hook intact starts the test anew: the
      pass after it asks for no message hook. */
  lemma TestComesFirst(s: State, m: MonitorInput, next: MonitorInput)
    requires NotPresenting(s, m) && !Rehooks(s, m)
    requires m.now - s.watch.lastMessageTime <= 5_000_000_000 || (s.startup.messageHook && m.messageHookIntact)
    ensures Act(Act(s, Tick(m)), Tick(next)).startup.messageHookRequested == s.startup.messageHookRequested
  {
  }

  /** Asking for a message hook gives the presents ten seconds, too. */
  lemma LeewayAfterRenewal(s: State, m: MonitorInput, later: MonitorInput)
    requires Timed(Tick(m), m.now) && !Rehooks(s, m) && later.now <= m.t5 + 10_000_000_000
    requires !s.startup.messageHookRequested && Act(s, Tick(m)).startup.messageHookRequested
    ensures Act(Act(s, Tick(m)), Tick(later)).watch.requests == s.watch.requests
    ensures Act(Act(s, Tick(m)), Tick(later)).watch.lastSendMessageTime == Act(s, Tick(m)).watch.lastSendMessageTime
  {
  }

  /** The next frame serves the request. */
  lemma RequestedHookIsRenewed(s: State, f: FrameInput)
    requires s.startup.initialized && s.startup.messageHookRequested
    ensures var r := Act(s, Frame(f));
      if s.startup.window then
        r.startup.messageHook && !r.startup.messageHookRequested && r.watch.lastMessageTime == f.now
      else r.startup.messageHookRequested && r.watch == s.watch
  {
  }

  /** Every pass comes at most five seconds after a message, the latest one before
      the events being at time `latest`, or sees the hook intact. */
  predicate KeepsMessaging(s: State, latest: int, events: seq<Event>)
    decreases |events|
  {
    events == [] ||
    (&& (events[0].Tick? ==>
          events[0].m.now - latest <= 5_000_000_000 || (s.startup.messageHook && events[0].m.messageHookIntact))
     && KeepsMessaging(Act(s, events[0]), if events[0].Message? then events[0].now else latest, events[1..]))
  }

  lemma MessageKeepsHook(s: State, t: int, e: Event, latest: int)
    requires Timed(e, t) && KeepsMessaging(s, latest, [e]) && latest <= t && latest <= s.watch.lastMessageTime
    requires !s.startup.messageHookRequested
    ensures var next := if e.Message? then e.now else latest;
      next <= Clock(e, t) && next <= Act(s, e).watch.lastMessageTime
    ensures !Act(s, e).startup.messageHookRequested
  {
  }

  /** A window that keeps getting messages never has its hook renewed. */
  lemma {:induction false} MessagingWindowIsLeftAlone(s: State, t: int, events: seq<Event>, latest: int)
    requires Monotone(events, t) && KeepsMessaging(s, latest, events)
    requires latest <= t && latest <= s.watch.lastMessageTime && !s.startup.messageHookRequested
    ensures !Run(s, events).startup.messageHookRequested
    decreases |events|
  {
    if events != [] {
      var e := events[0];
      assert KeepsMessaging(s, latest, [e]);
      MessageKeepsHook(s, t, e, latest);
      MessagingWindowIsLeftAlone(Act(s, e), Clock(e, t), events[1..], if e.Message? then e.now else latest);
    }
  }
}
