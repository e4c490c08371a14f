/** The hooked program executes the instructions of the unhooked one, and how
    often callbacks run. */
module VehHookTransparency {
  import opened Prelude
  import opened VehHook
  import opened VehHookRun

  /** The bytes of the instruction at `at`, as far as there is code. */
  function Window<D>(isa: Isa<D>, code: Code, at: nat): (w: seq<Byte>)
    requires at <= |code|
  {
    var end := at + isa.width(code, at);
    if end <= |code| then code[at..end] else code[at..]
  }

  /** The length of an instruction depends on its own bytes only. */
  predicate SameWidth<D>(isa: Isa<D>, c: Code, c': Code, at: nat)
    requires at <= |c| <= |c'|
  {
    Window(isa, c, at) == c'[at..at + |Window(isa, c, at)|] ==> isa.width(c', at) == isa.width(c, at)
  }

  ghost predicate LocalWidths<D(!new)>(isa: Isa<D>) {
    forall c, c', a: nat | a <= |c| == |c'| :: SameWidth(isa, c, c', a)
  }

  /** None of the spots is inside the instruction at pc. */
  predicate Whole<D>(isa: Isa<D>, code: Code, spots: set<nat>, pc: nat) {
    pc < |code| ==> forall a | a in spots && pc < a :: pc + isa.width(code, pc) <= a
  }

  function PlainRun<D>(isa: Isa<D>, p: Machine<D>, n: nat): Machine<D>
    requires p.groups == []
    decreases n
  {
    if n == 0 then p else PlainRun(isa, Tick(isa, p), n - 1)
  }

  /** However the unhooked machine goes on, branching, calling and returning, it
      executes no instruction that has one of the spots inside it. */
  ghost predicate RunsAround<D>(isa: Isa<D>, spots: set<nat>, p: Machine<D>)
    requires p.groups == []
  {
    forall n: nat :: Whole(isa, p.mem, spots, PlainRun(isa, p, n).pc)
  }

  /** The hooks sit on the spots and redirect nothing. */
  predicate Plain(hooks: seq<HookInfo>, spots: set<nat>) {
    forall h | h in hooks :: h.target in spots && h.next in spots && h.destination == 0
  }

  predicate PlainEvent(e: Event, spots: set<nat>) {
    e.Install? ==> e.target in spots && e.target + e.len in spots && e.destination == 0
  }

  /** The hooked machine s and the unhooked machine p have executed the same
      instructions and are about to execute the same one. */
  ghost predicate Sim<D>(isa: Isa<D>, code: Code, spots: set<nat>, s: Machine<D>, p: Machine<D>) {
    && Inv(code, s) && Plain(All(s.groups), spots)
    && p.mem == code && p.groups == [] && RunsAround(isa, spots, p)
    && s.pc == p.pc && s.data == p.data && s.trace == p.trace
  }

  /** Fetching a whole instruction that begins with no trap reads original bytes only. */
  lemma SameWindow<D(!new)>(isa: Isa<D>, code: Code, spots: set<nat>, s: Machine<D>)
    requires LocalWidths(isa) && Inv(code, s) && Plain(All(s.groups), spots)
    requires Whole(isa, code, spots, s.pc) && s.pc < |code| && s.mem[s.pc] != INT3
    ensures code[s.pc] != INT3
    ensures isa.width(s.mem, s.pc) == isa.width(code, s.pc)
    ensures Window(isa, s.mem, s.pc) == Window(isa, code, s.pc)
  {
    var w := Window(isa, code, s.pc);
    forall a | s.pc <= a < s.pc + |w| || a == s.pc
      ensures s.mem[a] == code[a]
    {
      if !Free(All(s.groups), a) {
        var h :| h in All(s.groups) && Touches(h, a);
        assert HookOk(code, s.mem, h) && a in spots;
      }
    }
    assert w == s.mem[s.pc..s.pc + |w|];
    assert SameWidth(isa, code, s.mem, s.pc);
  }

  lemma RunsOn<D>(isa: Isa<D>, spots: set<nat>, p: Machine<D>)
    requires p.groups == [] && RunsAround(isa, spots, p)
    ensures Whole(isa, p.mem, spots, p.pc)
    ensures var r := Tick(isa, p); r.mem == p.mem && r.groups == [] && RunsAround(isa, spots, r)
  {
    assert PlainRun(isa, p, 0) == p;
    forall n: nat
      ensures Whole(isa, p.mem, spots, PlainRun(isa, Tick(isa, p), n).pc)
    {
      assert PlainRun(isa, p, n + 1) == PlainRun(isa, Tick(isa, p), n);
    }
  }

  predicate Handled<D>(s: Machine<D>) {
    Trapping(s) && Find(All(s.groups), s.pc).Some?
  }

  /** A handled trap is invisible; any other step is the same step of the
      unhooked machine. */
  lemma TickSimulates<D(!new)>(isa: Isa<D>, code: Code, spots: set<nat>, s: Machine<D>, p: Machine<D>)
    requires LocalWidths(isa) && Sim(isa, code, spots, s, p)
    ensures Handled(s) ==> Sim(isa, code, spots, Tick(isa, s), p)
    ensures !Handled(s) ==> Sim(isa, code, spots, Tick(isa, s), Tick(isa, p))
    ensures !Handled(s) && Tick(isa, s).trace == s.trace ==> Tick(isa, p) == p
    ensures |s.trace| <= |Tick(isa, s).trace| <= |s.trace| + 1
    ensures Handled(s) ==> Tick(isa, s).trace == s.trace
  {
    ApplyKeepsInv(isa, code, s, Step);
    FindIsIn(All(s.groups), s.pc);
    RunsOn(isa, spots, p);
    if s.pc < |code| {
      if s.mem[s.pc] != INT3 {
        SameWindow(isa, code, spots, s);
      } else if !Handled(s) {
        assert code[s.pc] == INT3;
      }
    }
  }

  ghost predicate PlainHistory(events: seq<Event>, spots: set<nat>) {
    forall e | e in events :: PlainEvent(e, spots)
  }

  lemma GroupUpdateKeepsPlain(groups: seq<seq<HookInfo>>, g: nat, hooks: seq<HookInfo>, spots: set<nat>)
    requires g < |groups| && Plain(All(groups), spots)
    requires Plain(groups[g], spots) ==> Plain(hooks, spots)
    ensures Plain(All(groups[g := hooks]), spots)
  {
    AllSplit(groups, g);
    assert Plain(groups[g], spots);
    AllUpdated(groups, g, hooks);
  }

  lemma EventKeepsPlain<D>(isa: Isa<D>, spots: set<nat>, s: Machine<D>, e: Event)
    requires Plain(All(s.groups), spots) && Allowed(s, e) && PlainEvent(e, spots)
    ensures Plain(All(Apply(isa, s, e).groups), spots)
  {
    match e
    case Step =>
    case Create =>
      AllSplit(s.groups + [[]], |s.groups|);
      assert (s.groups + [[]])[..|s.groups|] == s.groups;
    case Install(g, t, len, d, cb) =>
      if t != 0 {
        GroupUpdateKeepsPlain(s.groups, g, s.groups[g] + [NewHook(s.mem, t, len, d, cb)], spots);
      }
    case Remove(g) =>
      GroupUpdateKeepsPlain(s.groups, g, [], spots);
  }

  lemma EventSimulates<D(!new)>(isa: Isa<D>, code: Code, spots: set<nat>, s: Machine<D>, p: Machine<D>, e: Event)
    requires LocalWidths(isa) && Sim(isa, code, spots, s, p)
    requires Allowed(s, e) && PlainEvent(e, spots)
    ensures var s' := Apply(isa, s, e);
      && |s.trace| <= |s'.trace| <= |s.trace| + 1
      && Sim(isa, code, spots, s', PlainRun(isa, p, |s'.trace| - |s.trace|))
  {
    if e.Step? {
      TickSimulates(isa, code, spots, s, p);
    } else {
      ApplyKeepsInv(isa, code, s, e);
      EventKeepsPlain(isa, spots, s, e);
    }
  }

  /** Transparency: for every history of steps, installs and removals, erasing
      the traps leaves a run of the unhooked program with the same executed
      instructions, the same pc and the same data. */
  lemma {:induction false} HistoryIsTransparent<D(!new)>(
      isa: Isa<D>, code: Code, spots: set<nat>, s: Machine<D>, p: Machine<D>, events: seq<Event>)
    requires LocalWidths(isa) && Sim(isa, code, spots, s, p)
    requires Legal(isa, s, events) && PlainHistory(events, spots)
    ensures var r := Run(isa, s, events);
      && |s.trace| <= |r.trace|
      && Sim(isa, code, spots, r, PlainRun(isa, p, |r.trace| - |s.trace|))
    decreases |events|
  {
    if events != [] {
      assert events[0] in events;
      EventSimulates(isa, code, spots, s, p, events[0]);
      var s' := Apply(isa, s, events[0]);
      HistoryIsTransparent(isa, code, spots, s', PlainRun(isa, p, |s'.trace| - |s.trace|), events[1..]);
    }
  }

  /** The same, from the moment the program is started without hooks. */
  lemma StartedUnhookedIsTransparent<D(!new)>(
      isa: Isa<D>, code: Code, spots: set<nat>, pc: nat, data: D, events: seq<Event>)
    requires LocalWidths(isa) && RunsAround(isa, spots, Unhooked(code, pc, data))
    requires Legal(isa, Unhooked(code, pc, data), events) && PlainHistory(events, spots)
    ensures var r := Run(isa, Unhooked(code, pc, data), events);
      var p := PlainRun(isa, Unhooked(code, pc, data), |r.trace|);
      r.trace == p.trace && r.pc == p.pc && r.data == p.data
  {
    var s := Unhooked(code, pc, data);
    HistoryIsTransparent(isa, code, spots, s, s, events);
  }

  // ----- the other direction: hooks never block the program -----

  /** The unhooked machine can execute an instruction. */
  predicate CanRun<D>(isa: Isa<D>, p: Machine<D>) {
    p.pc < |p.mem| && p.mem[p.pc] != INT3 && p.pc + isa.width(p.mem, p.pc) <= |p.mem|
  }

  predicate Runs<D>(isa: Isa<D>, p: Machine<D>, n: nat)
    requires p.groups == []
    decreases n
  {
    n == 0 || (CanRun(isa, p) && Runs(isa, Tick(isa, p), n - 1))
  }

  /** One instruction together with the trap before it, if there is one. */
  function Stride<D>(isa: Isa<D>, s: Machine<D>): Machine<D> {
    if Trapping(s) then Tick(isa, Tick(isa, s)) else Tick(isa, s)
  }

  function Strides<D>(isa: Isa<D>, s: Machine<D>, n: nat): Machine<D>
    decreases n
  {
    if n == 0 then s else Strides(isa, Stride(isa, s), n - 1)
  }

  predicate IsArmed<D>(s: Machine<D>, h: HookInfo) {
    h.target < |s.mem| && s.mem[h.target] == INT3
  }

  function Calls(calls: seq<nat>, target: nat): nat {
    multiset(calls)[target]
  }

  /** What a handled trap does to one of the hooks. */
  lemma TrapEffect<D>(isa: Isa<D>, code: Code, s: Machine<D>, h: HookInfo)
    requires Inv(code, s) && Handled(s) && (s.pc == h.target ==> code[s.pc] != INT3)
    requires forall k | k in All(s.groups) :: k.destination == 0
    requires h in All(s.groups) && h.callback
    ensures var r := Tick(isa, s);
      && r.groups == s.groups && r.trace == s.trace && r.pc == s.pc
      && s.pc < |r.mem| == |code| && r.mem[s.pc] == code[s.pc]
      && IsArmed(r, h) == (if s.pc == h.target then false else if s.pc == h.next then true else IsArmed(s, h))
      && Calls(r.calls, h.target) == Calls(s.calls, h.target) + if s.pc == h.target then 1 else 0
  {
    var hooks := All(s.groups);
    FindIsIn(hooks, s.pc);
    var k := Find(hooks, s.pc).value;
    assert HookOk(code, s.mem, h) && HookOk(code, s.mem, k);
    TrapKeepsHooks(code, s.mem, hooks, k, s.pc);
    if Touches(h, s.pc) {
      TouchedOnce(code, s.mem, hooks, h, k, s.pc);
    } else {
      if Touches(k, h.target) { TouchedOnce(code, s.mem, hooks, h, k, h.target); }
      if Touches(k, h.next) { TouchedOnce(code, s.mem, hooks, h, k, h.next); }
    }
  }

  /** What one stride executes, calls and does to the state of hook h. */
  lemma StrideEffect<D(!new)>(isa: Isa<D>, code: Code, spots: set<nat>, s: Machine<D>, p: Machine<D>, h: HookInfo)
    requires LocalWidths(isa) && Sim(isa, code, spots, s, p) && CanRun(isa, p)
    requires h in All(s.groups) && h.callback
    ensures var r := Stride(isa, s);
      && Sim(isa, code, spots, r, Tick(isa, p)) && r.groups == s.groups
      && |r.trace| == |s.trace| + 1 && r.trace[..|s.trace|] == s.trace && r.trace[|s.trace|].at == s.pc
      && IsArmed(r, h) == (if s.pc == h.target then false else if s.pc == h.next then true else IsArmed(s, h))
      && Calls(r.calls, h.target) == Calls(s.calls, h.target) + if s.pc == h.target && IsArmed(s, h) then 1 else 0
  {
    StrideSimulates(isa, code, spots, s, p);
    if Trapping(s) {
      TrapEffect(isa, code, s, h);
    } else {
      assert HookOk(code, s.mem, h);
    }
  }

  lemma StrideSimulates<D(!new)>(isa: Isa<D>, code: Code, spots: set<nat>, s: Machine<D>, p: Machine<D>)
    requires LocalWidths(isa) && Sim(isa, code, spots, s, p) && CanRun(isa, p)
    ensures Sim(isa, code, spots, Stride(isa, s), Tick(isa, p))
    ensures Trapping(s) ==> Handled(s)
  {
    TickSimulates(isa, code, spots, s, p);
    if Trapping(s) {
      FindIsIn(All(s.groups), s.pc);
      var h := Find(All(s.groups), s.pc).value;
      TrapKeepsHooks(code, s.mem, All(s.groups), h, s.pc);
      TickSimulates(isa, code, spots, Tick(isa, s), p);
    }
  }

  /** Every n instructions of the unhooked program are executed by the hooked
      one too, with at most one trap before each. */
  lemma {:induction false} HooksNeverBlock<D(!new)>(
      isa: Isa<D>, code: Code, spots: set<nat>, s: Machine<D>, p: Machine<D>, n: nat)
    requires LocalWidths(isa) && Sim(isa, code, spots, s, p) && Runs(isa, p, n)
    ensures Sim(isa, code, spots, Strides(isa, s, n), PlainRun(isa, p, n))
    decreases n
  {
    if n > 0 {
      StrideSimulates(isa, code, spots, s, p);
      HooksNeverBlock(isa, code, spots, Stride(isa, s), Tick(isa, p), n - 1);
    }
  }

  /** r comes k steps after s: n strides on, or n strides and a trap. */
  ghost predicate Strode<D>(isa: Isa<D>, s: Machine<D>, r: Machine<D>, k: nat, n: nat) {
    var t := Strides(isa, s, n);
    || (n <= k <= 2 * n && r == t)
    || (n < k <= 2 * n + 1 && Trapping(t) && r == Tick(isa, t))
  }

  lemma OneStrideMore<D>(isa: Isa<D>, s: Machine<D>, r: Machine<D>, k: nat, n: nat, more: nat)
    requires Strode(isa, Stride(isa, s), r, k, n) && 1 <= more <= 2
    ensures Strode(isa, s, r, k + more, n + 1)
  {
  }

  /** Any number of steps is a number of strides, or one trap more. */
  lemma {:induction false} TicksAreStrides<D>(isa: Isa<D>, s: Machine<D>, k: nat) returns (n: nat)
    ensures Strode(isa, s, Ticks(isa, s, k), k, n)
    decreases k
  {
    if k == 0 || (k == 1 && Trapping(s)) {
      n := 0;
    } else {
      var width := if Trapping(s) then 2 else 1;
      StrideIsTicks(isa, s, k);
      var m := TicksAreStrides(isa, Stride(isa, s), k - width);
      OneStrideMore(isa, s, Ticks(isa, s, k), k - width, m, width);
      n := m + 1;
    }
  }

  lemma FirstTick<D>(isa: Isa<D>, s: Machine<D>, k: nat)
    requires 1 <= k
    ensures Ticks(isa, s, k) == Ticks(isa, Tick(isa, s), k - 1)
  {
  }

  lemma StrideIsTicks<D>(isa: Isa<D>, s: Machine<D>, k: nat)
    requires 1 <= k && (Trapping(s) ==> 2 <= k)
    ensures Ticks(isa, s, k) == Ticks(isa, Stride(isa, s), k - if Trapping(s) then 2 else 1)
  {
    FirstTick(isa, s, k);
    if Trapping(s) {
      FirstTick(isa, Tick(isa, s), k - 1);
    }
  }

  lemma {:induction false} LastTick<D>(isa: Isa<D>, s: Machine<D>, k: nat)
    ensures Ticks(isa, s, k + 1) == Tick(isa, Ticks(isa, s, k))
    decreases k
  {
    if k > 0 {
      LastTick(isa, Tick(isa, s), k - 1);
    }
  }

  // ----- callbacks -----

  /** The callbacks a hook makes along executed instructions: one at each visit
      to the target while armed, which disarms it until a visit to next. */
  function Expected(armed: bool, trace: seq<Fetch>, target: nat, next: nat): nat
    decreases |trace|
  {
    if trace == [] then 0
    else if trace[0].at == target then (if armed then 1 else 0) + Expected(false, trace[1..], target, next)
    else Expected(armed || trace[0].at == next, trace[1..], target, next)
  }

  /** Strides only add to the trace, one instruction each. */
  lemma {:induction false} StridesTrace<D(!new)>(
      isa: Isa<D>, code: Code, spots: set<nat>, s: Machine<D>, p: Machine<D>, n: nat)
    requires LocalWidths(isa) && Sim(isa, code, spots, s, p) && Runs(isa, p, n)
    ensures var r := Strides(isa, s, n); |r.trace| == |s.trace| + n && r.trace[..|s.trace|] == s.trace
    decreases n
  {
    if n > 0 {
      StrideSimulates(isa, code, spots, s, p);
      var s' := Stride(isa, s);
      StridesTrace(isa, code, spots, s', Tick(isa, p), n - 1);
      assert s'.trace == s.trace + [s'.trace[|s.trace|]];
      TraceGrows(s.trace, s'.trace, Strides(isa, s, n).trace);
    }
  }

  /** The callbacks of a hook are exactly those its executed instructions ask for. */
  lemma {:induction false} CallbacksAreExpected<D(!new)>(
      isa: Isa<D>, code: Code, spots: set<nat>, s: Machine<D>, p: Machine<D>, h: HookInfo, n: nat)
    requires LocalWidths(isa) && Sim(isa, code, spots, s, p) && Runs(isa, p, n)
    requires h in All(s.groups) && h.callback
    ensures var r := Strides(isa, s, n);
      && |r.trace| == |s.trace| + n && r.trace[..|s.trace|] == s.trace
      && Calls(r.calls, h.target) ==
         Calls(s.calls, h.target) + Expected(IsArmed(s, h), r.trace[|s.trace|..], h.target, h.next)
    decreases n
  {
    StridesTrace(isa, code, spots, s, p, n);
    if n > 0 {
      StrideEffect(isa, code, spots, s, p, h);
      var s', r := Stride(isa, s), Strides(isa, s, n);
      CallbacksAreExpected(isa, code, spots, s', Tick(isa, p), h, n - 1);
      TraceGrows(s.trace, s'.trace, r.trace);
      assert r.trace[|s.trace|..][1..] == r.trace[|s'.trace|..];
    }
  }

  lemma TraceGrows(a: seq<Fetch>, b: seq<Fetch>, c: seq<Fetch>)
    requires |b| == |a| + 1 <= |c| && b[..|a|] == a && c[..|b|] == b
    ensures c[..|a|] == a && c[|a|..] == [b[|a|]] + c[|b|..]
  {
    assert c == b + c[|b|..] && b == a + [b[|a|]];
  }

  /** How often the trace visits an address. */
  function Visits(trace: seq<Fetch>, at: nat): nat {
    if trace == [] then 0
    else
      var last := |trace| - 1;
      Visits(trace[..last], at) + if trace[last].at == at then 1 else 0
  }

  lemma VisitsSnoc(trace: seq<Fetch>, f: Fetch, at: nat)
    ensures Visits(trace + [f], at) == Visits(trace, at) + if f.at == at then 1 else 0
  {
    assert (trace + [f])[..|trace|] == trace;
  }

  /** The machine stands at the target and the callback has been made. */
  predicate Called<D>(s: Machine<D>, h: HookInfo) {
    s.pc == h.target && !IsArmed(s, h)
  }

  /** A callback hook among hooks that redirect nothing, on an instruction that is
      not itself a breakpoint. */
  ghost predicate Watching<D>(code: Code, s: Machine<D>, h: HookInfo) {
    && Inv(code, s) && (forall k | k in All(s.groups) :: k.destination == 0)
    && h in All(s.groups) && h.callback && (h.target < |code| ==> code[h.target] != INT3)
  }

  /** What one step does to the trace, the callbacks and the state of hook h. */
  lemma TickEffect<D>(isa: Isa<D>, code: Code, s: Machine<D>, h: HookInfo)
    requires Watching(code, s, h)
    ensures var r := Tick(isa, s);
      && Watching(code, r, h)
      && if Handled(s) then
           && r.trace == s.trace && r.pc == s.pc
           && IsArmed(r, h) == (if s.pc == h.target then false else if s.pc == h.next then true else IsArmed(s, h))
           && Calls(r.calls, h.target) == Calls(s.calls, h.target) + (if s.pc == h.target then 1 else 0)
           && (s.pc == h.target ==> IsArmed(s, h))
         else
           && IsArmed(r, h) == IsArmed(s, h) && r.calls == s.calls
           && if |r.trace| == |s.trace| then r.trace == s.trace && r.pc == s.pc
              else
                && |r.trace| == |s.trace| + 1 && r.trace == s.trace + [r.trace[|s.trace|]]
                && r.trace[|s.trace|].at == s.pc
                && (s.pc == h.target ==> !IsArmed(s, h)) && (s.pc == h.next ==> IsArmed(s, h))
  {
    ApplyKeepsInv(isa, code, s, Step);
    assert HookOk(code, s.mem, h);
    if Handled(s) {
      TrapEffect(isa, code, s, h);
    }
  }

  /** Between s and r callbacks have not exceeded executions of the target, one
      begun included, and two callbacks had a visit to next between them. */
  predicate Bounded<D>(s: Machine<D>, r: Machine<D>, h: HookInfo) {
    && Calls(r.calls, h.target) + Visits(s.trace, h.target) <=
       Calls(s.calls, h.target) + Visits(r.trace, h.target) + (if Called(r, h) then 1 else 0)
    && Calls(r.calls, h.target) + Visits(s.trace, h.next) + (if IsArmed(r, h) && r.pc != h.next then 1 else 0) <=
       Calls(s.calls, h.target) + Visits(r.trace, h.next) + (if IsArmed(s, h) then 1 else 0)
  }

  lemma TickKeepsBounded<D>(isa: Isa<D>, code: Code, s: Machine<D>, q: Machine<D>, h: HookInfo)
    requires Watching(code, q, h) && Bounded(s, q, h)
    ensures Watching(code, Tick(isa, q), h) && Bounded(s, Tick(isa, q), h)
  {
    TickEffect(isa, code, q, h);
    assert HookOk(code, q.mem, h);
    var r := Tick(isa, q);
    if |q.trace| < |r.trace| {
      VisitsSnoc(q.trace, r.trace[|q.trace|], h.target);
      VisitsSnoc(q.trace, r.trace[|q.trace|], h.next);
    }
  }

  /** However the hooked program runs: callbacks never exceed executions of the
      target, and a visit to next lies between any two callbacks of a hook. */
  lemma CallbackBounds<D>(isa: Isa<D>, code: Code, s: Machine<D>, h: HookInfo, k: nat)
    requires Watching(code, s, h)
    ensures Watching(code, Ticks(isa, s, k), h) && Bounded(s, Ticks(isa, s, k), h)
  {
    var r := s;
    for i := 0 to k
      invariant r == Ticks(isa, s, i)
      invariant Watching(code, r, h) && Bounded(s, r, h)
    {
      LastTick(isa, s, i);
      TickKeepsBounded(isa, code, s, r, h);
      r := Tick(isa, r);
    }
  }

  /** Where the machine went after instruction i of its trace. */
  function After<D>(r: Machine<D>, i: nat): nat {
    if i + 1 < |r.trace| then r.trace[i + 1].at else r.pc
  }

  /** From s to r, each execution of the target was followed by next. */
  predicate FallsThrough<D>(s: Machine<D>, r: Machine<D>, target: nat, next: nat) {
    forall i | |s.trace| <= i < |r.trace| && r.trace[i].at == target :: After(r, i) == next
  }

  /** From s to r, one callback was made for each execution of the target, one
      begun included. */
  predicate OneEach<D>(s: Machine<D>, r: Machine<D>, h: HookInfo) {
    && |s.trace| <= |r.trace|
    && (IsArmed(r, h) || r.pc == h.target || r.pc == h.next)
    && Calls(r.calls, h.target) + Visits(s.trace, h.target) ==
       Calls(s.calls, h.target) + Visits(r.trace, h.target) + (if Called(r, h) then 1 else 0)
  }

  predicate FollowsFalls<D>(s: Machine<D>, r: Machine<D>, h: HookInfo) {
    |s.trace| <= |r.trace| && (FallsThrough(s, r, h.target, h.next) ==> OneEach(s, r, h))
  }

  lemma TickFollowsFalls<D>(isa: Isa<D>, code: Code, s: Machine<D>, q: Machine<D>, h: HookInfo)
    requires Watching(code, q, h) && FollowsFalls(s, q, h)
    ensures Watching(code, Tick(isa, q), h) && FollowsFalls(s, Tick(isa, q), h)
  {
    TickEffect(isa, code, q, h);
    assert HookOk(code, q.mem, h);
    var r := Tick(isa, q);
    if |q.trace| < |r.trace| {
      VisitsSnoc(q.trace, r.trace[|q.trace|], h.target);
      assert After(r, |q.trace|) == r.pc;
      assert forall i | 0 <= i < |q.trace| :: r.trace[i] == q.trace[i] && After(r, i) == After(q, i);
    }
  }

  /** When the target always falls through to next, an armed hook's callback runs
      exactly once for each execution of the target. */
  lemma OneCallbackPerExecution<D>(isa: Isa<D>, code: Code, s: Machine<D>, h: HookInfo, k: nat)
    requires Watching(code, s, h) && IsArmed(s, h) && FallsThrough(s, Ticks(isa, s, k), h.target, h.next)
    ensures OneEach(s, Ticks(isa, s, k), h)
  {
    var r := s;
    for i := 0 to k
      invariant r == Ticks(isa, s, i)
      invariant Watching(code, r, h) && FollowsFalls(s, r, h)
    {
      LastTick(isa, s, i);
      TickFollowsFalls(isa, code, s, r, h);
      r := Tick(isa, r);
    }
  }

  lemma NoCallbackYet<D>(isa: Isa<D>, code: Code, s: Machine<D>, h: HookInfo)
    requires Inv(code, s) && h in All(s.groups) && !h.callback
    ensures var r := Tick(isa, s);
      Inv(code, r) && r.groups == s.groups && Calls(r.calls, h.target) == Calls(s.calls, h.target)
  {
    ApplyKeepsInv(isa, code, s, Step);
    FindIsIn(All(s.groups), s.pc);
    if s.pc == h.target {
      FoundIsOnly(code, s.mem, All(s.groups), h, s.pc);
    }
  }

  /** A hook without a callback never makes one. */
  lemma NoCallbackWithout<D>(isa: Isa<D>, code: Code, s: Machine<D>, h: HookInfo, k: nat)
    requires Inv(code, s) && h in All(s.groups) && !h.callback
    ensures Calls(Ticks(isa, s, k).calls, h.target) == Calls(s.calls, h.target)
  {
    var r := s;
    for i := 0 to k
      invariant r == Ticks(isa, s, i)
      invariant Inv(code, r) && r.groups == s.groups && Calls(r.calls, h.target) == Calls(s.calls, h.target)
    {
      LastTick(isa, s, i);
      NoCallbackYet(isa, code, r, h);
      r := Tick(isa, r);
    }
  }

  /** From the install on: while the target falls through to the address after it,
      a hook given a callback runs it once for each execution of the target, one
      begun included, and a hook given none never calls back. */
  lemma InstalledHookCallsOnce<D>(isa: Isa<D>, code: Code, s: Machine<D>, g: nat, t: nat, len: nat, cb: bool, k: nat)
    requires Inv(code, s) && Allowed(s, Install(g, t, len, 0, cb)) && t != 0 && code[t] != INT3
    requires forall h | h in All(s.groups) :: h.destination == 0
    requires var q := Apply(isa, s, Install(g, t, len, 0, cb)); FallsThrough(q, Ticks(isa, q, k), t, t + len)
    ensures var r := Ticks(isa, Apply(isa, s, Install(g, t, len, 0, cb)), k);
      && t < |r.mem|
      && Calls(r.calls, t) + (if cb then Visits(s.trace, t) else 0) ==
         Calls(s.calls, t) + (if cb then Visits(r.trace, t) + (if r.pc == t && r.mem[t] != INT3 then 1 else 0) else 0)
  {
    var q, h := Apply(isa, s, Install(g, t, len, 0, cb)), NewHook(s.mem, t, len, 0, cb);
    InstalledIsListed(isa, code, s, g, t, len, 0, cb);
    TicksKeepSize(isa, q, k);
    if cb {
      OneCallbackPerExecution(isa, code, q, h, k);
    } else {
      NoCallbackWithout(isa, code, q, h, k);
    }
  }

  lemma {:induction false} TicksKeepSize<D>(isa: Isa<D>, s: Machine<D>, k: nat)
    ensures |Ticks(isa, s, k).mem| == |s.mem|
    decreases k
  {
    if k > 0 {
      TicksKeepSize(isa, Tick(isa, s), k - 1);
    }
  }
}
