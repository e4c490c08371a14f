/** A processor running over the hooked code, and what every history of
    instructions, installs and removals keeps. */
module VehHookRun {
  import opened Prelude
  import opened VehHook

  /** An instruction set over data states D: the length of the instruction at an
      address, and what executing its bytes does to the pc and the data. */
  datatype Isa<!D> = Isa(
    width: (Code, nat) -> nat,
    exec: (seq<Byte>, nat, D) -> (nat, D))

  /** One executed instruction: where it was fetched and which bytes. */
  datatype Fetch = Fetch(at: nat, bytes: seq<Byte>)

  /** A machine without hook groups is the unhooked program. */
  datatype Machine<D> = Machine(
    mem: Code, groups: seq<seq<HookInfo>>, pc: nat, data: D,
    trace: seq<Fetch>, calls: seq<nat>)

  datatype Event =
    | Step
    | Create
    | Install(group: nat, target: nat, len: nat, destination: nat, callback: bool)
    | Remove(group: nat)

  predicate Trapping<D>(s: Machine<D>) {
    s.pc < |s.mem| && s.mem[s.pc] == INT3
  }

  /** One step of the processor: a handled trap, an executed instruction, or
      nothing when the program has left the code or hit a foreign int3. */
  function Tick<D>(isa: Isa<D>, s: Machine<D>): Machine<D>
  {
    if |s.mem| <= s.pc then s
    else if s.mem[s.pc] == INT3 then
      match Find(All(s.groups), s.pc)
      case None => s
      case Some(h) =>
        if !Mapped(h, |s.mem|) then s
        else s.(mem := Patched(s.mem, h, s.pc),
                calls := s.calls + (if s.pc == h.target && h.callback then [h.target] else []),
                pc := if s.pc == h.target && h.destination != 0 then h.destination else s.pc)
    else
      var end := s.pc + isa.width(s.mem, s.pc);
      if |s.mem| < end then s
      else
        var window := s.mem[s.pc..end];
        var (pc, data) := isa.exec(window, s.pc, s.data);
        s.(pc := pc, data := data, trace := s.trace + [Fetch(s.pc, window)])
  }

  function Ticks<D>(isa: Isa<D>, s: Machine<D>, k: nat): Machine<D>
    decreases k
  {
    if k == 0 then s else Ticks(isa, Tick(isa, s), k - 1)
  }

  predicate Disjoint(a: HookInfo, b: HookInfo) {
    !Touches(a, b.target) && !Touches(a, b.next)
  }

  /** What an event needs: installs go to mapped code that no other hook uses. */
  predicate Allowed<D>(s: Machine<D>, e: Event) {
    match e
    case Install(g, t, len, _, _) =>
      && g < |s.groups| && 0 < len && t + len < |s.mem|
      && forall h | h in All(s.groups) :: !Touches(h, t) && !Touches(h, t + len)
    case Remove(g) => g < |s.groups| && forall h | h in s.groups[g] :: Mapped(h, |s.mem|)
    case _ => true
  }

  function Apply<D>(isa: Isa<D>, s: Machine<D>, e: Event): Machine<D>
    requires Allowed(s, e)
  {
    match e
    case Step => Tick(isa, s)
    case Create => s.(groups := s.groups + [[]])
    case Install(g, t, len, d, cb) =>
      if t == 0 then s
      else s.(mem := s.mem[t := INT3], groups := s.groups[g := s.groups[g] + [NewHook(s.mem, t, len, d, cb)]])
    case Remove(g) =>
      s.(mem := RestoreAll(s.mem, s.groups[g]), groups := s.groups[g := []])
  }

  // ----- the invariant -----

  predicate Armed(code: Code, mem: Code, h: HookInfo)
    requires |mem| == |code| && Mapped(h, |code|)
  {
    mem[h.target] == INT3 && mem[h.next] == code[h.next]
  }

  predicate Stepping(code: Code, mem: Code, h: HookInfo)
    requires |mem| == |code| && Mapped(h, |code|)
  {
    mem[h.target] == code[h.target] && mem[h.next] == INT3
  }

  /** A hook without a callback is taken out by its first trap. */
  predicate Spent(code: Code, mem: Code, h: HookInfo)
    requires |mem| == |code| && Mapped(h, |code|)
  {
    mem[h.target] == code[h.target] && mem[h.next] == code[h.next]
  }

  /** The hook's saved bytes are those of `code`. */
  predicate Saved(code: Code, h: HookInfo) {
    Mapped(h, |code|) && h.originalByte == code[h.target] && h.nextOriginalByte == code[h.next]
  }

  predicate HookOk(code: Code, mem: Code, h: HookInfo)
    requires |mem| == |code|
  {
    && h.target != h.next && Saved(code, h)
    && (Armed(code, mem, h) || if h.callback then Stepping(code, mem, h) else Spent(code, mem, h))
  }

  predicate Free(hooks: seq<HookInfo>, a: nat) {
    forall h | h in hooks :: !Touches(h, a)
  }

  predicate PairwiseDisjoint(hooks: seq<HookInfo>) {
    forall i, j | 0 <= i < |hooks| && 0 <= j < |hooks| && i != j :: Disjoint(hooks[i], hooks[j])
  }

  /** Every hook is in one of its states, no two hooks share an address and all
      other bytes are those of `code`. */
  predicate HooksOk(code: Code, mem: Code, hooks: seq<HookInfo>) {
    && |mem| == |code|
    && (forall h | h in hooks :: HookOk(code, mem, h))
    && PairwiseDisjoint(hooks)
    && (forall a | 0 <= a < |mem| && Free(hooks, a) :: mem[a] == code[a])
  }

  predicate Inv<D>(code: Code, s: Machine<D>) {
    HooksOk(code, s.mem, All(s.groups))
  }

  /** Two hooks of the list that share an address are the same hook. */
  lemma TouchedOnce(code: Code, mem: Code, hooks: seq<HookInfo>, h: HookInfo, k: HookInfo, a: nat)
    requires HooksOk(code, mem, hooks) && h in hooks && k in hooks
    requires Touches(h, a) && Touches(k, a)
    ensures h == k
  {
    var i :| 0 <= i < |hooks| && hooks[i] == h;
    var j :| 0 <= j < |hooks| && hooks[j] == k;
    assert i != j ==> Disjoint(hooks[i], hooks[j]);
  }

  lemma TrapKeepsHooks(code: Code, mem: Code, hooks: seq<HookInfo>, h: HookInfo, ip: nat)
    requires HooksOk(code, mem, hooks) && h in hooks && Touches(h, ip)
    requires ip < |mem| && mem[ip] == INT3
    ensures Mapped(h, |mem|) && HooksOk(code, Patched(mem, h, ip), hooks)
    ensures ip == h.target ==> Patched(mem, h, ip)[ip] == code[ip]
    ensures ip == h.next ==> Patched(mem, h, ip)[ip] == code[ip] && Armed(code, Patched(mem, h, ip), h)
  {
    assert HookOk(code, mem, h);
    var mem' := Patched(mem, h, ip);
    forall k | k in hooks
      ensures HookOk(code, mem', k)
    {
      assert HookOk(code, mem, k);
      if k != h {
        if Touches(h, k.target) { TouchedOnce(code, mem, hooks, h, k, k.target); }
        if Touches(h, k.next) { TouchedOnce(code, mem, hooks, h, k, k.next); }
      }
    }
  }

  lemma InsertDisjoint(before: seq<HookInfo>, h: HookInfo, after: seq<HookInfo>)
    requires PairwiseDisjoint(before + after)
    requires forall k | k in before + after :: Disjoint(h, k) && Disjoint(k, h)
    ensures PairwiseDisjoint(before + [h] + after)
  {
    var left, hooks, b := before + after, before + [h] + after, |before|;
    forall i, j | 0 <= i < |hooks| && 0 <= j < |hooks| && i != j
      ensures Disjoint(hooks[i], hooks[j])
    {
      assert i != b ==> hooks[i] == left[if i < b then i else i - 1];
      assert j != b ==> hooks[j] == left[if j < b then j else j - 1];
    }
  }

  lemma DropDisjoint(before: seq<HookInfo>, gone: seq<HookInfo>, after: seq<HookInfo>)
    requires PairwiseDisjoint(before + gone + after)
    ensures PairwiseDisjoint(before + after)
    ensures forall h, k | h in gone && k in before + after :: Disjoint(h, k)
  {
    var hooks, left, b, n := before + gone + after, before + after, |before|, |gone|;
    assert forall i | 0 <= i < |left| :: left[i] == hooks[if i < b then i else i + n];
    assert forall j | 0 <= j < n :: gone[j] == hooks[b + j];
    forall h, k | h in gone && k in left
      ensures Disjoint(h, k)
    {
      var j :| 0 <= j < n && gone[j] == h;
      var i :| 0 <= i < |left| && left[i] == k;
    }
  }

  lemma InstallKeepsHooks(code: Code, mem: Code, before: seq<HookInfo>, after: seq<HookInfo>,
                          t: nat, len: nat, d: nat, cb: bool)
    requires HooksOk(code, mem, before + after) && 0 < len && t + len < |mem|
    requires Free(before + after, t) && Free(before + after, t + len)
    ensures HooksOk(code, mem[t := INT3], before + [NewHook(mem, t, len, d, cb)] + after)
  {
    var h := NewHook(mem, t, len, d, cb);
    var old' := before + after;
    var hooks := before + [h] + after;
    var mem' := mem[t := INT3];
    forall k | k in hooks
      ensures HookOk(code, mem', k)
    {
      if k in old' {
        assert HookOk(code, mem, k) && !Touches(k, t);
      }
    }
    assert forall k | k in old' :: HookOk(code, mem, k) && !Touches(k, t) && !Touches(k, t + len);
    InsertDisjoint(before, h, after);
    forall a | 0 <= a < |mem'| && Free(hooks, a)
      ensures mem'[a] == code[a]
    {
      assert h in hooks && !Touches(h, a);
      assert Free(old', a) by {
        forall k | k in old' ensures !Touches(k, a) { assert k in hooks; }
      }
    }
  }

  /** Writing back saved bytes that are those of `code` gives `code` on every
      address of the hooks and leaves the rest. */
  lemma {:induction false} RestoreAllBytes(code: Code, mem: Code, hooks: seq<HookInfo>)
    requires |mem| == |code|
    requires forall h | h in hooks :: Mapped(h, |mem|) && Saved(code, h)
    ensures |RestoreAll(mem, hooks)| == |mem|
    ensures forall a | 0 <= a < |mem| ::
      RestoreAll(mem, hooks)[a] == if Free(hooks, a) then mem[a] else code[a]
    decreases |hooks|
  {
    if hooks != [] {
      var h, rest := hooks[0], hooks[1..];
      assert h in hooks && Mapped(h, |mem|);
      var mem' := mem[h.target := h.originalByte][h.next := h.nextOriginalByte];
      RestoreAllBytes(code, mem', rest);
      forall a | 0 <= a < |mem|
        ensures RestoreAll(mem, hooks)[a] == if Free(hooks, a) then mem[a] else code[a]
      {
        assert hooks == [h] + rest;
        assert Free(hooks, a) <==> !Touches(h, a) && Free(rest, a);
      }
    }
  }

  lemma RemoveKeepsHooks(code: Code, mem: Code, before: seq<HookInfo>, gone: seq<HookInfo>, after: seq<HookInfo>)
    requires HooksOk(code, mem, before + gone + after)
    ensures forall h | h in gone :: Mapped(h, |mem|)
    ensures HooksOk(code, RestoreAll(mem, gone), before + after)
  {
    var hooks, left := before + gone + after, before + after;
    forall h | h in gone
      ensures HookOk(code, mem, h)
    {
      assert h in hooks;
    }
    RestoreAllBytes(code, mem, gone);
    var mem' := RestoreAll(mem, gone);
    DropDisjoint(before, gone, after);
    forall k | k in left
      ensures HookOk(code, mem', k)
    {
      assert k in hooks && HookOk(code, mem, k);
      assert forall h | h in gone :: Disjoint(h, k);
      assert Free(gone, k.target) && Free(gone, k.next);
    }
    forall a | 0 <= a < |mem'| && Free(left, a)
      ensures mem'[a] == code[a]
    {
      if Free(gone, a) {
        assert Free(hooks, a);
      }
    }
  }

  /** The only hook of the list on an address is the one found there. */
  lemma FoundIsOnly(code: Code, mem: Code, hooks: seq<HookInfo>, h: HookInfo, a: nat)
    requires HooksOk(code, mem, hooks) && h in hooks && Touches(h, a)
    ensures Find(hooks, a) == Some(h)
  {
    FindIsIn(hooks, a);
    TouchedOnce(code, mem, hooks, h, Find(hooks, a).value, a);
  }

  lemma AllUpdated(groups: seq<seq<HookInfo>>, g: nat, hooks: seq<HookInfo>)
    requires g < |groups|
    ensures All(groups[g := hooks]) == All(groups[..g]) + hooks + All(groups[g + 1..])
  {
    AllSplit(groups[g := hooks], g);
    assert groups[g := hooks][..g] == groups[..g] && groups[g := hooks][g + 1..] == groups[g + 1..];
  }

  lemma {:induction false} ApplyKeepsInv<D>(isa: Isa<D>, code: Code, s: Machine<D>, e: Event)
    requires Inv(code, s) && Allowed(s, e)
    ensures Inv(code, Apply(isa, s, e))
  {
    match e
    case Step =>
      FindIsIn(All(s.groups), s.pc);
      if Trapping(s) && Find(All(s.groups), s.pc).Some? {
        TrapKeepsHooks(code, s.mem, All(s.groups), Find(All(s.groups), s.pc).value, s.pc);
      }
    case Create =>
      var g := |s.groups|;
      var groups := s.groups + [[]];
      AllSplit(groups, g);
      assert groups[..g] == s.groups && groups[g + 1..] == [];
      assert All(s.groups) + [] + [] == All(s.groups);
    case Install(g, t, len, d, cb) =>
      if t != 0 {
        AllSplit(s.groups, g);
        var h := NewHook(s.mem, t, len, d, cb);
        AllUpdated(s.groups, g, s.groups[g] + [h]);
        var before, after := All(s.groups[..g]) + s.groups[g], All(s.groups[g + 1..]);
        InstallKeepsHooks(code, s.mem, before, after, t, len, d, cb);
        assert All(s.groups[..g]) + (s.groups[g] + [h]) + after == before + [h] + after;
      }
    case Remove(g) =>
      AllSplit(s.groups, g);
      AllUpdated(s.groups, g, []);
      var before, after := All(s.groups[..g]), All(s.groups[g + 1..]);
      RemoveKeepsHooks(code, s.mem, before, s.groups[g], after);
      assert before + [] + after == before + after;
  }

  lemma InstalledIsListed<D>(isa: Isa<D>, code: Code, s: Machine<D>,
                             g: nat, t: nat, len: nat, d: nat, cb: bool)
    requires Inv(code, s) && Allowed(s, Install(g, t, len, d, cb)) && t != 0
    ensures var q := Apply(isa, s, Install(g, t, len, d, cb));
      && Inv(code, q) && q.pc == s.pc && q.calls == s.calls && q.trace == s.trace
      && NewHook(s.mem, t, len, d, cb) in All(q.groups)
      && (forall k | k in All(q.groups) :: k in All(s.groups) || k == NewHook(s.mem, t, len, d, cb))
      && t + len < |q.mem| && q.mem[t] == INT3 && q.mem[t + len] == code[t + len] && s.mem[t] == code[t]
  {
    ApplyKeepsInv(isa, code, s, Install(g, t, len, d, cb));
    var h := NewHook(s.mem, t, len, d, cb);
    AllSplit(s.groups, g);
    AllUpdated(s.groups, g, s.groups[g] + [h]);
  }

  /** The first trap after an install: the callback runs exactly if one was given,
      the processor goes on at the destination exactly if there is one, the
      target's byte is back, and next traps exactly if a callback waits for it. */
  lemma InstalledHookTraps<D>(isa: Isa<D>, code: Code, s: Machine<D>, g: nat, t: nat, len: nat, d: nat, cb: bool)
    requires Inv(code, s) && Allowed(s, Install(g, t, len, d, cb)) && t != 0
    ensures var r := Tick(isa, Apply(isa, s, Install(g, t, len, d, cb)).(pc := t));
      && r.calls == s.calls + (if cb then [t] else [])
      && r.pc == (if d != 0 then d else t)
      && r.trace == s.trace && t + len < |r.mem|
      && r.mem[t] == code[t] && r.mem[t + len] == (if cb then INT3 else code[t + len])
  {
    var q := Apply(isa, s, Install(g, t, len, d, cb));
    InstalledIsListed(isa, code, s, g, t, len, d, cb);
    FoundIsOnly(code, q.mem, All(q.groups), NewHook(s.mem, t, len, d, cb), t);
  }

  /** Nothing is hooked at the null address. */
  lemma NullIsNotHooked<D>(isa: Isa<D>, s: Machine<D>, g: nat, len: nat, d: nat, cb: bool)
    requires Allowed(s, Install(g, 0, len, d, cb))
    ensures Apply(isa, s, Install(g, 0, len, d, cb)) == s
  {
  }

  // ----- histories -----

  /** Every event of the history is allowed where it happens. */
  predicate Legal<D>(isa: Isa<D>, s: Machine<D>, events: seq<Event>)
    decreases |events|
  {
    events == [] || (Allowed(s, events[0]) && Legal(isa, Apply(isa, s, events[0]), events[1..]))
  }

  function Run<D>(isa: Isa<D>, s: Machine<D>, events: seq<Event>): Machine<D>
    requires Legal(isa, s, events)
    decreases |events|
  {
    if events == [] then s else Run(isa, Apply(isa, s, events[0]), events[1..])
  }

  lemma {:induction false} RunKeepsInv<D>(isa: Isa<D>, code: Code, s: Machine<D>, events: seq<Event>)
    requires Inv(code, s) && Legal(isa, s, events)
    ensures Inv(code, Run(isa, s, events))
    decreases |events|
  {
    if events != [] {
      ApplyKeepsInv(isa, code, s, events[0]);
      RunKeepsInv(isa, code, Apply(isa, s, events[0]), events[1..]);
    }
  }

  function Unhooked<D>(code: Code, pc: nat, data: D): Machine<D> {
    Machine(code, [], pc, data, [], [])
  }

  function Removes(first: nat, last: nat): seq<Event>
    requires first <= last
    decreases last - first
  {
    if first == last then [] else [Remove(first)] + Removes(first + 1, last)
  }

  lemma {:induction false} RemovesRestore<D>(isa: Isa<D>, code: Code, s: Machine<D>, from: nat)
    requires Inv(code, s) && from <= |s.groups|
    requires forall g | 0 <= g < from :: s.groups[g] == []
    ensures Legal(isa, s, Removes(from, |s.groups|))
    ensures Run(isa, s, Removes(from, |s.groups|)).mem == code
    decreases |s.groups| - from
  {
    if from == |s.groups| {
      AllEmpty(s.groups);
      assert forall a | 0 <= a < |code| :: Free(All(s.groups), a);
    } else {
      AllSplit(s.groups, from);
      forall h | h in s.groups[from] ensures Mapped(h, |s.mem|) {
        assert h in All(s.groups) && HookOk(code, s.mem, h);
      }
      ApplyKeepsInv(isa, code, s, Remove(from));
      RemovesRestore(isa, code, Apply(isa, s, Remove(from)), from + 1);
    }
  }

  lemma {:induction false} AllEmpty(groups: seq<seq<HookInfo>>)
    requires forall g | 0 <= g < |groups| :: groups[g] == []
    ensures All(groups) == []
  {
    if groups != [] {
      AllEmpty(groups[1..]);
    }
  }

  /** After any history each hook is armed, stepping or (without a callback)
      spent and no other byte has changed; removing the groups then gives back
      the original code byte for byte. */
  lemma AnyHistoryIsUndone<D>(isa: Isa<D>, code: Code, s: Machine<D>, events: seq<Event>)
    requires Inv(code, s) && Legal(isa, s, events)
    ensures var r := Run(isa, s, events);
      && |r.mem| == |code|
      && (forall h | h in All(r.groups) :: HookOk(code, r.mem, h))
      && (forall a | 0 <= a < |code| && Free(All(r.groups), a) :: r.mem[a] == code[a])
      && Legal(isa, r, Removes(0, |r.groups|))
      && Run(isa, r, Removes(0, |r.groups|)).mem == code
  {
    RunKeepsInv(isa, code, s, events);
    RemovesRestore(isa, code, Run(isa, s, events), 0);
  }
}
