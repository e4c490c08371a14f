/** Hooks that share addresses: when `remove` gives the code back. */
module VehHookOverlap {
  import opened Prelude
  import opened VehHook
  import opened VehHookRun

  datatype Spot = Spot(target: nat, len: nat, destination: nat, callback: bool)

  predicate Hookable(mem: Code, spots: seq<Spot>) {
    forall s | s in spots :: 0 < s.target && 0 < s.len && s.target + s.len < |mem|
  }

  /** The code and the hook list after hooking each spot in turn. */
  function InstallAll(mem: Code, spots: seq<Spot>): (r: (Code, seq<HookInfo>))
    requires Hookable(mem, spots)
    ensures |r.0| == |mem| && |r.1| == |spots|
    ensures forall h | h in r.1 :: Mapped(h, |mem|)
    decreases |spots|
  {
    if spots == [] then (mem, [])
    else
      var s := spots[0];
      assert s in spots;
      assert Hookable(mem[s.target := INT3], spots[1..]);
      var (mem', hooks) := InstallAll(mem[s.target := INT3], spots[1..]);
      (mem', [NewHook(mem, s.target, s.len, s.destination, s.callback)] + hooks)
  }

  predicate SpotTouches(s: Spot, a: nat) {
    a == s.target || a == s.target + s.len
  }

  /** Spot k lies on the target of an earlier spot j. */
  predicate Clash(mem: Code, spots: seq<Spot>, j: int, k: int)
    requires Hookable(mem, spots)
  {
    && 0 <= j < k < |spots|
    && SpotTouches(spots[k], spots[j].target)
    && (assert spots[j] in spots; mem[spots[j].target] != INT3)
  }

  predicate Hit(spots: seq<Spot>, n: nat, a: nat)
    requires n <= |spots|
  {
    exists j :: 0 <= j < n && spots[j].target == a
  }

  function Seen(mem: Code, spots: seq<Spot>, n: nat, a: nat): Byte
    requires n <= |spots| && a < |mem|
  {
    if Hit(spots, n, a) then INT3 else mem[a]
  }

  lemma HitShift(spots: seq<Spot>, n: nat, a: nat)
    requires 0 < n <= |spots|
    ensures Hit(spots, n, a) <==> spots[0].target == a || Hit(spots[1..], n - 1, a)
  {
    if Hit(spots, n, a) && spots[0].target != a {
      var j :| 0 <= j < n && spots[j].target == a;
      assert spots[1..][j - 1] == spots[j];
    }
  }

  /** Each hook saves what it reads, traps planted by earlier hooks included. */
  lemma {:induction false} InstalledBytes(mem: Code, spots: seq<Spot>, i: nat)
    requires Hookable(mem, spots) && i < |spots|
    ensures var (h, s) := (InstallAll(mem, spots).1[i], spots[i]);
      && s.target + s.len < |mem|
      && h.target == s.target && h.next == s.target + s.len
      && h.originalByte == Seen(mem, spots, i, h.target)
      && h.nextOriginalByte == Seen(mem, spots, i, h.next)
    decreases |spots|
  {
    assert spots[i] in spots;
    if i > 0 {
      assert spots[0] in spots;
      InstalledBytes(mem[spots[0].target := INT3], spots[1..], i - 1);
      HitShift(spots, i, spots[i].target);
      HitShift(spots, i, spots[i].target + spots[i].len);
    }
  }

  lemma {:induction false} InstalledCode(mem: Code, spots: seq<Spot>, a: nat)
    requires Hookable(mem, spots) && a < |mem|
    ensures InstallAll(mem, spots).0[a] == Seen(mem, spots, |spots|, a)
    decreases |spots|
  {
    if spots != [] {
      assert spots[0] in spots;
      InstalledCode(mem[spots[0].target := INT3], spots[1..], a);
      HitShift(spots, |spots|, a);
    }
  }

  lemma {:induction false} RestoreConcat(mem: Code, a: seq<HookInfo>, b: seq<HookInfo>)
    requires forall h | h in a + b :: Mapped(h, |mem|)
    ensures |RestoreAll(mem, a)| == |mem|
    ensures (forall h | h in b :: Mapped(h, |mem|)) && RestoreAll(mem, a + b) == RestoreAll(RestoreAll(mem, a), b)
    decreases |a|
  {
    assert forall h | h in b :: h in a + b;
    if a == [] {
      assert a + b == b;
    } else {
      assert a[0] in a + b && Mapped(a[0], |mem|);
      assert (a + b)[1..] == a[1..] + b;
      RestoreConcat(mem[a[0].target := a[0].originalByte][a[0].next := a[0].nextOriginalByte], a[1..], b);
    }
  }

  predicate StaleAt(h: HookInfo, a: nat) {
    (h.target == a ==> h.originalByte == INT3) && (h.next == a ==> h.nextOriginalByte == INT3)
  }

  /** When every hook on `a` has saved a trap there, the trap stays. */
  lemma {:induction false} RestoreLeavesTrap(mem: Code, hooks: seq<HookInfo>, a: nat)
    requires (forall h | h in hooks :: Mapped(h, |mem|)) && a < |mem|
    requires forall h | h in hooks :: StaleAt(h, a)
    requires mem[a] == INT3 || (hooks != [] && Touches(hooks[0], a))
    ensures a < |RestoreAll(mem, hooks)| && RestoreAll(mem, hooks)[a] == INT3
    decreases |hooks|
  {
    if hooks != [] {
      var h := hooks[0];
      assert h in hooks && Mapped(h, |mem|) && StaleAt(h, a);
      RestoreLeavesTrap(mem[h.target := h.originalByte][h.next := h.nextOriginalByte], hooks[1..], a);
    }
  }

  lemma ClashLeavesTrap(mem: Code, spots: seq<Spot>, j: nat, k: nat)
    requires Hookable(mem, spots) && Clash(mem, spots, j, k)
    ensures RestoreAll(InstallAll(mem, spots).0, InstallAll(mem, spots).1) != mem
  {
    var a := spots[j].target;
    var (mem', hooks) := InstallAll(mem, spots);
    assert spots[j] in spots;
    RestoreConcat(mem', hooks[..k], hooks[k..]);
    assert hooks == hooks[..k] + hooks[k..];
    forall h | h in hooks[k..]
      ensures StaleAt(h, a)
    {
      var i :| k <= i < |hooks| && hooks[i] == h;
      InstalledBytes(mem, spots, i);
      assert Hit(spots, i, a);
    }
    InstalledBytes(mem, spots, k);
    RestoreLeavesTrap(RestoreAll(mem', hooks[..k]), hooks[k..], a);
  }

  /** Only the hooks' own addresses may differ. */
  predicate AgreeOff(a: Code, b: Code, hooks: seq<HookInfo>) {
    |a| == |b| && forall i | 0 <= i < |a| && Free(hooks, i) :: a[i] == b[i]
  }

  /** What removal leaves depends only on the bytes that no hook owns. */
  lemma {:induction false} RestoreForgets(a: Code, b: Code, hooks: seq<HookInfo>)
    requires AgreeOff(a, b, hooks) && forall h | h in hooks :: Mapped(h, |a|)
    ensures RestoreAll(a, hooks) == RestoreAll(b, hooks)
    decreases |hooks|
  {
    if hooks != [] {
      var h := hooks[0];
      assert h in hooks && hooks == [h] + hooks[1..];
      var a', b' := a[h.target := h.originalByte][h.next := h.nextOriginalByte],
                    b[h.target := h.originalByte][h.next := h.nextOriginalByte];
      forall i | 0 <= i < |a'| && Free(hooks[1..], i)
        ensures a'[i] == b'[i]
      {
        assert Touches(h, i) || Free(hooks, i);
      }
      RestoreForgets(a', b', hooks[1..]);
    }
  }

  /** Running the program changes bytes only where hooks are. */
  lemma {:induction false} TicksAgreeOff<D>(isa: Isa<D>, s: Machine<D>, k: nat)
    ensures Ticks(isa, s, k).groups == s.groups && AgreeOff(s.mem, Ticks(isa, s, k).mem, All(s.groups))
    decreases k
  {
    if k > 0 {
      FindIsIn(All(s.groups), s.pc);
      assert AgreeOff(s.mem, Tick(isa, s).mem, All(s.groups));
      TicksAgreeOff(isa, Tick(isa, s), k - 1);
    }
  }

  /** Removing a list of hooks right after installing it restores the code exactly
      when no hook was put on the target of an earlier one; sharing a `next`
      address does no harm. */
  lemma RemoveAtOnceRestoresIff(mem: Code, spots: seq<Spot>)
    requires Hookable(mem, spots)
    ensures RestoreAll(InstallAll(mem, spots).0, InstallAll(mem, spots).1) == mem
      <==> (forall j, k :: !Clash(mem, spots, j, k))
  {
    var (mem', hooks) := InstallAll(mem, spots);
    if j, k :| Clash(mem, spots, j, k) {
      ClashLeavesTrap(mem, spots, j, k);
    } else {
      forall h | h in hooks
        ensures Saved(mem, h)
      {
        var i :| 0 <= i < |hooks| && hooks[i] == h;
        InstalledBytes(mem, spots, i);
        assert forall j | 0 <= j < i && SpotTouches(spots[i], spots[j].target) :: !Clash(mem, spots, j, i);
      }
      RestoreAllBytes(mem, mem', hooks);
      forall j | 0 <= j < |spots|
        ensures Touches(hooks[j], spots[j].target)
      {
        InstalledBytes(mem, spots, j);
      }
      forall a | 0 <= a < |mem|
        ensures RestoreAll(mem', hooks)[a] == mem[a]
      {
        InstalledCode(mem, spots, a);
        assert Free(hooks, a) ==> !Hit(spots, |spots|, a);
      }
    }
  }

  /** The same however long the hooked program has run, whatever the hooks do to
      it, when they are removed. */
  lemma RemoveRestoresIff<D>(isa: Isa<D>, mem: Code, spots: seq<Spot>, pc: nat, data: D, k: nat)
    requires Hookable(mem, spots)
    ensures var (mem', hooks) := InstallAll(mem, spots);
      var r := Ticks(isa, Machine(mem', [hooks], pc, data, [], []), k);
      && r.groups == [hooks] && |r.mem| == |mem|
      && (RestoreAll(r.mem, hooks) == mem <==> forall i, j :: !Clash(mem, spots, i, j))
  {
    var (mem', hooks) := InstallAll(mem, spots);
    var s := Machine(mem', [hooks], pc, data, [], []);
    assert All(s.groups) == hooks + All([]) == hooks;
    TicksAgreeOff(isa, s, k);
    RestoreForgets(mem', Ticks(isa, s, k).mem, hooks);
    RemoveAtOnceRestoresIff(mem, spots);
  }
}
