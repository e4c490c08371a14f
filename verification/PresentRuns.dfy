/** When a Present through the shared slot returns, and what it has run. */
module PresentRuns {
  import opened Prelude
  import opened PresentChain

  /** Where the overlays' saved pointers lead from `fn`. */
  function Walk(saved: seq<Fn>, fn: Fn, steps: nat): Option<Fn>
    decreases steps
  {
    if !fn.Overlay? then Some(fn)
    else if steps == 0 || |saved| <= fn.id then None
    else Walk(saved, saved[fn.id], steps - 1)
  }

  function Ends(saved: seq<Fn>, fn: Fn): Option<Fn> {
    Walk(saved, fn, |saved|)
  }

  ghost predicate Leads(saved: seq<Fn>, fn: Fn, end: Fn) {
    exists k :: Walk(saved, fn, k) == Some(end)
  }

  /** The overlays' pointers do not run in a circle of their own. */
  ghost predicate Settles(saved: seq<Fn>, fn: Fn) {
    Leads(saved, fn, Real) || Leads(saved, fn, Detour)
  }

  lemma {:induction false} WalkMonotone(saved: seq<Fn>, fn: Fn, k: nat, more: nat)
    requires Walk(saved, fn, k).Some?
    ensures Walk(saved, fn, k + more) == Walk(saved, fn, k)
    decreases k
  {
    if fn.Overlay? {
      WalkMonotone(saved, saved[fn.id], k - 1, more);
    }
  }

  lemma LeadsToOne(saved: seq<Fn>, fn: Fn, a: Fn, b: Fn)
    requires Leads(saved, fn, a) && Leads(saved, fn, b)
    ensures a == b
  {
    var j: nat :| Walk(saved, fn, j) == Some(a);
    var k: nat :| Walk(saved, fn, k) == Some(b);
    WalkMonotone(saved, fn, j, k);
    WalkMonotone(saved, fn, k, j);
  }

  lemma WalkEndsOutside(saved: seq<Fn>, fn: Fn, k: nat)
    requires Walk(saved, fn, k).Some?
    ensures Walk(saved, fn, k).value == Real || Walk(saved, fn, k).value == Detour
    ensures Settles(saved, fn)
    decreases k
  {
    WalkValue(saved, fn, k);
    assert Leads(saved, fn, Walk(saved, fn, k).value);
  }

  lemma {:induction false} WalkValue(saved: seq<Fn>, fn: Fn, k: nat)
    requires Walk(saved, fn, k).Some?
    ensures Walk(saved, fn, k).value == Real || Walk(saved, fn, k).value == Detour
    decreases k
  {
    if fn.Overlay? {
      WalkValue(saved, saved[fn.id], k - 1);
    }
  }

  // ----- a walk that ends is short -----

  lemma {:induction false} FewBelow(ids: set<nat>, n: nat)
    requires forall i | i in ids :: i < n
    ensures |ids| <= n
  {
    if n > 0 {
      FewBelow(ids - {n - 1}, n - 1);
      assert ids <= ids - {n - 1} + {n - 1};
    } else {
      assert ids == {};
    }
  }

  /** The overlays met on a walk that ends: each of them walks out within as many
      steps as there are. */
  lemma {:induction false} OverlaysMet(saved: seq<Fn>, fn: Fn, k: nat) returns (ids: set<nat>)
    requires Walk(saved, fn, k).Some?
    ensures forall i | i in ids :: i < |saved| && Walk(saved, Overlay(i), |ids|).Some?
    ensures Walk(saved, fn, |ids|).Some?
    decreases k
  {
    if fn.Overlay? {
      ids := OverlaysMet(saved, saved[fn.id], k - 1);
      if fn.id !in ids {
        forall i | i in ids
          ensures Walk(saved, Overlay(i), |ids| + 1).Some?
        {
          WalkMonotone(saved, Overlay(i), |ids|, 1);
        }
        ids := ids + {fn.id};
      }
    } else {
      ids := {};
    }
  }

  lemma WalkIsShort(saved: seq<Fn>, fn: Fn, k: nat)
    requires Walk(saved, fn, k).Some?
    ensures Walk(saved, fn, k) == Ends(saved, fn)
  {
    var ids := OverlaysMet(saved, fn, k);
    FewBelow(ids, |saved|);
    WalkMonotone(saved, fn, |ids|, |saved| - |ids|);
    WalkMonotone(saved, fn, k, |saved|);
    WalkMonotone(saved, fn, |saved|, k);
  }

  /** Where the pointers lead is found within as many steps as there are overlays. */
  lemma LeadsIff(saved: seq<Fn>, fn: Fn, end: Fn)
    ensures Leads(saved, fn, end) <==> Ends(saved, fn) == Some(end)
  {
    if k: nat :| Walk(saved, fn, k) == Some(end) {
      WalkIsShort(saved, fn, k);
    }
  }

  lemma SettlesIff(saved: seq<Fn>, fn: Fn)
    ensures Settles(saved, fn) <==> Ends(saved, fn).Some?
  {
    LeadsIff(saved, fn, Real);
    LeadsIff(saved, fn, Detour);
    if Ends(saved, fn).Some? {
      WalkValue(saved, fn, |saved|);
    }
  }

  // ----- calls follow the walk -----

  lemma {:induction false} CallMonotone(c: Chain, after: Chain, fn: Fn, guard: bool, last: int, realResult: int,
                                        f: nat, more: nat)
    requires !Call(c, after, fn, guard, last, realResult, f).Unfinished?
    ensures Call(c, after, fn, guard, last, realResult, f + more) == Call(c, after, fn, guard, last, realResult, f)
    decreases f
  {
    match fn
    case Real =>
    case Overlay(i) =>
      if i < |c.saved| {
        CallMonotone(c, after, c.saved[i], guard, last, realResult, f - 1, more);
      }
    case Detour =>
      if c.hook.Some? && !guard && !after.ignoreNext {
        CallMonotone(after, after, c.hook.value, true, last, realResult, f - 1, more);
      }
  }

  lemma {:induction false} CallAlongWalk(c: Chain, after: Chain, fn: Fn, guard: bool, last: int, realResult: int,
                                         f: nat, k: nat, end: Fn)
    requires Walk(c.saved, fn, k) == Some(end)
    requires !Call(c, after, end, guard, last, realResult, f).Unfinished?
    ensures Call(c, after, fn, guard, last, realResult, f + k) == Call(c, after, end, guard, last, realResult, f)
    decreases k
  {
    if fn.Overlay? {
      CallAlongWalk(c, after, c.saved[fn.id], guard, last, realResult, f, k - 1, end);
    } else {
      CallMonotone(c, after, fn, guard, last, realResult, f, k);
    }
  }

  predicate Known(fn: Fn, n: nat) {
    fn.Overlay? ==> fn.id < n
  }

  /** No pointer names an overlay that was never installed. */
  predicate AllKnown(c: Chain) {
    && Known(c.slot, |c.saved|) && (c.hook.Some? ==> Known(c.hook.value, |c.saved|))
    && forall i | 0 <= i < |c.saved| :: Known(c.saved[i], |c.saved|)
  }

  lemma {:induction false} FinishedCallWalks(c: Chain, after: Chain, fn: Fn, guard: bool, last: int, realResult: int,
                                             f: nat)
    requires AllKnown(c) && Known(fn, |c.saved|)
    requires !Call(c, after, fn, guard, last, realResult, f).Unfinished?
    ensures Walk(c.saved, fn, f).Some?
    ensures Call(c, after, fn, guard, last, realResult, f) ==
            Call(c, after, Walk(c.saved, fn, f).value, guard, last, realResult, f)
    decreases f
  {
    if fn.Overlay? {
      var g := c.saved[fn.id];
      FinishedCallWalks(c, after, g, guard, last, realResult, f - 1);
      var end := Walk(c.saved, g, f - 1).value;
      CallMonotone(c, after, end, guard, last, realResult, f - 1, 1);
    }
  }

  ghost predicate Returns(c: Chain, after: Chain, last: int, realResult: int) {
    exists f :: Call(c, after, c.slot, false, last, realResult, f).Returned?
  }

  ghost predicate Crashes(c: Chain, after: Chain, last: int, realResult: int) {
    exists f :: Call(c, after, c.slot, false, last, realResult, f).Crashed?
  }

  datatype Fate = Hanging | Crashing | Returning

  /** What a Present will come to, from looking along the saved pointers. */
  function Foreseen(c: Chain, after: Chain): Fate {
    match Ends(c.saved, c.slot)
    case None => Hanging
    case Some(end) =>
      if end != Detour then Returning
      else if c.hook.None? then Crashing
      else if after.ignoreNext then Returning
      else
        match Ends(after.saved, c.hook.value)
        case None => Hanging
        case Some(inner) => if inner == Detour && after.hook.None? then Crashing else Returning
  }

  /** The call of the detour itself, made with some fuel. */
  lemma DetourComesTo(c: Chain, after: Chain, last: int, realResult: int, f: nat) returns (enough: nat)
    requires AllKnown(c) && AllKnown(after) && |c.saved| <= |after.saved|
    requires Ends(c.saved, c.slot) == Some(Detour)
    ensures match Foreseen(c, after)
      case Hanging => Call(c, after, Detour, false, last, realResult, f).Unfinished?
      case Crashing => Call(c, after, Detour, false, last, realResult, enough).Crashed?
      case Returning => Call(c, after, Detour, false, last, realResult, enough).Returned?
  {
    enough := 1;
    if c.hook.Some? && !after.ignoreNext {
      var fn, n := c.hook.value, |after.saved|;
      var inner := Ends(after.saved, fn);
      if inner.Some? {
        WalkValue(after.saved, fn, n);
        CallAlongWalk(after, after, fn, true, last, realResult, 1, n, inner.value);
        enough := n + 2;
      } else if f > 0 && !Call(after, after, fn, true, last, realResult, f - 1).Unfinished? {
        FinishedCallWalks(after, after, fn, true, last, realResult, f - 1);
        WalkIsShort(after.saved, fn, f - 1);
      }
    }
  }

  lemma PresentComesTo(c: Chain, after: Chain, last: int, realResult: int, f: nat) returns (enough: nat)
    requires AllKnown(c) && AllKnown(after) && |c.saved| <= |after.saved|
    ensures match Foreseen(c, after)
      case Hanging => Call(c, after, c.slot, false, last, realResult, f).Unfinished?
      case Crashing => Call(c, after, c.slot, false, last, realResult, enough).Crashed?
      case Returning => Call(c, after, c.slot, false, last, realResult, enough).Returned?
  {
    var end, n := Ends(c.saved, c.slot), |c.saved|;
    enough := 1;
    if end == Some(Detour) {
      enough := DetourComesTo(c, after, last, realResult, f);
    }
    if Foreseen(c, after).Hanging? {
      if !Call(c, after, c.slot, false, last, realResult, f).Unfinished? {
        FinishedCallWalks(c, after, c.slot, false, last, realResult, f);
        WalkIsShort(c.saved, c.slot, f);
      }
    } else {
      WalkValue(c.saved, c.slot, n);
      CallAlongWalk(c, after, c.slot, false, last, realResult, enough, n, end.value);
      enough := enough + n;
    }
  }

  /** A Present returns, crashes or hangs exactly as foreseen.  It returns when the
      pointers from the slot settle and, if they settle on our detour, there is a
      hook object and the pointer it saved settles too; the guard makes a circle
      through the detour harmless, a circle among foreign overlays is not. */
  lemma PresentReturnsIff(c: Chain, after: Chain, last: int, realResult: int)
    requires AllKnown(c) && AllKnown(after) && |c.saved| <= |after.saved|
    ensures Returns(c, after, last, realResult) <==> Foreseen(c, after) == Returning
    ensures Crashes(c, after, last, realResult) <==> Foreseen(c, after) == Crashing
  {
    var n := PresentComesTo(c, after, last, realResult, 0);
    forall f
      ensures !Call(c, after, c.slot, false, last, realResult, f).Unfinished? ==>
        Foreseen(c, after) != Hanging &&
        Call(c, after, c.slot, false, last, realResult, f) == Call(c, after, c.slot, false, last, realResult, n)
    {
      if !Call(c, after, c.slot, false, last, realResult, f).Unfinished? {
        var _ := PresentComesTo(c, after, last, realResult, f);
        CallMonotone(c, after, c.slot, false, last, realResult, f, n);
        CallMonotone(c, after, c.slot, false, last, realResult, n, f);
      }
    }
  }

  function Times(events: seq<Event>, e: Event): nat {
    multiset(events)[e]
  }

  /** A Present that returns runs each callback once if its pointers lead to our
      detour and never otherwise, and the real Present at most once: exactly when
      the pointers lead there without coming back to the detour. */
  lemma PresentEffects(c: Chain, after: Chain, last: int, realResult: int, f: nat)
    requires AllKnown(c) && AllKnown(after) && |c.saved| <= |after.saved|
    requires Call(c, after, c.slot, false, last, realResult, f).Returned?
    ensures var events := Call(c, after, c.slot, false, last, realResult, f).events;
      var mine := Leads(c.saved, c.slot, Detour);
      var through := mine && !after.ignoreNext;
      && Times(events, OnPresent) == Times(events, OnPostPresent) == (if mine then 1 else 0)
      && (mine ==> c.hook.Some? && events[0] == OnPresent && events[|events| - 1] == OnPostPresent)
      && Times(events, RealPresent) == (if !mine || (through && Leads(after.saved, c.hook.value, Real)) then 1 else 0)
      && Times(events, Suppressed) == (if through && Leads(after.saved, c.hook.value, Detour) then 1 else 0)
  {
    FinishedCallWalks(c, after, c.slot, false, last, realResult, f);
    var end := Walk(c.saved, c.slot, f).value;
    WalkEndsOutside(c.saved, c.slot, f);
    assert Leads(c.saved, c.slot, end);
    if end == Real {
      if Leads(c.saved, c.slot, Detour) { LeadsToOne(c.saved, c.slot, Real, Detour); }
    } else if !after.ignoreNext {
      var fn := c.hook.value;
      FinishedCallWalks(after, after, fn, true, last, realResult, f - 1);
      var inner := Walk(after.saved, fn, f - 1).value;
      WalkEndsOutside(after.saved, fn, f - 1);
      assert Leads(after.saved, fn, inner);
      if Leads(after.saved, fn, Real) { LeadsToOne(after.saved, fn, inner, Real); }
      if Leads(after.saved, fn, Detour) { LeadsToOne(after.saved, fn, inner, Detour); }
    }
  }

  // ----- histories -----

  /** Each overlay saved something installed before it. */
  predicate Layered(c: Chain) {
    && AllKnown(c)
    && forall i | 0 <= i < |c.saved| :: Known(c.saved[i], i)
  }

  predicate SavesOnce(ops: seq<Op>) {
    forall op | op in ops :: !op.OverlayResave?
  }

  lemma {:induction false} HistoryKeepsKnown(c: Chain, ops: seq<Op>)
    requires AllKnown(c) && Legal(c, ops)
    ensures AllKnown(ApplyAll(c, ops)) && |c.saved| <= |ApplyAll(c, ops).saved|
    decreases |ops|
  {
    if ops != [] {
      HistoryKeepsKnown(Apply(c, ops[0]), ops[1..]);
    }
  }

  lemma {:induction false} LayersSettle(saved: seq<Fn>, fn: Fn, n: nat)
    requires (forall i | 0 <= i < |saved| :: Known(saved[i], i)) && Known(fn, n) && n <= |saved|
    ensures Walk(saved, fn, n).Some? && Ends(saved, fn).Some?
    ensures Ends(saved, fn) == Some(Detour) ==> fn == Detour || Detour in saved
    decreases n
  {
    if fn.Overlay? {
      LayersSettle(saved, saved[fn.id], fn.id);
      WalkMonotone(saved, saved[fn.id], fn.id, n - 1 - fn.id);
      WalkIsShort(saved, saved[fn.id], fn.id);
    }
    WalkIsShort(saved, fn, n);
  }

  function Start(): Chain {
    Chain(Real, [], None, false, false)
  }

  /** The pointer hook goes and no new one takes its place. */
  predicate Drops(op: Op) {
    op.Destroy? || (op.Hook? && !op.presentOk) || (op.Rehook? && !op.presentOk)
  }

  /** Our side takes its detour out of the slot before it renews or drops the
      pointer hook, and drops it only while no overlay holds the detour. */
  predicate Careful(c: Chain, op: Op) {
    && (op.Destroy? || op.Hook? || op.Rehook? ==> c.slot == Detour ==> op.canWrite)
    && (Drops(op) ==> Detour !in c.saved)
  }

  /** A history in which each overlay saves the slot once and our side is careful. */
  predicate Orderly(c: Chain, ops: seq<Op>)
    requires Legal(c, ops)
    decreases |ops|
  {
    ops == [] || (!ops[0].OverlayResave? && Careful(c, ops[0]) && Orderly(Apply(c, ops[0]), ops[1..]))
  }

  /** The detour is never saved as our own next pointer, and without a hook object
      nobody holds it. */
  predicate Sound(c: Chain) {
    && Layered(c)
    && if c.hook.Some? then c.hook.value != Detour else c.slot != Detour && Detour !in c.saved
  }

  lemma OpStaysSound(c: Chain, op: Op)
    requires Sound(c) && Allowed(c, op) && !op.OverlayResave? && Careful(c, op)
    ensures Sound(Apply(c, op)) && |c.saved| <= |Apply(c, op).saved|
  {
  }

  lemma {:induction false} HistoryStaysSound(c: Chain, ops: seq<Op>)
    requires Sound(c) && Legal(c, ops) && Orderly(c, ops)
    ensures Sound(ApplyAll(c, ops)) && |c.saved| <= |ApplyAll(c, ops).saved|
    decreases |ops|
  {
    if ops != [] {
      OpStaysSound(c, ops[0]);
      HistoryStaysSound(Apply(c, ops[0]), ops[1..]);
    }
  }

  /** Every Present of every orderly future returns, whatever orderly operations
      the on_present callback performs. */
  ghost predicate AlwaysReturns(c: Chain, last: int, realResult: int) {
    forall ops, inside | Legal(c, ops) && Orderly(c, ops) &&
                         Legal(ApplyAll(c, ops), inside) && Orderly(ApplyAll(c, ops), inside) ::
      Returns(ApplyAll(c, ops), ApplyAll(ApplyAll(c, ops), inside), last, realResult)
  }

  lemma SoundPresentReturns(c: Chain, inside: seq<Op>, last: int, realResult: int)
    requires Sound(c) && Legal(c, inside) && Orderly(c, inside)
    ensures Returns(c, ApplyAll(c, inside), last, realResult)
  {
    HistoryStaysSound(c, inside);
    var after := ApplyAll(c, inside);
    LayersSettle(c.saved, c.slot, |c.saved|);
    if c.hook.Some? {
      LayersSettle(after.saved, c.hook.value, |after.saved|);
    }
    PresentReturnsIff(c, after, last, realResult);
  }

  lemma SoundAlwaysReturns(c: Chain, last: int, realResult: int)
    requires Sound(c)
    ensures AlwaysReturns(c, last, realResult)
  {
    forall ops, inside | Legal(c, ops) && Orderly(c, ops) &&
                         Legal(ApplyAll(c, ops), inside) && Orderly(ApplyAll(c, ops), inside)
      ensures Returns(ApplyAll(c, ops), ApplyAll(ApplyAll(c, ops), inside), last, realResult)
    {
      HistoryStaysSound(c, ops);
      SoundPresentReturns(ApplyAll(c, ops), inside, last, realResult);
    }
  }

  /** Whatever we and the overlays do to the slot, and whatever the on_present
      callback does to it, every Present returns, provided that overlays save the
      slot once and our side is careful. */
  lemma EveryPresentReturns(last: int, realResult: int)
    ensures AlwaysReturns(Start(), last, realResult)
  {
    SoundAlwaysReturns(Start(), last, realResult);
  }

  /** Dropping the pointer hook is safe for all time exactly when it is done
      carefully: an overlay that holds the detour, or a slot that still does,
      leads a later Present to a detour without a hook object. */
  lemma DropIsSafeIff(c: Chain, op: Op, last: int, realResult: int)
    requires Sound(c) && Drops(op)
    ensures AlwaysReturns(Apply(c, op), last, realResult) <==> Careful(c, op)
  {
    var d := Apply(c, op);
    if Careful(c, op) {
      SoundAlwaysReturns(d, last, realResult);
    } else {
      var ops: seq<Op> := [];
      if Detour in c.saved {
        var i: nat :| i < |c.saved| && c.saved[i] == Detour;
        ops := [OverlayRewrite(i)];
        assert d.saved == c.saved && ops[1..] == [];
        assert Walk(d.saved, Overlay(i), 1) == Some(Detour);
        WalkIsShort(d.saved, Overlay(i), 1);
        assert ApplyAll(d, ops) == Apply(d, OverlayRewrite(i));
      }
      var e := ApplyAll(d, ops);
      assert Legal(d, ops) && Orderly(d, ops) && Legal(e, []) && Orderly(e, []);
      assert [op][1..] == [];
      HistoryKeepsKnown(c, [op]);
      HistoryKeepsKnown(d, ops);
      assert e.hook.None? && Ends(e.saved, e.slot) == Some(Detour);
      PresentReturnsIff(e, ApplyAll(e, []), last, realResult);
    }
  }

  /** Such a history: an overlay is installed above our detour, and the attempt to
      hook anew fails. */
  lemma OrphanedDetourCrashes(last: int, realResult: int)
    ensures var ops := [Hook(true, true, true), OverlayInstall, Rehook(false, false, true)];
      && Legal(Start(), ops) && SavesOnce(ops)
      && var c := ApplyAll(Start(), ops); Crashes(c, c, last, realResult)
  {
    var ops := [Hook(true, true, true), OverlayInstall, Rehook(false, false, true)];
    assert ops[1..] == [OverlayInstall, Rehook(false, false, true)] && ops[1..][1..] == [Rehook(false, false, true)];
    assert ops[1..][1..][1..] == [];
    var c := ApplyAll(Start(), ops);
    assert c.slot == Overlay(0) && c.saved == [Detour] && c.hook.None?;
    PresentReturnsIff(c, c, last, realResult);
  }

  /** An overlay that saves the slot a second time can close a circle that does
      not pass our guard: such a Present does not return. */
  lemma ResavingOverlaysCanLoop(last: int, realResult: int)
    ensures var ops := [OverlayInstall, OverlayInstall, OverlayResave(0)];
      && Legal(Start(), ops)
      && var c := ApplyAll(Start(), ops);
         !Returns(c, c, last, realResult) && !Crashes(c, c, last, realResult)
  {
    var ops := [OverlayInstall, OverlayInstall, OverlayResave(0)];
    assert ops[1..] == [OverlayInstall, OverlayResave(0)] && ops[1..][1..] == [OverlayResave(0)];
    assert ops[1..][1..][1..] == [];
    var c := ApplyAll(Start(), ops);
    assert c.slot == Overlay(0) && c.saved == [Overlay(1), Overlay(0)];
    assert Walk(c.saved, c.slot, 2).None?;
    PresentReturnsIff(c, c, last, realResult);
  }

  // ----- hooking again, and failing to hook -----

  /** After hooking, a Present reaches the real function exactly when the slot,
      with our own detour taken out, led there before: hooking on top of an
      overlay that already calls our detour suppresses every frame. */
  lemma HookKeepsFramesIff(c: Chain, resizeOk: bool, canWrite: bool, last: int, realResult: int, f: nat)
    requires Layered(c) && !c.ignoreNext
    requires var h := Apply(c, Op.Hook(true, resizeOk, canWrite));
      Call(h, h, h.slot, false, last, realResult, f).Returned?
    ensures var h := Apply(c, Op.Hook(true, resizeOk, canWrite));
      Times(Call(h, h, h.slot, false, last, realResult, f).events, RealPresent) == 1
      <==> Leads(c.saved, Removed(c, canWrite).slot, Real)
  {
    var h := Apply(c, Op.Hook(true, resizeOk, canWrite));
    assert Walk(h.saved, h.slot, 0) == Some(Detour);
    PresentEffects(h, h, last, realResult, f);
  }

  /** A failed `hook` followed by `unhook` leaves our detour in the slot exactly
      when the present hook had been placed before the failure, or the detour
      could not be taken out, or someone else had put it there. */
  lemma FailedHookLeavesDetourIff(c: Chain, presentOk: bool, resizeOk: bool, canWrite: bool, resizeFreed: bool)
    requires !(presentOk && resizeOk)
    ensures Apply(Apply(c, Op.Hook(presentOk, resizeOk, canWrite)), Op.Unhook(canWrite, resizeFreed)).slot == Detour
      <==> presentOk || Removed(c, canWrite).slot == Detour
  {
  }

  // ----- taking the detour out, and putting it in -----

  /** Operations that take our detour out and put none in. */
  predicate TakesOut(c: Chain, op: Op) {
    (op.Unhook? && c.hooked) || Drops(op)
  }

  /** Taking out touches only a slot that is ours; then the saved pointer is back,
      unless the slot cannot be written.  Our detour stays exactly when the slot was
      ours and could not be written, or our own detour had been saved. */
  lemma TakenOutIff(c: Chain, op: Op)
    requires TakesOut(c, op) && c.hook.Some?
    ensures c.slot != Detour ==> Apply(c, op).slot == c.slot
    ensures c.slot == Detour && op.canWrite ==> Apply(c, op).slot == c.hook.value
    ensures Apply(c, op).slot == Detour <==> c.slot == Detour && (!op.canWrite || c.hook == Some(Detour))
    ensures op.Unhook? ==> (!Apply(c, op).hooked <==> (c.slot != Detour || op.canWrite) && op.resizeOk)
  {
  }

  /** Hooking and unhooking a slot gives it back as it was, and a Present through
      it calls back only if an overlay leads it to the detour. */
  lemma UnhookedAgain(c: Chain, resizeOk: bool, canWrite: bool, last: int, realResult: int, f: nat)
    requires AllKnown(c) && c.slot != Detour
    requires var d := Apply(Apply(c, Op.Hook(true, true, canWrite)), Op.Unhook(true, resizeOk));
      Call(d, d, d.slot, false, last, realResult, f).Returned?
    ensures var d := Apply(Apply(c, Op.Hook(true, true, canWrite)), Op.Unhook(true, resizeOk));
      && d.slot == c.slot && (d.hooked <==> !resizeOk)
      && Times(Call(d, d, d.slot, false, last, realResult, f).events, OnPresent) ==
         (if Leads(c.saved, c.slot, Detour) then 1 else 0)
  {
    var d := Apply(Apply(c, Op.Hook(true, true, canWrite)), Op.Unhook(true, resizeOk));
    PresentEffects(d, d, last, realResult, f);
  }

  /** Operations that end with our detour in the slot. */
  predicate PutsIn(c: Chain, op: Op) {
    (op.Hook? && op.presentOk) || (op.Rehook? && op.presentOk) || (op.Restore? && op.canWrite && c.hook.Some?)
  }

  /** After them every Present that returns calls back, first of all and once. */
  lemma PutInIsSeen(c: Chain, op: Op, last: int, realResult: int, f: nat)
    requires AllKnown(c) && PutsIn(c, op)
    requires var d := Apply(c, op); Call(d, d, d.slot, false, last, realResult, f).Returned?
    ensures var d := Apply(c, op);
      var events := Call(d, d, d.slot, false, last, realResult, f).events;
      && Times(events, OnPresent) == 1 && events[0] == OnPresent
      && (!op.Restore? ==> (d.hooked <==> op.resizeOk)) && (op.Rehook? ==> !d.ignoreNext)
  {
    var d := Apply(c, op);
    assert Walk(d.saved, d.slot, 0) == Some(Detour);
    PresentEffects(d, d, last, realResult, f);
  }

  /** A callback that asks to ignore the next Present keeps it from everyone. */
  lemma IgnoredPresent(c: Chain, last: int, realResult: int, f: nat)
    requires AllKnown(c) && Leads(c.saved, c.slot, Detour)
    requires Call(c, Apply(c, IgnoreNext), c.slot, false, last, realResult, f).Returned?
    ensures Call(c, Apply(c, IgnoreNext), c.slot, false, last, realResult, f) ==
      Returned([OnPresent, OnPostPresent], 0)
  {
    FinishedCallWalks(c, Apply(c, IgnoreNext), c.slot, false, last, realResult, f);
    WalkIsShort(c.saved, c.slot, f);
    LeadsIff(c.saved, c.slot, Detour);
  }

  /** A Present passes on what the real function returned; one that never got there
      reports success if it was ignored and the last result if it was suppressed. */
  lemma PresentResult(c: Chain, after: Chain, last: int, realResult: int, f: nat)
    requires AllKnown(c) && AllKnown(after) && |c.saved| <= |after.saved|
    requires Call(c, after, c.slot, false, last, realResult, f).Returned?
    ensures var o := Call(c, after, c.slot, false, last, realResult, f);
      o.result == if RealPresent in o.events then realResult else if Suppressed in o.events then last else 0
  {
    FinishedCallWalks(c, after, c.slot, false, last, realResult, f);
    var end := Walk(c.saved, c.slot, f).value;
    WalkValue(c.saved, c.slot, f);
    if end == Detour && !after.ignoreNext {
      FinishedCallWalks(after, after, c.hook.value, true, last, realResult, f - 1);
      WalkValue(after.saved, c.hook.value, f - 1);
    }
  }

  /** An overlay leads on to whatever was in the slot before it. */
  lemma OverlayLeadsOn(c: Chain, end: Fn)
    requires AllKnown(c)
    ensures var d := Apply(c, OverlayInstall); Leads(d.saved, d.slot, end) <==> Leads(c.saved, c.slot, end)
  {
    var d := Apply(c, OverlayInstall);
    if k: nat :| Walk(c.saved, c.slot, k) == Some(end) {
      OneMoreOverlay(c.saved, c.slot, c.slot, k);
      assert Walk(d.saved, d.slot, k + 1) == Some(end);
    }
    if k: nat :| Walk(d.saved, d.slot, k) == Some(end) {
      OneMoreOverlay(c.saved, c.slot, c.slot, k - 1);
      assert Walk(c.saved, c.slot, k - 1) == Some(end);
    }
  }

  lemma {:induction false} OneMoreOverlay(saved: seq<Fn>, more: Fn, fn: Fn, k: nat)
    requires Known(fn, |saved|) && forall i | 0 <= i < |saved| :: Known(saved[i], |saved|)
    ensures Walk(saved + [more], fn, k) == Walk(saved, fn, k)
    decreases k
  {
    if fn.Overlay? && k > 0 {
      OneMoreOverlay(saved, more, saved[fn.id], k - 1);
    }
  }
}
