/** One slot of the swap chain's function table, shared by our pointer hook and
    foreign overlays, and the detour's re-entrancy guard. */
module PresentChain {
  import opened Prelude

  /** What a function pointer in the slot can point to. */
  datatype Fn = Real | Detour | Overlay(id: nat)

  /** The slot, what each overlay calls, and our side: the pointer our hook
      object saved (None without a hook object) and the hook's two flags. */
  datatype Chain = Chain(slot: Fn, saved: seq<Fn>, hook: Option<Fn>, hooked: bool, ignoreNext: bool)

  /** `Hook` says whether the constructors of the two pointer hooks succeed, and
      `canWrite` whether the page protection lets our side write the slot when it
      takes a hook out or puts it back.  `Rehook` replaces the hook object by a new
      one and hooks that, with no Present in between.  An overlay saves the slot when it is
      installed; it may later rewrite the slot, put its saved pointer back, or
      save the slot anew. */
  datatype Op =
    | Hook(presentOk: bool, resizeOk: bool, canWrite: bool)
    | Unhook(canWrite: bool, resizeOk: bool)
    | Destroy(canWrite: bool)
    | Rehook(presentOk: bool, resizeOk: bool, canWrite: bool)
    | Restore(canWrite: bool)
    | IgnoreNext
    | OverlayInstall
    | OverlayRewrite(id: nat)
    | OverlayRestore(id: nat)
    | OverlayResave(id: nat)

  predicate Allowed(c: Chain, op: Op) {
    match op
    case OverlayRewrite(i) => i < |c.saved|
    case OverlayRestore(i) => i < |c.saved|
    case OverlayResave(i) => i < |c.saved|
    case _ => true
  }

  /** The slot after `PointerHook::remove`. */
  function Removed(c: Chain, canWrite: bool): Chain {
    if canWrite && c.hook.Some? && c.slot == Detour then c.(slot := c.hook.value) else c
  }

  function Hooked(c: Chain, presentOk: bool, resizeOk: bool, canWrite: bool): Chain {
    var freed := Removed(c, canWrite).(hook := None, hooked := presentOk && resizeOk);
    if presentOk then freed.(hook := Some(freed.slot), slot := Detour) else freed
  }

  function Destroyed(c: Chain, canWrite: bool): Chain {
    Removed(c, canWrite).(hook := None, hooked := false, ignoreNext := false)
  }

  function Apply(c: Chain, op: Op): Chain
    requires Allowed(c, op)
  {
    match op
    case Hook(presentOk, resizeOk, canWrite) => Hooked(c, presentOk, resizeOk, canWrite)
    case Unhook(canWrite, resizeOk) =>
      if !c.hooked then c
      else Removed(c, canWrite).(hooked := !((c.slot != Detour || canWrite) && resizeOk))
    case Destroy(canWrite) => Destroyed(c, canWrite)
    case Rehook(presentOk, resizeOk, canWrite) => Hooked(Destroyed(c, canWrite), presentOk, resizeOk, canWrite)
    case Restore(canWrite) => if c.hook.Some? && canWrite then c.(slot := Detour) else c
    case IgnoreNext => c.(ignoreNext := true)
    case OverlayInstall => c.(saved := c.saved + [c.slot], slot := Overlay(|c.saved|))
    case OverlayRewrite(i) => c.(slot := Overlay(i))
    case OverlayRestore(i) => c.(slot := c.saved[i])
    case OverlayResave(i) => c.(saved := c.saved[i := c.slot], slot := Overlay(i))
  }

  predicate Legal(c: Chain, ops: seq<Op>)
    decreases |ops|
  {
    ops == [] || (Allowed(c, ops[0]) && Legal(Apply(c, ops[0]), ops[1..]))
  }

  function ApplyAll(c: Chain, ops: seq<Op>): Chain
    requires Legal(c, ops)
    decreases |ops|
  {
    if ops == [] then c else ApplyAll(Apply(c, ops[0]), ops[1..])
  }

  // ----- calling through the slot -----

  datatype Event = OnPresent | OnPostPresent | RealPresent | Suppressed

  /** `Unfinished` is "not within this much fuel"; `Crashed` is a detour without
      a hook object or an overlay that does not exist. */
  datatype Outcome = Unfinished | Crashed | Returned(events: seq<Event>, result: int)

  const S_OK: int := 0

  /** A call of `fn`.  The on_present callback turns the chain c into `after`;
      `guard` is the re-entrancy flag, `last` the last recorded result. */
  function Call(c: Chain, after: Chain, fn: Fn, guard: bool, last: int, realResult: int, fuel: nat): Outcome
    decreases fuel
  {
    if fuel == 0 then Unfinished
    else
      match fn
      case Real => Returned([RealPresent], realResult)
      case Overlay(i) =>
        if i < |c.saved| then Call(c, after, c.saved[i], guard, last, realResult, fuel - 1) else Crashed
      case Detour =>
        if c.hook.None? then Crashed
        else if guard then Returned([Suppressed], last)
        else if after.ignoreNext then Returned([OnPresent, OnPostPresent], S_OK)
        else
          match Call(after, after, c.hook.value, true, last, realResult, fuel - 1)
          case Returned(events, result) => Returned([OnPresent] + events + [OnPostPresent], result)
          case other => other
  }

  // ----- the objects -----

  class Slot {
    var fn: Fn
    constructor (fn: Fn)
      ensures this.fn == fn
    {
      this.fn := fn;
    }
  }

  class PointerHook {
    const replacePtr: Slot
    const destination: Fn
    const original: Fn

    constructor (slot: Slot, newPtr: Fn)
      modifies slot
      ensures replacePtr == slot && destination == newPtr
      ensures original == old(slot.fn) && slot.fn == newPtr
    {
      replacePtr, destination, original := slot, newPtr, slot.fn;
      new;
      slot.fn := newPtr;
    }

    /** Constructing one as its callers do: null when the constructor throws, for a
        null slot or one that cannot be read or written. */
    static method Make(slot: Slot?, newPtr: Fn, accessible: bool) returns (h: PointerHook?)
      modifies slot
      ensures h != null <==> slot != null && accessible
      ensures h != null ==> fresh(h) && h.replacePtr == slot && h.destination == newPtr
      ensures h != null ==> h.original == old(slot.fn) && slot.fn == newPtr
      ensures h == null && slot != null ==> slot.fn == old(slot.fn)
    {
      if slot == null || !accessible {
        return null;
      }
      h := new PointerHook(slot, newPtr);
    }

    method Remove(canWrite: bool) returns (ok: bool)
      modifies replacePtr
      ensures ok <==> old(replacePtr.fn) != destination || canWrite
      ensures replacePtr.fn == if old(replacePtr.fn) == destination && canWrite then original else old(replacePtr.fn)
    {
      if replacePtr.fn == destination {
        if !canWrite {
          return false;
        }
        replacePtr.fn := original;
      }
      return true;
    }

    method Restore(canWrite: bool) returns (ok: bool)
      modifies replacePtr
      ensures ok <==> old(replacePtr.fn) == destination || canWrite
      ensures replacePtr.fn == if ok then destination else old(replacePtr.fn)
    {
      if replacePtr.fn != destination {
        if !canWrite {
          return false;
        }
        replacePtr.fn := destination;
      }
      return true;
    }
  }

  /** The D3D hook, the slot it hooks and the overlays around it. */
  class D3DHook {
    const slot: Slot
    var saved: seq<Fn>
    var presentHook: PointerHook?
    var hooked: bool
    var ignoreNext: bool
    var guard: bool
    var insidePresent: bool
    var lastResult: int
    var events: seq<Event>

    constructor (slot: Slot)
      requires slot.fn == Real
      ensures this.slot == slot && Valid() && !guard && !insidePresent && events == [] && lastResult == S_OK
      ensures View() == Chain(Real, [], None, false, false)
    {
      this.slot := slot;
      saved, presentHook, hooked, ignoreNext := [], null, false, false;
      guard, insidePresent, lastResult, events := false, false, S_OK, [];
    }

    ghost function View(): Chain
      reads this, slot
    {
      Chain(slot.fn, saved, if presentHook == null then None else Some(presentHook.original), hooked, ignoreNext)
    }

    ghost predicate Valid()
      reads this
    {
      && (presentHook != null ==> presentHook.replacePtr == slot && presentHook.destination == Detour)
      && (hooked ==> presentHook != null)
    }

    method ResetPresentHook(canWrite: bool)
      requires Valid()
      modifies this`presentHook, this`hooked, slot
      ensures Valid() && View() == Removed(old(View()), canWrite).(hook := None, hooked := false)
    {
      if presentHook != null {
        var _ := presentHook.Remove(canWrite);
      }
      presentHook, hooked := null, false;
    }

    method Hook(presentOk: bool, resizeOk: bool, canWrite: bool) returns (ok: bool)
      requires Valid()
      modifies this`presentHook, this`hooked, slot
      ensures Valid() && View() == Apply(old(View()), Op.Hook(presentOk, resizeOk, canWrite))
      ensures ok == hooked == (presentOk && resizeOk)
    {
      ResetPresentHook(canWrite);
      presentHook := PointerHook.Make(slot, Detour, presentOk);
      hooked := presentHook != null && resizeOk;
      return hooked;
    }

    method Unhook(canWrite: bool, resizeOk: bool) returns (ok: bool)
      requires Valid()
      modifies this`hooked, slot
      ensures Valid() && View() == Apply(old(View()), Op.Unhook(canWrite, resizeOk))
      ensures ok <==> !hooked
    {
      if !hooked {
        return true;
      }
      var removed := presentHook.Remove(canWrite);
      if removed && resizeOk {
        hooked := false;
        return true;
      }
      return false;
    }

    method Destroy(canWrite: bool)
      requires Valid()
      modifies this`presentHook, this`hooked, this`ignoreNext, slot
      ensures Valid() && View() == Apply(old(View()), Op.Destroy(canWrite))
    {
      var _ := Unhook(canWrite, true);
      ResetPresentHook(canWrite);
      ignoreNext := false;
    }

    method Perform(op: Op)
      requires Valid() && Allowed(View(), op)
      modifies this`presentHook, this`hooked, this`ignoreNext, this`saved, slot
      ensures Valid() && View() == Apply(old(View()), op)
    {
      match op
      case Hook(presentOk, resizeOk, canWrite) => var _ := Hook(presentOk, resizeOk, canWrite);
      case Unhook(canWrite, resizeOk) => var _ := Unhook(canWrite, resizeOk);
      case Destroy(canWrite) => Destroy(canWrite);
      case Rehook(presentOk, resizeOk, canWrite) =>
        Destroy(canWrite);
        var _ := Hook(presentOk, resizeOk, canWrite);
      case Restore(canWrite) =>
        if presentHook != null {
          var _ := presentHook.Restore(canWrite);
        }
      case IgnoreNext => ignoreNext := true;
      case OverlayInstall => saved, slot.fn := saved + [slot.fn], Overlay(|saved|);
      case OverlayRewrite(i) => slot.fn := Overlay(i);
      case OverlayRestore(i) => slot.fn := saved[i];
      case OverlayResave(i) => saved, slot.fn := saved[i := slot.fn], Overlay(i);
    }

    method PerformAll(ops: seq<Op>)
      requires Valid() && Legal(View(), ops)
      modifies this`presentHook, this`hooked, this`ignoreNext, this`saved, slot
      ensures Valid() && View() == ApplyAll(old(View()), ops)
    {
      if ops != [] {
        Perform(ops[0]);
        PerformAll(ops[1..]);
      }
    }

    /** Calling a pointer of the chain; the on_present callback performs `ops`.
        No result is a crash. */
    method CallFn(fn: Fn, ops: seq<Op>, realResult: int, ghost fuel: nat) returns (result: Option<int>)
      requires Valid() && Legal(View(), ops) && (guard ==> ops == [])
      requires !Call(View(), ApplyAll(View(), ops), fn, guard, lastResult, realResult, fuel).Unfinished?
      modifies this, slot
      ensures var o := Call(old(View()), old(ApplyAll(View(), ops)), fn, old(guard), old(lastResult), realResult, fuel);
        && (result.None? <==> o.Crashed?)
        && (o.Returned? ==> Valid() && guard == old(guard))
        && (o.Returned? ==> events == old(events) + o.events && result == Some(o.result))
      ensures result.Some? && old(guard) ==> View() == old(View()) && lastResult == old(lastResult)
      ensures var o := Call(old(View()), old(ApplyAll(View(), ops)), fn, old(guard), old(lastResult), realResult, fuel);
        o.Returned? && !old(guard) && OnPresent in o.events ==>
          && View() == old(ApplyAll(View(), ops)).(ignoreNext := false)
          && !insidePresent && Some(lastResult) == result
      ensures var o := Call(old(View()), old(ApplyAll(View(), ops)), fn, old(guard), old(lastResult), realResult, fuel);
        o.Returned? && !old(guard) && OnPresent !in o.events ==>
          View() == old(View()) && insidePresent == old(insidePresent) && lastResult == old(lastResult)
      decreases fuel, 1
    {
      match fn
      case Real =>
        events := events + [RealPresent];
        return Some(realResult);
      case Overlay(i) =>
        if |saved| <= i {
          return None;
        }
        result := CallFn(saved[i], ops, realResult, fuel - 1);
      case Detour =>
        result := Present(ops, realResult, fuel);
    }

    /** The guarded call of the saved pointer. */
    method PassOn(presentFn: Fn, realResult: int, ghost fuel: nat) returns (result: Option<int>)
      requires Valid() && !guard
      requires !ignoreNext ==> !Call(View(), View(), presentFn, true, lastResult, realResult, fuel).Unfinished?
      modifies this, slot
      ensures old(ignoreNext) ==> result == Some(S_OK) && events == old(events)
      ensures !old(ignoreNext) ==>
        var o := Call(old(View()), old(View()), presentFn, true, old(lastResult), realResult, fuel);
        && (result.None? <==> o.Crashed?)
        && (o.Returned? ==> result == Some(o.result) && events == old(events) + o.events)
      ensures result.Some? ==>
        Valid() && !guard && View() == old(View()).(ignoreNext := false) && Some(lastResult) == result
      decreases fuel, 2
    {
      result := Some(S_OK);
      guard := true;
      if !ignoreNext {
        assert ApplyAll(View(), []) == View();
        result := CallFn(presentFn, [], realResult, fuel);
        if result.None? {
          return;
        }
        lastResult := result.value;
      } else {
        ignoreNext := false;
        lastResult := S_OK;
      }
      guard := false;
    }

    /** The detour. */
    method Present(ops: seq<Op>, realResult: int, ghost fuel: nat) returns (result: Option<int>)
      requires Valid() && Legal(View(), ops) && (guard ==> ops == [])
      requires !Call(View(), ApplyAll(View(), ops), Detour, guard, lastResult, realResult, fuel).Unfinished?
      modifies this, slot
      ensures var (c, after) := (old(View()), old(ApplyAll(View(), ops)));
        var o := Call(c, after, Detour, old(guard), old(lastResult), realResult, fuel);
        && (result.None? <==> o.Crashed?)
        && (o.Returned? ==> Valid() && guard == old(guard))
        && (o.Returned? ==> events == old(events) + o.events && result == Some(o.result))
      ensures result.Some? && old(guard) ==> View() == old(View()) && lastResult == old(lastResult)
      ensures result.Some? && !old(guard) ==>
        && View() == old(ApplyAll(View(), ops)).(ignoreNext := false)
        && !insidePresent && Some(lastResult) == result
      decreases fuel, 0
    {
      insidePresent := true;
      if presentHook == null {
        return None;
      }
      var presentFn := presentHook.original;
      if guard {
        events := events + [Suppressed];
        return Some(lastResult);
      }
      PerformAll(ops);
      events := events + [OnPresent];
      result := PassOn(presentFn, realResult, fuel - 1);
      if result.None? {
        return;
      }
      events := events + [OnPostPresent];
      insidePresent := false;
    }
  }
}
