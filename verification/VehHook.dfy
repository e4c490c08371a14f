/** Software breakpoints: the hook records of every `VehHook` object, the three
    operations on them and the exception handler, over a code image that is a
    sequence of bytes indexed by address.  Address 0 is the null address. */
module VehHook {
  import opened Prelude

  const INT3: Byte := 0xCC

  type Code = seq<Byte>

  /** One installed breakpoint.  `callback` says whether a callback was given;
      a `destination` of 0 is none. */
  datatype HookInfo = HookInfo(
    target: nat, next: nat, destination: nat,
    originalByte: Byte, nextOriginalByte: Byte, callback: bool)

  /** The hooks in the order in which the handler looks at them. */
  function All(groups: seq<seq<HookInfo>>): seq<HookInfo> {
    if groups == [] then [] else groups[0] + All(groups[1..])
  }

  predicate Touches(h: HookInfo, a: nat) {
    a == h.target || a == h.next
  }

  function Find(hooks: seq<HookInfo>, ip: nat): Option<HookInfo> {
    if hooks == [] then None
    else if Touches(hooks[0], ip) then Some(hooks[0])
    else Find(hooks[1..], ip)
  }

  lemma {:induction false} FindConcat(a: seq<HookInfo>, b: seq<HookInfo>, ip: nat)
    ensures Find(a + b, ip) == if Find(a, ip).Some? then Find(a, ip) else Find(b, ip)
  {
    if a == [] {
      assert a + b == b;
    } else {
      assert (a + b)[1..] == a[1..] + b;
      FindConcat(a[1..], b, ip);
    }
  }

  lemma {:induction false} FindIsIn(hooks: seq<HookInfo>, ip: nat)
    ensures Find(hooks, ip).None? ==> forall h | h in hooks :: !Touches(h, ip)
    ensures Find(hooks, ip).Some? ==> Find(hooks, ip).value in hooks && Touches(Find(hooks, ip).value, ip)
  {
    if hooks != [] && !Touches(hooks[0], ip) {
      FindIsIn(hooks[1..], ip);
      assert hooks == [hooks[0]] + hooks[1..];
    }
  }

  predicate Mapped(h: HookInfo, size: nat) {
    h.target < size && h.next < size
  }

  /** What the handler does to the code bytes for the hook it matched. */
  function Patched(mem: Code, h: HookInfo, ip: nat): Code
    requires Mapped(h, |mem|)
  {
    if ip == h.target then
      var disarmed := mem[h.target := h.originalByte];
      if h.callback then disarmed[h.next := INT3] else disarmed
    else
      mem[h.next := h.nextOriginalByte][h.target := INT3]
  }

  /** The record `hook` builds; `len` is the length the disassembler gives. */
  function NewHook(mem: Code, target: nat, len: nat, destination: nat, callback: bool): HookInfo
    requires target + len < |mem|
  {
    HookInfo(target, target + len, destination, mem[target], mem[target + len], callback)
  }

  /** Writing back both saved bytes of every hook, in installation order. */
  function RestoreAll(mem: Code, hooks: seq<HookInfo>): Code
    requires forall h | h in hooks :: Mapped(h, |mem|)
    decreases |hooks|
  {
    if hooks == [] then mem
    else
      var h := hooks[0];
      assert h in hooks && Mapped(h, |mem|);
      RestoreAll(mem[h.target := h.originalByte][h.next := h.nextOriginalByte], hooks[1..])
  }

  lemma {:induction false} AllSplit(groups: seq<seq<HookInfo>>, g: nat)
    requires g < |groups|
    ensures All(groups) == All(groups[..g]) + groups[g] + All(groups[g + 1..])
  {
    if g > 0 {
      AllSplit(groups[1..], g - 1);
      assert groups[1..][..g - 1] == groups[..g][1..];
      assert groups[1..][g..] == groups[g + 1..];
    }
  }

  /** The owner of a list of breakpoints; all owners share one code image. */
  class Owner {
    var hooks: seq<HookInfo>

    constructor ()
      ensures hooks == []
    {
      hooks := [];
    }
  }

  ghost function GroupsOf(owners: seq<Owner>): (groups: seq<seq<HookInfo>>)
    reads owners
    ensures |groups| == |owners|
    ensures forall i | 0 <= i < |owners| :: groups[i] == owners[i].hooks
  {
    if owners == [] then [] else [owners[0].hooks] + GroupsOf(owners[1..])
  }

  /** The process: its code bytes and the global list of hook owners. */
  class Process {
    const mem: array<Byte>
    var owners: seq<Owner>
    var rip: nat
    var calls: seq<nat>  // the target of the hook, for each callback made

    constructor (mem: array<Byte>)
      ensures this.mem == mem && owners == [] && calls == [] && Valid()
    {
      this.mem := mem;
      owners, rip, calls := [], 0, [];
    }

    ghost function Hooks(): seq<HookInfo>
      reads this, owners
    {
      All(GroupsOf(owners))
    }

    ghost predicate Valid()
      reads this, owners
    {
      && (forall i, j | 0 <= i < j < |owners| :: owners[i] != owners[j])
      && (forall o, h | o in owners && h in o.hooks :: Mapped(h, mem.Length))
    }

    method Create() returns (o: Owner)
      requires Valid()
      modifies this`owners
      ensures Valid() && fresh(o) && owners == old(owners) + [o] && o.hooks == []
    {
      o := new Owner();
      owners := owners + [o];
    }

    method Hook(o: Owner, target: nat, len: nat, destination: nat, callback: bool) returns (ok: bool)
      requires Valid() && o in owners && target + len < mem.Length
      modifies o, mem
      ensures Valid()
      ensures ok <==> target != 0 && target + len != 0
      ensures ok ==>
        o.hooks == old(o.hooks) +
          [HookInfo(target, target + len, destination, old(mem[target]), old(mem[target + len]), callback)]
      ensures ok ==> mem[..] == old(mem[..])[target := INT3]
      ensures !ok ==> o.hooks == old(o.hooks) && mem[..] == old(mem[..])
    {
      var next := target + len;
      if target == 0 {
        return false;
      }
      var originalByte := mem[target];
      if next == 0 {
        return false;
      }
      var nextOriginalByte := mem[next];
      mem[target] := INT3;
      o.hooks := o.hooks + [HookInfo(target, next, destination, originalByte, nextOriginalByte, callback)];
      return true;
    }

    method Remove(o: Owner)
      requires Valid() && o in owners
      modifies o, mem
      ensures Valid() && o.hooks == []
      ensures mem[..] == RestoreAll(old(mem[..]), old(o.hooks))
    {
      var i := 0;
      while i < |o.hooks|
        invariant 0 <= i <= |o.hooks|
        invariant o.hooks == old(o.hooks) && Valid()
        invariant RestoreAll(mem[..], o.hooks[i..]) == RestoreAll(old(mem[..]), o.hooks)
      {
        var h := o.hooks[i];
        assert h in o.hooks && Mapped(h, mem.Length);
        ghost var was: Code := mem[..];
        assert o.hooks[i..][0] == h && o.hooks[i..][1..] == o.hooks[i + 1..];
        mem[h.target] := h.originalByte;
        mem[h.next] := h.nextOriginalByte;
        assert mem[..] == was[h.target := h.originalByte][h.next := h.nextOriginalByte];
        i := i + 1;
      }
      o.hooks := [];
    }

    /** What a breakpoint exception at `ip` does once hook `h` is matched. */
    method Trap(h: HookInfo, ip: nat)
      requires Mapped(h, mem.Length) && Touches(h, ip)
      modifies this`rip, this`calls, mem
      ensures mem[..] == Patched(old(mem[..]), h, ip)
      ensures calls == old(calls) + (if ip == h.target && h.callback then [h.target] else [])
      ensures rip == if ip == h.target && h.destination != 0 then h.destination else old(rip)
    {
      if ip == h.target {
        mem[h.target] := h.originalByte;
        if h.callback {
          calls := calls + [h.target];
          mem[h.next] := INT3;
        }
        if h.destination != 0 {
          rip := h.destination;
        }
      } else {
        mem[h.next] := h.nextOriginalByte;
        mem[h.target] := INT3;
      }
    }

    /** The handler's loop over one owner's hooks. */
    method FirstTouching(hooks: seq<HookInfo>, ip: nat) returns (h: Option<HookInfo>)
      ensures h == Find(hooks, ip)
    {
      var j := 0;
      while j < |hooks|
        invariant 0 <= j <= |hooks|
        invariant Find(hooks, ip) == Find(hooks[j..], ip)
      {
        var h := hooks[j];
        assert hooks[j..][1..] == hooks[j + 1..];
        if ip != h.target && ip != h.next {
          j := j + 1;
          continue;
        }
        return Some(h);
      }
      return None;
    }

    /** The handler's loop over the owners. */
    method FindHook(ip: nat) returns (h: Option<HookInfo>)
      requires Valid()
      ensures h == Find(Hooks(), ip) && (h.Some? ==> Mapped(h.value, mem.Length) && Touches(h.value, ip))
    {
      ghost var groups := GroupsOf(owners);
      var i := 0;
      while i < |owners|
        invariant 0 <= i <= |owners|
        invariant Find(Hooks(), ip) == Find(All(groups[i..]), ip)
      {
        var hooks := owners[i].hooks;
        h := FirstTouching(hooks, ip);
        assert groups[i..][1..] == groups[i + 1..];
        FindConcat(hooks, All(groups[i + 1..]), ip);
        if h.Some? {
          FindIsIn(hooks, ip);
          assert h.value in owners[i].hooks;
          return;
        }
        i := i + 1;
      }
      return None;
    }

    /** The breakpoint arm of the exception handler; `handled` is "continue
        execution" and its negation "continue search". */
    method Handler(ip: nat) returns (handled: bool)
      requires Valid()
      modifies this`rip, this`calls, mem
      ensures Valid()
      ensures handled <==> Find(Hooks(), ip).Some?
      ensures !handled ==> mem[..] == old(mem[..]) && rip == old(rip) && calls == old(calls)
      ensures handled ==>
        var h := Find(Hooks(), ip).value;
        && Mapped(h, mem.Length)
        && mem[..] == Patched(old(mem[..]), h, ip)
        && calls == old(calls) + (if ip == h.target && h.callback then [h.target] else [])
        && rip == if ip == h.target && h.destination != 0 then h.destination else old(rip)
    {
      var h := FindHook(ip);
      if h.None? {
        return false;
      }
      Trap(h.value, ip);
      return true;
    }
  }
}
