/** Recovering the on-disk bytes of patched code, and putting them in place for
    the length of one call.  `mem` and `disk` are the readable bytes from the
    same code address onwards, in memory and in the module's file. */
module OriginalBytes {
  import opened Prelude

  /** `Nothing` stands for the empty result; `Overrun` for a read past the
      readable bytes, where the source has no bound. */
  datatype Recovered = Nothing | Original(bytes: seq<Byte>) | Overrun

  function Limit(mem: seq<Byte>, disk: seq<Byte>): nat {
    if |mem| < |disk| then |mem| else |disk|
  }

  predicate Differs(mem: seq<Byte>, disk: seq<Byte>, i: nat) {
    i < Limit(mem, disk) && mem[i] != disk[i]
  }

  /** Five consecutive readable bytes from n on agree. */
  predicate Settled(mem: seq<Byte>, disk: seq<Byte>, n: nat) {
    n + 5 <= Limit(mem, disk) && forall i | n <= i < n + 5 :: mem[i] == disk[i]
  }

  predicate FirstSettled(mem: seq<Byte>, disk: seq<Byte>, n: nat) {
    Settled(mem, disk, n) && forall m | 0 <= m < n :: !Settled(mem, disk, m)
  }

  method GetOriginalBytes(mem: array<Byte>, disk: Option<seq<Byte>>) returns (r: Recovered)
    ensures disk.None? ==> r == Nothing
    ensures disk.Some? && r.Overrun? ==> forall n :: !Settled(mem[..], disk.value, n)
    ensures disk.Some? && r.Nothing? ==> Settled(mem[..], disk.value, 0)
    ensures disk.Some? && r.Original? ==>
      var n := |r.bytes|;
      0 < n && FirstSettled(mem[..], disk.value, n) && r.bytes == disk.value[..n]
  {
    if disk.None? {
      return Nothing;
    }
    var bytes := disk.value;
    var original: seq<Byte> := [];
    var i := 0;
    while true
      invariant 0 <= i <= Limit(mem[..], bytes) && original == bytes[..i]
      invariant forall m | 0 <= m < i :: !Settled(mem[..], bytes, m)
      decreases Limit(mem[..], bytes) - i
    {
      if mem.Length <= i || |bytes| <= i {
        return Overrun;
      }
      if mem[i] == bytes[i] {
        var actuallyMatches := true;
        var j := 1;
        while j <= 4
          invariant 1 <= j <= 5 && i + j <= Limit(mem[..], bytes)
          invariant actuallyMatches && forall k | i <= k < i + j :: mem[k] == bytes[k]
        {
          if mem.Length <= i + j || |bytes| <= i + j {
            return Overrun;
          }
          if mem[i + j] != bytes[i + j] {
            actuallyMatches := false;
            break;
          }
          j := j + 1;
        }
        if actuallyMatches {
          break;
        }
      }
      original := original + [bytes[i]];
      i := i + 1;
    }
    return if original == [] then Nothing else Original(original);
  }

  function Written(mem: seq<Byte>, bytes: seq<Byte>): seq<Byte>
    requires |bytes| <= |mem|
  {
    bytes + mem[|bytes|..]
  }

  /** Writing the recovered bytes makes memory equal the file up to five bytes
      past them, so that nothing is left to recover; the last byte written was
      a patched one, and nothing behind it is touched. */
  lemma WritingSettles(mem: seq<Byte>, disk: seq<Byte>, n: nat)
    requires 0 < n && FirstSettled(mem, disk, n)
    ensures var mem' := Written(mem, disk[..n]);
      mem'[..n + 5] == disk[..n + 5] && mem'[n..] == mem[n..] && Settled(mem', disk, 0)
    ensures Differs(mem, disk, n - 1)
  {
    var mem' := Written(mem, disk[..n]);
    forall i | 0 <= i < n + 5
      ensures mem'[i] == disk[i]
    {
      assert n <= i ==> mem'[i] == mem[i];
    }
    assert !Settled(mem, disk, n - 1);
  }

  /** Every patched byte lies within five bytes of the start or of another
      patched byte before it. */
  ghost predicate Connected(mem: seq<Byte>, disk: seq<Byte>) {
    forall i | 5 <= i && Differs(mem, disk, i) :: exists j :: i - 5 <= j < i && Differs(mem, disk, j)
  }

  lemma {:induction false} ConnectedStaysBefore(mem: seq<Byte>, disk: seq<Byte>, n: nat, i: nat)
    requires FirstSettled(mem, disk, n) && Connected(mem, disk) && Differs(mem, disk, i)
    ensures i < n
  {
    if n <= i {
      assert n + 5 <= i;
      var j :| i - 5 <= j < i && Differs(mem, disk, j);
      ConnectedStaysBefore(mem, disk, n, j);
    }
  }

  /** The whole patch is undone exactly when it has no gap of five bytes. */
  lemma WholePatchUndoneIff(mem: seq<Byte>, disk: seq<Byte>, n: nat)
    requires FirstSettled(mem, disk, n)
    ensures (forall i :: !Differs(Written(mem, disk[..n]), disk, i)) <==> Connected(mem, disk)
  {
    var mem' := Written(mem, disk[..n]);
    assert forall i | n <= i < Limit(mem, disk) :: mem'[i] == mem[i];
    if Connected(mem, disk) {
      forall i
        ensures !Differs(mem', disk, i)
      {
        if n <= i && Differs(mem, disk, i) {
          ConnectedStaysBefore(mem, disk, n, i);
        }
      }
    } else {
      var i :| 5 <= i && Differs(mem, disk, i) && forall j | i - 5 <= j < i :: !Differs(mem, disk, j);
      assert Settled(mem, disk, i - 5) by {
        forall k | i - 5 <= k < i - 5 + 5 ensures mem[k] == disk[k] {
          assert !Differs(mem, disk, k);
        }
      }
      assert n <= i - 5 && Differs(mem', disk, i);
    }
  }

  // ----- using the bytes -----

  /** `out` is `mem` with the patch at its start undone. */
  ghost predicate Unpatched(mem: seq<Byte>, disk: seq<Byte>, out: seq<Byte>) {
    || (Settled(mem, disk, 0) && out == mem)
    || exists n :: 0 < n && FirstSettled(mem, disk, n) && out == Written(mem, disk[..n])
  }

  lemma UnpatchedSettles(mem: seq<Byte>, disk: seq<Byte>, out: seq<Byte>)
    requires Unpatched(mem, disk, out)
    ensures |out| == |mem| && Settled(out, disk, 0)
  {
    if n :| 0 < n && FirstSettled(mem, disk, n) && out == Written(mem, disk[..n]) {
      WritingSettles(mem, disk, n);
    }
  }

  method CopyInto(dst: array<Byte>, bytes: seq<Byte>)
    requires |bytes| <= dst.Length
    modifies dst
    ensures dst[..] == Written(old(dst[..]), bytes)
  {
    for i := 0 to |bytes|
      invariant dst[..i] == bytes[..i] && dst[i..] == old(dst[..])[i..]
    {
      dst[i] := bytes[i];
    }
    assert dst[..] == dst[..|bytes|] + dst[|bytes|..];
  }

  /** Runs the create function on unpatched code and puts the patch back,
      whether the call fails or not.  `seen` is the code the call ran on. */
  method CreateUnhooked(mem: array<Byte>, disk: Option<seq<Byte>>, createFails: bool)
      returns (created: bool, ghost seen: seq<Byte>)
    requires disk.Some? ==> exists n :: Settled(mem[..], disk.value, n)
    modifies mem
    ensures mem[..] == old(mem[..])
    ensures created <==> !createFails
    ensures if disk.Some? then Unpatched(mem[..], disk.value, seen) else seen == mem[..]
  {
    var original := GetOriginalBytes(mem, disk);
    if original.Original? {
      var n := |original.bytes|;
      ghost var before := mem[..];
      var hookedBytes := mem[..n];
      CopyInto(mem, original.bytes);
      seen := mem[..];
      if createFails {
        CopyInto(mem, hookedBytes);
        assert mem[..] == before;
        return false, seen;
      }
      CopyInto(mem, hookedBytes);
      assert mem[..] == before;
      return true, seen;
    }
    return !createFails, mem[..];
  }

  /** What a re-entered detour does to the code it was about to call. */
  method RestoreOriginal(mem: array<Byte>, disk: Option<seq<Byte>>) returns (repaired: bool)
    requires disk.Some? ==> exists n :: Settled(mem[..], disk.value, n)
    modifies mem
    ensures if disk.Some? then Unpatched(old(mem[..]), disk.value, mem[..]) else mem[..] == old(mem[..])
  {
    var original := GetOriginalBytes(mem, disk);
    repaired := original.Original?;
    if repaired {
      CopyInto(mem, original.bytes);
    }
  }
}
