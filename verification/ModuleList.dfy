/** The loader's module list: a circular doubly linked list with a head, from
    which entries are unlinked while it is being walked. */
module ModuleList {

  class ListEntry {
    var flink: ListEntry?
    var blink: ListEntry?
    const dllBase: nat
    const fullDllName: string

    constructor (dllBase: nat, fullDllName: string)
      ensures this.dllBase == dllBase && this.fullDllName == fullDllName
    {
      this.dllBase, this.fullDllName := dllBase, fullDllName;
      flink, blink := null, null;
    }
  }

  /** What the sweep asks the system for. */
  datatype System = System(lower: char -> char, directory: string, executable: nat)

  function NextIndex(i: nat, n: nat): nat
  {
    if i + 1 == n then 0 else i + 1
  }

  predicate Distinct(ring: seq<ListEntry>) {
    forall i, j | 0 <= i < j < |ring| :: ring[i] != ring[j]
  }

  /** The entries of `ring` form one circular doubly linked list in this order;
      the first is the head. */
  ghost predicate Ring(ring: seq<ListEntry>)
    reads ring
  {
    && ring != [] && Distinct(ring)
    && (forall i | 0 <= i < |ring| :: ring[i].flink == ring[NextIndex(i, |ring|)])
    && (forall i | 0 <= i < |ring| :: ring[NextIndex(i, |ring|)].blink == ring[i])
  }

  // ----- paths -----

  function Lower(sys: System, s: string): string {
    seq(|s|, i requires 0 <= i < |s| => sys.lower(s[i]))
  }

  function FileName(path: string): string {
    if path == [] then []
    else
      var rest := FileName(path[1..]);
      if HasSeparator(path[1..]) then rest
      else if IsSeparator(path[0]) then path[1..] else path
  }

  predicate IsSeparator(c: char) { c == '\\' || c == '/' }

  predicate HasSeparator(path: string) {
    exists i :: 0 <= i < |path| && IsSeparator(path[i])
  }

  /** The index of the last dot, or -1. */
  function LastDot(s: string): (d: int)
    ensures -1 <= d < |s|
  {
    if s == [] then -1 else if s[|s| - 1] == '.' then |s| - 1 else LastDot(s[..|s| - 1])
  }

  function Stem(path: string): string {
    var name := FileName(path);
    var dot := LastDot(name);
    if name == ".." || dot <= 0 then name else name[..dot]
  }

  predicate Contains(s: string, part: string) {
    part <= s || (s != [] && Contains(s[1..], part))
  }

  function PathOf(sys: System, e: ListEntry): string {
    Lower(sys, e.fullDllName)
  }

  function StemOf(sys: System, e: ListEntry): string {
    Stem(PathOf(sys, e))
  }

  predicate Exempt(sys: System, e: ListEntry) {
    e.dllBase == sys.executable || sys.directory <= PathOf(sys, e)
  }

  /** How many of the entries have `name` in their path. */
  function Count(sys: System, entries: seq<ListEntry>, name: string): nat {
    if entries == [] then 0
    else (if Contains(PathOf(sys, entries[0]), Lower(sys, name)) then 1 else 0) + Count(sys, entries[1..], name)
  }

  /** The entries left by the sweep: `kept` has been visited, `rest` has not. */
  function Sweep(sys: System, kept: seq<ListEntry>, rest: seq<ListEntry>): seq<ListEntry>
    decreases |rest|
  {
    if rest == [] then kept
    else if Exempt(sys, rest[0]) || Count(sys, kept + rest, StemOf(sys, rest[0])) <= 1 then
      Sweep(sys, kept + [rest[0]], rest[1..])
    else Sweep(sys, kept, rest[1..])
  }

  function Without(entries: seq<ListEntry>, base: nat): seq<ListEntry> {
    if entries == [] then []
    else (if entries[0].dllBase == base then [] else [entries[0]]) + Without(entries[1..], base)
  }

  // ----- the operations -----

  /** Takes one entry out; its own links stay, so the walk can go on from it. */
  method Detach(entry: ListEntry, ghost ring: seq<ListEntry>, ghost k: nat)
    requires Ring(ring) && 0 < k < |ring| && ring[k] == entry
    modifies entry.flink, entry.blink
    ensures Ring(ring[..k] + ring[k + 1..])
    ensures entry.flink == old(entry.flink)
  {
    var n := |ring|;
    ghost var after := NextIndex(k, n);
    assert ring[NextIndex(k - 1, n)].blink == ring[k - 1];
    assert ring[k].flink == ring[after];
    DistinctFrom(ring, k - 1);
    DistinctFrom(ring, after);
    DistinctFrom(ring, k);
    entry.flink.blink := entry.blink;
    entry.blink.flink := entry.flink;
    assert forall i | 0 <= i < n :: ring[i].flink == if i == k - 1 then ring[after] else ring[NextIndex(i, n)];
    assert forall i | 0 <= i < n :: ring[NextIndex(i, n)].blink == if i == k then ring[k - 1] else ring[i];
    ghost var left := ring[..k] + ring[k + 1..];
    forall i | 0 <= i < n - 1
      ensures left[i].flink == left[NextIndex(i, n - 1)] && left[NextIndex(i, n - 1)].blink == left[i]
    {
      var i' := if i < k then i else i + 1;
      assert left[i] == ring[i'];
      assert left[NextIndex(i, n - 1)] == ring[if i == k - 1 then after else NextIndex(i', n)];
      assert ring[NextIndex(i', n)].blink == ring[i'];
      assert ring[NextIndex(k, n)].blink == ring[k - 1];
    }
  }

  lemma DistinctFrom(ring: seq<ListEntry>, k: nat)
    requires Distinct(ring) && k < |ring|
    ensures forall i | 0 <= i < |ring| && i != k :: ring[i] != ring[k]
  {
  }

  method GetModuleCount(sys: System, head: ListEntry, name: string, ghost entries: seq<ListEntry>) returns (n: nat)
    requires Ring([head] + entries)
    ensures n == Count(sys, entries, name)
  {
    n := 0;
    var lowerName := Lower(sys, name);
    var entry := head.flink;
    ghost var i := 0;
    ghost var ring := [head] + entries;
    assert ring[0].flink == ring[NextIndex(0, |ring|)];
    while entry != head && entry != null
      invariant 0 <= i <= |entries| && entry == ring[if i == |entries| then 0 else i + 1]
      invariant n + Count(sys, entries[i..], name) == Count(sys, entries, name)
      decreases |entries| - i
    {
      assert ring[i + 1].flink == ring[NextIndex(i + 1, |ring|)];
      assert entries[i..][1..] == entries[i + 1..];
      if Contains(PathOf(sys, entry), lowerName) {
        n := n + 1;
      }
      entry := entry.flink;
      i := i + 1;
    }
  }

  predicate Members(some: seq<ListEntry>, entries: seq<ListEntry>) {
    forall e | e in some :: e in entries
  }

  /** Where the walk stands: at the first unvisited entry, or at the head. */
  function At(head: ListEntry, rest: seq<ListEntry>): ListEntry {
    if rest == [] then head else rest[0]
  }

  lemma WalkGoesOn(head: ListEntry, kept: seq<ListEntry>, rest: seq<ListEntry>)
    requires Ring([head] + kept + rest) && (rest != [] || kept == [])
    ensures rest != [] ==> rest[0] != head && rest[0].flink == At(head, rest[1..])
    ensures kept == [] ==> head.flink == At(head, rest)
  {
    var ring := [head] + kept + rest;
    var k := if rest == [] then 0 else 1 + |kept|;
    assert ring[k].flink == ring[NextIndex(k, |ring|)];
    assert ring[0].flink == ring[NextIndex(0, |ring|)];
    assert rest != [] ==> ring[0] != ring[k];
  }

  method DetachVisited(head: ListEntry, entry: ListEntry, ghost kept: seq<ListEntry>, ghost rest: seq<ListEntry>,
                       ghost entries: seq<ListEntry>)
    requires rest != [] && entry == rest[0] && Ring([head] + kept + rest)
    requires Members(kept, entries) && Members(rest, entries)
    modifies [head] + entries
    ensures Ring([head] + kept + rest[1..])
    ensures entry.flink == old(entry.flink)
  {
    ghost var ring, k := [head] + kept + rest, 1 + |kept|;
    assert entry.flink == ring[NextIndex(k, |ring|)];
    assert entry.flink == At(head, rest[1..]);
    assert ring[NextIndex(k - 1, |ring|)].blink == ring[k - 1];
    assert entry.blink == if kept == [] then head else kept[|kept| - 1];
    assert entry.flink in [head] + entries && entry.blink in [head] + entries;
    Detach(entry, ring, k);
    assert ring[..k] + ring[k + 1..] == [head] + kept + rest[1..];
  }

  /** The callback of the sweep: unlinks `entry` if it is a duplicate. */
  method VisitForDuplicates(sys: System, head: ListEntry, entry: ListEntry,
                            ghost kept: seq<ListEntry>, ghost rest: seq<ListEntry>, ghost entries: seq<ListEntry>)
      returns (ghost kept': seq<ListEntry>)
    requires rest != [] && entry == rest[0] && Ring([head] + kept + rest)
    requires Members(kept, entries) && Members(rest, entries)
    modifies [head] + entries
    ensures Ring([head] + kept' + rest[1..]) && Members(kept', entries)
    ensures Sweep(sys, kept', rest[1..]) == Sweep(sys, kept, rest)
    ensures entry.flink == At(head, rest[1..])
  {
    WalkGoesOn(head, kept, rest);
    kept' := kept + [entry];
    assert [head] + kept + rest == [head] + kept' + rest[1..] == [head] + (kept + rest);
    if Exempt(sys, entry) {
      return;
    }
    var count := GetModuleCount(sys, head, StemOf(sys, entry), kept + rest);
    if count > 1 {
      DetachVisited(head, entry, kept, rest, entries);
      kept' := kept;
    }
  }

  /** Visits every entry once, in order, unlinking the duplicates on the way. */
  method UnlinkDuplicateModules(sys: System, head: ListEntry, ghost entries: seq<ListEntry>)
      returns (ghost visited: seq<ListEntry>)
    requires Ring([head] + entries)
    modifies [head] + entries
    ensures Ring([head] + Sweep(sys, [], entries))
    ensures visited == entries
  {
    var entry := head.flink;
    visited := [];
    ghost var kept: seq<ListEntry>, rest := [], entries;
    assert [head] + entries == [head] + kept + rest;
    WalkGoesOn(head, kept, rest);
    while entry != head && entry != null
      invariant visited + rest == entries && Members(kept, entries) && Members(rest, entries)
      invariant Ring([head] + kept + rest) && entry == At(head, rest)
      invariant Sweep(sys, kept, rest) == Sweep(sys, [], entries)
      decreases |rest|
    {
      kept := VisitForDuplicates(sys, head, entry, kept, rest, entries);
      assert visited + rest == (visited + [entry]) + rest[1..];
      visited, rest := visited + [entry], rest[1..];
      entry := entry.flink;
    }
    WalkEnds(head, kept, rest);
  }

  /** The walk is back at the head only when nothing is left to visit. */
  lemma WalkEnds(head: ListEntry, kept: seq<ListEntry>, rest: seq<ListEntry>)
    requires Ring([head] + kept + rest) && At(head, rest) == head
    ensures rest == [] && [head] + kept + rest == [head] + kept
  {
    if rest != [] {
      WalkGoesOn(head, kept, rest);
    }
  }

  lemma WithoutStep(kept: seq<ListEntry>, rest: seq<ListEntry>, base: nat)
    requires rest != []
    ensures kept + Without(rest, base) ==
      (if rest[0].dllBase == base then kept else kept + [rest[0]]) + Without(rest[1..], base)
  {
  }

  /** The callback of `unlink`. */
  method VisitForModule(base: nat, head: ListEntry, entry: ListEntry,
                        ghost kept: seq<ListEntry>, ghost rest: seq<ListEntry>, ghost entries: seq<ListEntry>)
      returns (ghost kept': seq<ListEntry>)
    requires rest != [] && entry == rest[0] && Ring([head] + kept + rest)
    requires Members(kept, entries) && Members(rest, entries)
    modifies [head] + entries
    ensures Ring([head] + kept' + rest[1..]) && Members(kept', entries)
    ensures kept' + Without(rest[1..], base) == kept + Without(rest, base)
    ensures entry.flink == At(head, rest[1..])
  {
    WalkGoesOn(head, kept, rest);
    WithoutStep(kept, rest, base);
    kept' := kept + [entry];
    assert [head] + kept + rest == [head] + kept' + rest[1..];
    if entry.dllBase == base {
      DetachVisited(head, entry, kept, rest, entries);
      kept' := kept;
    }
  }

  /** Unlinks every entry of one module. */
  method Unlink(base: nat, head: ListEntry, ghost entries: seq<ListEntry>)
    requires Ring([head] + entries)
    modifies [head] + entries
    ensures Ring([head] + if base == 0 then entries else Without(entries, base))
  {
    if base == 0 {
      return;
    }
    var entry := head.flink;
    ghost var kept: seq<ListEntry>, rest := [], entries;
    assert [head] + entries == [head] + kept + rest;
    WalkGoesOn(head, kept, rest);
    while entry != head && entry != null
      invariant Members(kept, entries) && Members(rest, entries)
      invariant Ring([head] + kept + rest) && entry == At(head, rest)
      invariant kept + Without(rest, base) == Without(entries, base)
      decreases |rest|
    {
      kept := VisitForModule(base, head, entry, kept, rest, entries);
      rest := rest[1..];
      entry := entry.flink;
    }
    WalkEnds(head, kept, rest);
    assert kept == Without(entries, base);
  }
}
