/** What the duplicate sweep leaves in the module list. */
module ModuleSweep {
  import opened ModuleList

  predicate Subsequence(a: seq<ListEntry>, b: seq<ListEntry>) {
    a == [] || (b != [] && ((a[0] == b[0] && Subsequence(a[1..], b[1..])) || Subsequence(a, b[1..])))
  }

  lemma {:induction false} CountConcat(sys: System, a: seq<ListEntry>, b: seq<ListEntry>, name: string)
    ensures Count(sys, a + b, name) == Count(sys, a, name) + Count(sys, b, name)
  {
    if a == [] {
      assert a + b == b;
    } else {
      assert (a + b)[1..] == a[1..] + b;
      CountConcat(sys, a[1..], b, name);
    }
  }

  /** Dropping the first unvisited entry can only lower a count. */
  lemma CountDrops(sys: System, kept: seq<ListEntry>, rest: seq<ListEntry>, name: string)
    requires rest != []
    ensures Count(sys, kept + rest[1..], name) <= Count(sys, kept + rest, name)
  {
    CountConcat(sys, kept, rest, name);
    CountConcat(sys, kept, rest[1..], name);
  }

  /** Every entry that is not exempt has its stem in at most one listed path. */
  predicate Unique(sys: System, visited: seq<ListEntry>, listed: seq<ListEntry>) {
    forall e | e in visited && !Exempt(sys, e) :: Count(sys, listed, StemOf(sys, e)) <= 1
  }

  lemma {:induction false} SweepMakesUnique(sys: System, kept: seq<ListEntry>, rest: seq<ListEntry>)
    requires Unique(sys, kept, kept + rest)
    ensures Unique(sys, Sweep(sys, kept, rest), Sweep(sys, kept, rest))
    decreases |rest|
  {
    if rest == [] {
      assert kept + rest == kept;
    } else {
      var e := rest[0];
      assert kept + rest == (kept + [e]) + rest[1..];
      if Exempt(sys, e) || Count(sys, kept + rest, StemOf(sys, e)) <= 1 {
        SweepMakesUnique(sys, kept + [e], rest[1..]);
      } else {
        forall k | k in kept && !Exempt(sys, k)
          ensures Count(sys, kept + rest[1..], StemOf(sys, k)) <= 1
        {
          CountDrops(sys, kept, rest, StemOf(sys, k));
        }
        SweepMakesUnique(sys, kept, rest[1..]);
      }
    }
  }

  lemma {:induction false} SweepOnlyDrops(sys: System, kept: seq<ListEntry>, rest: seq<ListEntry>)
      returns (tail: seq<ListEntry>)
    ensures Sweep(sys, kept, rest) == kept + tail && Subsequence(tail, rest)
    ensures forall e | e in rest && Exempt(sys, e) :: e in tail
    decreases |rest|
  {
    if rest == [] {
      tail := [];
    } else {
      assert rest == [rest[0]] + rest[1..];
      if Exempt(sys, rest[0]) || Count(sys, kept + rest, StemOf(sys, rest[0])) <= 1 {
        var more := SweepOnlyDrops(sys, kept + [rest[0]], rest[1..]);
        tail := [rest[0]] + more;
        assert tail[1..] == more;
        assert kept + tail == kept + [rest[0]] + more;
      } else {
        tail := SweepOnlyDrops(sys, kept, rest[1..]);
      }
    }
  }

  lemma {:induction false} UniqueListIsKept(sys: System, kept: seq<ListEntry>, rest: seq<ListEntry>)
    requires Unique(sys, rest, kept + rest)
    ensures Sweep(sys, kept, rest) == kept + rest
    decreases |rest|
  {
    if rest == [] {
      assert kept + rest == kept;
    } else {
      assert rest[0] in rest;
      assert kept + rest == (kept + [rest[0]]) + rest[1..];
      UniqueListIsKept(sys, kept + [rest[0]], rest[1..]);
    }
  }

  // ----- a path contains its own stem -----

  lemma {:induction false} ContainsMiddle(a: string, part: string, b: string)
    ensures Contains(a + part + b, part)
  {
    if a == [] {
      assert a + part + b == part + b;
    } else {
      ContainsMiddle(a[1..], part, b);
      assert (a + part + b)[1..] == a[1..] + part + b;
    }
  }

  lemma {:induction false} FileNameIsSuffix(path: string) returns (directory: string)
    ensures path == directory + FileName(path)
  {
    if path == [] {
      directory := [];
    } else if HasSeparator(path[1..]) {
      var rest := FileNameIsSuffix(path[1..]);
      directory := [path[0]] + rest;
    } else {
      directory := if IsSeparator(path[0]) then [path[0]] else [];
    }
  }

  lemma StemIsPart(path: string) returns (a: string, b: string)
    ensures path == a + Stem(path) + b
  {
    a := FileNameIsSuffix(path);
    var name, stem := FileName(path), Stem(path);
    b := name[|stem|..];
    assert name == stem + b;
  }

  ghost predicate Idempotent(sys: System) {
    forall c: char :: sys.lower(sys.lower(c)) == sys.lower(c)
  }

  lemma StemIsLowered(sys: System, e: ListEntry)
    requires Idempotent(sys)
    ensures Lower(sys, StemOf(sys, e)) == StemOf(sys, e)
  {
    var path, stem := PathOf(sys, e), StemOf(sys, e);
    var a, b := StemIsPart(path);
    forall i | 0 <= i < |stem|
      ensures sys.lower(stem[i]) == stem[i]
    {
      assert stem[i] == path[|a| + i] == sys.lower(e.fullDllName[|a| + i]);
    }
  }

  lemma PathHasStem(sys: System, e: ListEntry)
    requires Idempotent(sys)
    ensures Contains(PathOf(sys, e), Lower(sys, StemOf(sys, e)))
  {
    var a, b := StemIsPart(PathOf(sys, e));
    StemIsLowered(sys, e);
    ContainsMiddle(a, StemOf(sys, e), b);
  }

  lemma {:induction false} CountedOnce(sys: System, entries: seq<ListEntry>, e: ListEntry, name: string)
    requires e in entries && Contains(PathOf(sys, e), Lower(sys, name))
    ensures 1 <= Count(sys, entries, name)
  {
    if entries[0] != e {
      CountedOnce(sys, entries[1..], e, name);
    }
  }

  /** The executable itself, or a module whose path begins with the system
      directory, whatever its letter case. */
  predicate Protected(sys: System, e: ListEntry) {
    || e.dllBase == sys.executable
    || (|sys.directory| <= |e.fullDllName| &&
        forall i | 0 <= i < |sys.directory| :: sys.lower(e.fullDllName[i]) == sys.directory[i])
  }

  lemma ExemptIsProtected(sys: System, e: ListEntry)
    ensures Exempt(sys, e) <==> Protected(sys, e)
  {
    var path, d := PathOf(sys, e), sys.directory;
    assert |path| == |e.fullDllName|;
    if d <= path {
      assert forall i | 0 <= i < |d| :: path[i] == d[i];
    } else if |d| <= |path| {
      assert path[..|d|] != d;
    }
  }

  /** After the sweep the list is the old one with entries left out; the
      executable and the system modules are still there, and every other listed
      module is the only one whose path contains its stem. */
  lemma SweepResult(sys: System, entries: seq<ListEntry>)
    requires Idempotent(sys)
    ensures var left := Sweep(sys, [], entries);
      && Subsequence(left, entries)
      && (forall e | e in entries && Protected(sys, e) :: e in left)
      && (forall e | e in left && !Protected(sys, e) :: Count(sys, left, StemOf(sys, e)) == 1)
  {
    var tail := SweepOnlyDrops(sys, [], entries);
    assert [] + tail == tail;
    SweepMakesUnique(sys, [], entries);
    forall e
      ensures Exempt(sys, e) <==> Protected(sys, e)
    {
      ExemptIsProtected(sys, e);
    }
    forall e | e in tail && !Exempt(sys, e)
      ensures Count(sys, tail, StemOf(sys, e)) == 1
    {
      PathHasStem(sys, e);
      CountedOnce(sys, tail, e, StemOf(sys, e));
    }
  }

  /** The sweep changes nothing exactly when nothing is duplicated; a second
      sweep therefore never does. */
  lemma SweepChangesNothingIff(sys: System, entries: seq<ListEntry>)
    ensures Sweep(sys, [], entries) == entries <==> Unique(sys, entries, entries)
    ensures Sweep(sys, [], Sweep(sys, [], entries)) == Sweep(sys, [], entries)
  {
    SweepMakesUnique(sys, [], entries);
    var left := Sweep(sys, [], entries);
    assert [] + entries == entries && [] + left == left;
    UniqueListIsKept(sys, [], left);
    if Unique(sys, entries, entries) {
      UniqueListIsKept(sys, [], entries);
    }
  }

  // ----- what happens to the last copy -----

  predicate Hit(sys: System, e: ListEntry, name: string) {
    Contains(PathOf(sys, e), Lower(sys, name))
  }

  predicate SomeHit(sys: System, entries: seq<ListEntry>, name: string) {
    exists e :: e in entries && Hit(sys, e, name)
  }

  lemma {:induction false} PrefixTransitive(s: string, part: string, inner: string)
    requires part <= s && Contains(part, inner)
    ensures Contains(s, inner)
    decreases |part|
  {
    if !(inner <= part) {
      assert part[1..] <= s[1..];
      PrefixTransitive(s[1..], part[1..], inner);
    }
  }

  lemma {:induction false} ContainsTransitive(s: string, part: string, inner: string)
    requires Contains(s, part) && Contains(part, inner)
    ensures Contains(s, inner)
    decreases |s|
  {
    if part <= s {
      PrefixTransitive(s, part, inner);
    } else {
      ContainsTransitive(s[1..], part, inner);
    }
  }

  lemma {:induction false} CountFinds(sys: System, entries: seq<ListEntry>, name: string)
    requires 1 <= Count(sys, entries, name)
    ensures SomeHit(sys, entries, name)
  {
    if !Hit(sys, entries[0], name) {
      CountFinds(sys, entries[1..], name);
      var e :| e in entries[1..] && Hit(sys, e, name);
      assert e in entries;
    } else {
      assert entries[0] in entries;
    }
  }

  /** Some modules that hit `name`, each of them exempt or with its own stem found
      in no module outside: none of them can be the last one dropped. */
  predicate Holds(sys: System, modules: set<ListEntry>, core: set<ListEntry>, name: string) {
    && core != {} && core <= modules && (forall r | r in core :: Hit(sys, r, name))
    && (forall r, m | r in core && !Exempt(sys, r) && m in modules && Hit(sys, m, StemOf(sys, r)) :: m in core)
  }

  predicate Within(some: seq<ListEntry>, modules: set<ListEntry>) {
    forall e | e in some :: e in modules
  }

  predicate Meets(some: seq<ListEntry>, core: set<ListEntry>) {
    exists e :: e in some && e in core
  }

  lemma DropLeavesCore(sys: System, modules: set<ListEntry>, core: set<ListEntry>,
                       kept: seq<ListEntry>, rest: seq<ListEntry>, name: string)
    requires Holds(sys, modules, core, name) && rest != [] && Within(kept + rest, modules)
    requires Meets(kept + rest, core)
    requires !Exempt(sys, rest[0]) && 1 < Count(sys, kept + rest, StemOf(sys, rest[0]))
    ensures Meets(kept + rest[1..], core)
  {
    var r, left := rest[0], kept + rest[1..];
    assert kept + rest == kept + [r] + rest[1..];
    if r in core {
      CountConcat(sys, kept, rest, StemOf(sys, r));
      CountConcat(sys, kept, rest[1..], StemOf(sys, r));
      CountFinds(sys, left, StemOf(sys, r));
      var other :| other in left && Hit(sys, other, StemOf(sys, r));
      assert other in kept + rest && other in core;
    } else {
      var e :| e in kept + rest && e in core;
      assert e in left;
    }
  }

  lemma {:induction false} CoreStays(sys: System, modules: set<ListEntry>, core: set<ListEntry>,
                                     kept: seq<ListEntry>, rest: seq<ListEntry>, name: string)
    requires Holds(sys, modules, core, name) && Within(kept + rest, modules) && Meets(kept + rest, core)
    ensures SomeHit(sys, Sweep(sys, kept, rest), name)
    decreases |rest|
  {
    if rest == [] {
      assert kept + rest == kept;
      var e :| e in kept && e in core;
      assert Hit(sys, e, name);
    } else {
      assert kept + rest == (kept + [rest[0]]) + rest[1..];
      if Exempt(sys, rest[0]) || Count(sys, kept + rest, StemOf(sys, rest[0])) <= 1 {
        CoreStays(sys, modules, core, kept + [rest[0]], rest[1..], name);
      } else {
        DropLeavesCore(sys, modules, core, kept, rest, name);
        CoreStays(sys, modules, core, kept, rest[1..], name);
      }
    }
  }

  predicate IsOrder(modules: set<ListEntry>, order: seq<ListEntry>) {
    Distinct(order) && Within(order, modules) && forall e | e in modules :: e in order
  }

  lemma {:induction false} SomeOrder(modules: set<ListEntry>) returns (order: seq<ListEntry>)
    ensures IsOrder(modules, order)
  {
    order := [];
    if modules != {} {
      var e :| e in modules;
      var rest := SomeOrder(modules - {e});
      order := [e] + rest;
    }
  }

  lemma InFront(placed: set<ListEntry>, r: ListEntry, order: seq<ListEntry>)
    requires IsOrder(placed, order) && r !in placed
    ensures IsOrder(placed + {r}, [r] + order)
  {
  }

  lemma FirstIsDropped(sys: System, r: ListEntry, placed: seq<ListEntry>, m: ListEntry)
    requires Idempotent(sys) && !Exempt(sys, r) && m in placed && Hit(sys, m, StemOf(sys, r))
    ensures Sweep(sys, [], [r] + placed) == Sweep(sys, [], placed)
  {
    PathHasStem(sys, r);
    CountedOnce(sys, placed, m, StemOf(sys, r));
    var all := [r] + placed;
    assert [] + all == all && all[1..] == placed;
  }

  /** Without such modules the hits can be put in front, each before another hit of
      its stem, so that the sweep drops them all. */
  lemma {:induction false} LosingOrder(sys: System, modules: set<ListEntry>, name: string,
                                       left: set<ListEntry>, placed: seq<ListEntry>)
      returns (order: seq<ListEntry>)
    requires Idempotent(sys) && (forall core | core <= modules :: !Holds(sys, modules, core, name))
    requires left <= modules && forall r | r in left :: Hit(sys, r, name)
    requires IsOrder(modules - left, placed) && !SomeHit(sys, Sweep(sys, [], placed), name)
    ensures IsOrder(modules, order) && !SomeHit(sys, Sweep(sys, [], order), name)
    decreases |left|
  {
    if left == {} {
      order := placed;
    } else {
      assert !Holds(sys, modules, left, name);
      var r, m :| r in left && !Exempt(sys, r) && m in modules && Hit(sys, m, StemOf(sys, r)) && m !in left;
      FirstIsDropped(sys, r, placed, m);
      InFront(modules - left, r, placed);
      assert modules - left + {r} == modules - (left - {r});
      order := LosingOrder(sys, modules, name, left - {r}, [r] + placed);
    }
  }

  /** A stem stays listed whatever the order of the list exactly when some of the
      modules it is found in hold together in this way. */
  lemma StemStaysIff(sys: System, modules: set<ListEntry>, name: string)
    requires Idempotent(sys)
    ensures (forall order | IsOrder(modules, order) :: SomeHit(sys, Sweep(sys, [], order), name))
      <==> (exists core | core <= modules :: Holds(sys, modules, core, name))
  {
    if core :| core <= modules && Holds(sys, modules, core, name) {
      forall order | IsOrder(modules, order)
        ensures SomeHit(sys, Sweep(sys, [], order), name)
      {
        var e :| e in core;
        assert [] + order == order && e in order;
        CoreStays(sys, modules, core, [], order, name);
      }
    } else {
      var hits := set e | e in modules && Hit(sys, e, name);
      var placed := SomeOrder(modules - hits);
      var tail := SweepOnlyDrops(sys, [], placed);
      assert [] + tail == tail;
      SubsequenceIsWithin(tail, placed);
      var order := LosingOrder(sys, modules, name, hits, placed);
    }
  }

  lemma {:induction false} SubsequenceIsWithin(a: seq<ListEntry>, b: seq<ListEntry>)
    requires Subsequence(a, b)
    ensures forall e | e in a :: e in b
    decreases |b|
  {
    if a != [] {
      var taken := a[0] == b[0] && Subsequence(a[1..], b[1..]);
      SubsequenceIsWithin(if taken then a[1..] else a, b[1..]);
      assert b == [b[0]] + b[1..] && a == [a[0]] + a[1..];
    }
  }

  /** The stems of modules that can be dropped are found in the stems of other such
      modules, never only in their directories. */
  predicate StemsHitStems(sys: System, entries: seq<ListEntry>) {
    forall e, m | e in entries && m in entries && !Exempt(sys, e) && !Exempt(sys, m) && Hit(sys, m, StemOf(sys, e)) ::
      Contains(Lower(sys, StemOf(sys, m)), Lower(sys, StemOf(sys, e)))
  }

  /** When stems are only ever found in file names, every stem that was listed
      before the sweep is still listed after it: no module loses its last copy. */
  lemma SweepLeavesACopy(sys: System, entries: seq<ListEntry>, e: ListEntry)
    requires Idempotent(sys) && StemsHitStems(sys, entries) && e in entries
    ensures SomeHit(sys, Sweep(sys, [], entries), StemOf(sys, e))
  {
    var name, modules := StemOf(sys, e), set m | m in entries;
    var core := if Exempt(sys, e) then {e} else set m | m in modules && Hit(sys, m, name);
    PathHasStem(sys, e);
    assert Hit(sys, e, name) && e in core && [] + entries == entries;
    forall r, m | r in core && !Exempt(sys, r) && m in modules && Hit(sys, m, StemOf(sys, r))
      ensures m in core
    {
      ContainsTransitive(PathOf(sys, m), Lower(sys, StemOf(sys, r)), Lower(sys, name));
    }
    CoreStays(sys, modules, core, [], entries, name);
  }

  lemma SmallStems()
    ensures Stem("f") == "f" && Stem("b") == "b" && Stem("f\\b") == "b"
    ensures !Contains("b", "f") && Contains("f\\b", "f") && Contains("f\\b", "b")
    ensures Contains("f", "f") && Contains("b", "b") && !Contains("f", "b")
  {
    var p := "f\\b";
    assert p[1..] == "\\b" && p[1..][1..] == "b" && p[1..][1..][1..] == "";
    assert IsSeparator("\\b"[0]);
    assert FileName("b") == "b" && FileName("\\b") == "b" && FileName(p) == "b" && FileName("f") == "f";
    assert LastDot("b") == -1 && LastDot("f") == -1;
    assert !Contains("", "f") && !Contains("", "b");
    assert Contains(p[1..], "b") && Contains("b", "b");
    assert "f" <= p;
  }

  /** Without that condition a module can go although no other path with its
      stem stays: `f` goes because of the directory of `f\b`, which then goes
      because of `b`. */
  lemma LastCopyCanVanish(sys: System, f: ListEntry, fb: ListEntry, b: ListEntry)
    requires (forall c: char :: sys.lower(c) == c) && sys.directory == "s" && sys.executable == 0
    requires f.dllBase != 0 && fb.dllBase != 0 && b.dllBase != 0
    requires f.fullDllName == "f" && fb.fullDllName == "f\\b" && b.fullDllName == "b"
    ensures Sweep(sys, [], [f, fb, b]) == [b] && !SomeHit(sys, [b], StemOf(sys, f))
  {
    SmallStems();
    assert PathOf(sys, f) == "f" && PathOf(sys, fb) == "f\\b" && PathOf(sys, b) == "b";
    assert Lower(sys, "f") == "f" && Lower(sys, "b") == "b";
    var all := [f, fb, b];
    assert [] + all == all && all[1..] == [fb, b] && [] + [fb, b] == [fb, b] && [fb, b][1..] == [b];
    assert [] + [b] == [b] && [b][1..] == [];
    assert Count(sys, [b], "f") == 0 && Count(sys, [fb, b], "f") == 1 && Count(sys, all, "f") == 2;
    assert Count(sys, [b], "b") == 1 && Count(sys, [fb, b], "b") == 2;
    assert Sweep(sys, [], [b]) == Sweep(sys, [b], []) == [b];
    assert Sweep(sys, [], [fb, b]) == Sweep(sys, [], [b]);
  }

  // ----- in terms of file names -----

  /** The text occurs in s at some place. */
  ghost predicate OccursIn(part: string, s: string) {
    exists a, b :: s == a + part + b
  }

  lemma {:induction false} ContainedPart(s: string, part: string) returns (a: string, b: string)
    requires Contains(s, part)
    ensures s == a + part + b
  {
    if part <= s {
      a, b := "", s[|part|..];
    } else {
      a, b := ContainedPart(s[1..], part);
      a := [s[0]] + a;
    }
  }

  lemma ContainsIff(s: string, part: string)
    ensures Contains(s, part) <==> OccursIn(part, s)
  {
    if Contains(s, part) {
      var a, b := ContainedPart(s, part);
    }
    if a, b :| s == a + part + b {
      ContainsMiddle(a, part, b);
    }
  }

  predicate Punctuation(c: char) { c == '\\' || c == '/' || c == '.' }

  predicate Plain(part: string) {
    part != [] && forall c | c in part :: !Punctuation(c)
  }

  /** Lower-casing leaves separators and dots alone and makes no new ones. */
  ghost predicate LowersLetters(sys: System) {
    Idempotent(sys) && forall c: char :: if Punctuation(c) then sys.lower(c) == c else !Punctuation(sys.lower(c))
  }

  lemma {:induction false} FileNameOf(directory: string, name: string)
    requires name != [] && forall c | c in name :: !IsSeparator(c)
    ensures FileName(directory + ['\\'] + name) == name
  {
    var path := directory + ['\\'] + name;
    assert !HasSeparator(name);
    if directory == [] {
      assert path[1..] == name && IsSeparator(path[0]);
    } else {
      assert path[1..] == directory[1..] + ['\\'] + name;
      FileNameOf(directory[1..], name);
      assert path[1..][|directory| - 1] == '\\';
      assert HasSeparator(path[1..]);
    }
  }

  lemma {:induction false} LastDotOf(name: string, extension: string)
    requires '.' !in extension
    ensures LastDot(name + ['.'] + extension) == |name|
    decreases |extension|
  {
    var s := name + ['.'] + extension;
    if extension != [] {
      var rest := extension[..|extension| - 1];
      assert extension == rest + [extension[|extension| - 1]];
      assert s[..|s| - 1] == name + ['.'] + rest;
      LastDotOf(name, rest);
    }
  }

  /** Without an extension the stem is the whole file name, also when the name begins
      with its only dot. */
  lemma StemWithoutExtension(directory: string, name: string)
    requires Plain(name)
    ensures Stem(directory + ['\\'] + name) == name
    ensures Stem(directory + ['\\'] + (['.'] + name)) == ['.'] + name
  {
    FileNameOf(directory, name);
    FileNameOf(directory, ['.'] + name);
    NoDot(name);
    LastDotOf([], name);
    assert [] + ['.'] + name == ['.'] + name;
  }

  lemma {:induction false} NoDot(s: string)
    requires '.' !in s
    ensures LastDot(s) == -1
    decreases |s|
  {
    if s != [] {
      NoDot(s[..|s| - 1]);
    }
  }

  lemma LowerIsPlain(sys: System, part: string)
    requires LowersLetters(sys) && Plain(part)
    ensures Plain(Lower(sys, part))
  {
    forall c | c in Lower(sys, part)
      ensures !Punctuation(c)
    {
      var i :| 0 <= i < |part| && Lower(sys, part)[i] == c;
      assert part[i] in part;
    }
  }

  /** The stem of a path: its file name without the extension, lower-cased. */
  lemma StemOfPath(sys: System, e: ListEntry, directory: string, name: string, extension: string)
    requires LowersLetters(sys) && Plain(name) && Plain(extension)
    requires e.fullDllName == directory + ['\\'] + name + ['.'] + extension
    ensures StemOf(sys, e) == Lower(sys, name)
  {
    var d, n, x := Lower(sys, directory), Lower(sys, name), Lower(sys, extension);
    var file := n + ['.'] + x;
    LowerIsPlain(sys, name);
    LowerIsPlain(sys, extension);
    assert sys.lower('.') == '.' && sys.lower('\\') == '\\';
    assert PathOf(sys, e) == d + ['\\'] + file;
    assert forall c | c in file :: c in n || c == '.' || c in x;
    FileNameOf(d, file);
    LastDotOf(n, x);
    assert file != ".." && file[..|n|] == n;
  }

  lemma {:induction false} BothCounted(sys: System, entries: seq<ListEntry>, e: ListEntry, f: ListEntry, name: string)
    requires e in entries && f in entries && e != f && Hit(sys, e, name) && Hit(sys, f, name)
    ensures 2 <= Count(sys, entries, name)
  {
    if entries[0] == e {
      CountedOnce(sys, entries[1..], f, name);
    } else if entries[0] == f {
      CountedOnce(sys, entries[1..], e, name);
    } else {
      BothCounted(sys, entries[1..], e, f, name);
    }
  }

  /** Two modules of the same name in different directories, whatever their letter
      case: after the sweep at most one of them is listed, unless they are
      protected. */
  lemma TwinsDoNotBothStay(sys: System, entries: seq<ListEntry>, e: ListEntry, f: ListEntry,
                           d1: string, n1: string, x1: string, d2: string, n2: string, x2: string)
    requires LowersLetters(sys) && e != f && !Protected(sys, e)
    requires Plain(n1) && Plain(x1) && e.fullDllName == d1 + ['\\'] + n1 + ['.'] + x1
    requires Plain(n2) && Plain(x2) && f.fullDllName == d2 + ['\\'] + n2 + ['.'] + x2
    requires |n1| == |n2| && forall i | 0 <= i < |n1| :: sys.lower(n1[i]) == sys.lower(n2[i])
    ensures var left := Sweep(sys, [], entries); e in left ==> f !in left
  {
    var left := Sweep(sys, [], entries);
    SweepResult(sys, entries);
    StemOfPath(sys, e, d1, n1, x1);
    StemOfPath(sys, f, d2, n2, x2);
    assert Lower(sys, n1) == Lower(sys, n2);
    PathHasStem(sys, e);
    PathHasStem(sys, f);
    if e in left && f in left {
      BothCounted(sys, left, e, f, StemOf(sys, e));
    }
  }

  lemma {:induction false} OnlyOneCounted(sys: System, entries: seq<ListEntry>, e: ListEntry, name: string)
    requires Distinct(entries) && forall m | m in entries && m != e :: !Hit(sys, m, name)
    ensures Count(sys, entries, name) <= 1 && (e !in entries ==> Count(sys, entries, name) == 0)
  {
    if entries != [] {
      assert entries == [entries[0]] + entries[1..] && entries[0] in entries;
      assert Distinct(entries[1..]) && forall m | m in entries[1..] :: m in entries;
      if entries[0] == e {
        assert e !in entries[1..];
      } else {
        assert !Hit(sys, entries[0], name);
      }
      OnlyOneCounted(sys, entries[1..], e, name);
    }
  }

  lemma {:induction false} LoneEntryStays(sys: System, kept: seq<ListEntry>, rest: seq<ListEntry>, e: ListEntry)
    requires Distinct(kept + rest) && e in kept + rest
    requires forall m | m in kept + rest && m != e :: !Hit(sys, m, StemOf(sys, e))
    ensures e in Sweep(sys, kept, rest)
    decreases |rest|
  {
    if rest == [] {
      assert kept + rest == kept;
    } else {
      var all, r := kept + rest, rest[0];
      assert all == (kept + [r]) + rest[1..] && all[|kept|] == r;
      OnlyOneCounted(sys, all, e, StemOf(sys, e));
      if Exempt(sys, r) || Count(sys, all, StemOf(sys, r)) <= 1 {
        LoneEntryStays(sys, kept + [r], rest[1..], e);
      } else {
        var left := kept + rest[1..];
        assert forall i | 0 <= i < |left| :: left[i] == all[if i < |kept| then i else i + 1];
        assert forall m | m in left :: m in all;
        LoneEntryStays(sys, kept, rest[1..], e);
      }
    }
  }

  /** A module whose stem occurs in no other listed path is never dropped. */
  lemma LoneModuleStays(sys: System, entries: seq<ListEntry>, e: ListEntry)
    requires Idempotent(sys) && Distinct(entries) && e in entries
    requires forall m | m in entries && m != e :: !OccursIn(StemOf(sys, e), PathOf(sys, m))
    ensures e in Sweep(sys, [], entries)
  {
    forall m | m in entries && m != e
      ensures !Hit(sys, m, StemOf(sys, e))
    {
      StemIsLowered(sys, e);
      ContainsIff(PathOf(sys, m), StemOf(sys, e));
    }
    assert [] + entries == entries;
    LoneEntryStays(sys, [], entries, e);
  }

  /** Unlinking one module leaves exactly the other entries, in order. */
  lemma {:induction false} WithoutLeavesOthers(entries: seq<ListEntry>, base: nat)
    ensures Subsequence(Without(entries, base), entries)
    ensures forall e :: e in Without(entries, base) <==> e in entries && e.dllBase != base
  {
    if entries != [] {
      WithoutLeavesOthers(entries[1..], base);
      var rest := Without(entries[1..], base);
      assert entries == [entries[0]] + entries[1..];
      if entries[0].dllBase != base {
        assert ([entries[0]] + rest)[1..] == rest;
      } else {
        assert [] + rest == rest;
      }
    }
  }
}
