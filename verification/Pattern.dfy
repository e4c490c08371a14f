/** Byte patterns with wildcards: their text form, and scanning memory of which
    only some addresses are readable. */
module Pattern {
  import opened Prelude

  const ADDRESS_MODULUS: nat := 0x1_0000_0000_0000_0000

  type Address = a: nat | a < ADDRESS_MODULUS

  /** A byte, or -1 for a wildcard. */
  type Element = e: int | -1 <= e < 256

  // ----- text -----

  predicate IsSpace(c: char) {
    c == ' ' || ('\t' <= c <= '\r')
  }

  function Strip(s: string): string {
    if s == [] then [] else (if IsSpace(s[0]) then [] else [s[0]]) + Strip(s[1..])
  }

  function ToByte(digit: char): (b: Byte)
    ensures b < 16
  {
    if '0' <= digit <= '9' then digit as int - '0' as int
    else if 'a' <= digit <= 'f' then digit as int - 'a' as int + 10
    else if 'A' <= digit <= 'F' then digit as int - 'A' as int + 10
    else 0
  }

  /** What is left of a text without spaces from some point on; a last single
      digit is dropped. */
  function Parsed(s: string): seq<Element>
    decreases |s|
  {
    if s == [] then []
    else if s[0] == '?' then [-1] + Parsed(s[1..])
    else if |s| == 1 then []
    else [16 * ToByte(s[0]) + ToByte(s[1])] + Parsed(s[2..])
  }

  method BuildPattern(patternStr: string) returns (pattern: seq<Element>)
    ensures pattern == Parsed(Strip(patternStr))
  {
    var s := Strip(patternStr);
    pattern := [];
    var i := 0;
    while i < |s|
      invariant 0 <= i <= |s| && pattern + Parsed(s[i..]) == Parsed(s)
    {
      if s[i] != '?' {
        if i + 1 >= |s| {
          break;
        }
        var value: Element := 16 * ToByte(s[i]) + ToByte(s[i + 1]);
        ParsedStep(s, i, 2, value, pattern);
        pattern := pattern + [value];
        i := i + 2;
      } else {
        ParsedStep(s, i, 1, -1, pattern);
        pattern := pattern + [-1];
        i := i + 1;
      }
    }
  }

  lemma ParsedStep(s: string, i: nat, width: nat, e: Element, before: seq<Element>)
    requires i + width <= |s| && (if s[i..] != [] && s[i] == '?' then width == 1 && e == -1
      else width == 2 && e == 16 * ToByte(s[i]) + ToByte(s[i + 1]))
    ensures before + Parsed(s[i..]) == (before + [e]) + Parsed(s[i + width..])
  {
    assert s[i..][width..] == s[i + width..];
    assert Parsed(s[i..]) == [e] + Parsed(s[i + width..]);
  }

  /** c is the hexadecimal digit d in either case. */
  predicate Writes(c: char, d: nat) {
    if d < 10 then c == '0' + d as char
    else d < 16 && (c == 'a' + (d - 10) as char || c == 'A' + (d - 10) as char)
  }

  /** A digit is read as its value, anything else as 0. */
  lemma DigitIsRead(c: char, d: nat)
    ensures Writes(c, d) ==> ToByte(c) == d
    ensures (forall e :: !Writes(c, e)) ==> ToByte(c) == 0
  {
    if forall e :: !Writes(c, e) {
      if '0' <= c <= '9' {
        assert Writes(c, c as int - '0' as int);
      } else if 'a' <= c <= 'f' {
        assert Writes(c, c as int - 'a' as int + 10);
      } else if 'A' <= c <= 'F' {
        assert Writes(c, c as int - 'A' as int + 10);
      }
    }
  }

  /** `s` writes the pattern out: two hex digits of either case for a byte, a
      question mark for a wildcard. */
  predicate Spells(s: string, p: seq<Element>)
    decreases |p|
  {
    if p == [] then s == []
    else if p[0] == -1 then s != [] && s[0] == '?' && Spells(s[1..], p[1..])
    else 2 <= |s| && Writes(s[0], p[0] / 16) && Writes(s[1], p[0] % 16) && Spells(s[2..], p[1..])
  }

  /** A spelled pattern is read as it was meant. */
  lemma {:induction false} SpelledParses(s: string, p: seq<Element>)
    requires Spells(s, p)
    ensures Parsed(s) == p
    decreases |p|
  {
    if p != [] {
      if p[0] != -1 {
        DigitIsRead(s[0], p[0] / 16);
        DigitIsRead(s[1], p[0] % 16);
      }
      SpelledParses(if p[0] == -1 then s[1..] else s[2..], p[1..]);
      assert p == [p[0]] + p[1..];
    }
  }

  /** A single character left over at the end is dropped. */
  lemma {:induction false} LeftoverIsDropped(s: string, p: seq<Element>, c: char)
    requires Spells(s, p) && c != '?'
    ensures Parsed(s + [c]) == Parsed(s)
    decreases |p|
  {
    if p == [] {
      assert s + [c] == [c];
    } else if p[0] == -1 {
      assert (s + [c])[1..] == s[1..] + [c];
      LeftoverIsDropped(s[1..], p[1..], c);
    } else {
      assert s[0] != '?';
      assert (s + [c])[2..] == s[2..] + [c];
      LeftoverIsDropped(s[2..], p[1..], c);
    }
  }

  const SPACES: string := [' ', '\t', '\n', '\U{000B}', '\U{000C}', '\r']

  /** t is s with spaces put in anywhere. */
  predicate SpacedOut(t: string, s: string)
    decreases |t|
  {
    if t == [] then s == []
    else (t[0] in SPACES && SpacedOut(t[1..], s)) || (s != [] && t[0] == s[0] && SpacedOut(t[1..], s[1..]))
  }

  lemma {:induction false} StripsSpaces(t: string, s: string)
    requires SpacedOut(t, s) && forall c | c in s :: c !in SPACES
    ensures Strip(t) == s
    decreases |t|
  {
    if t != [] {
      if t[0] in SPACES {
        StripsSpaces(t[1..], s);
      } else {
        assert s == [s[0]] + s[1..];
        StripsSpaces(t[1..], s[1..]);
      }
    }
  }

  lemma {:induction false} SpelledHasNoSpaces(s: string, p: seq<Element>)
    requires Spells(s, p)
    ensures forall c | c in s :: c !in SPACES
    decreases |p|
  {
    if p != [] {
      SpelledHasNoSpaces(if p[0] == -1 then s[1..] else s[2..], p[1..]);
      assert s == if p[0] == -1 then [s[0]] + s[1..] else [s[0], s[1]] + s[2..];
      if p[0] != -1 {
        NoSpace(s[0], p[0] / 16);
        NoSpace(s[1], p[0] % 16);
      }
    }
  }

  lemma NoSpace(c: char, d: nat)
    requires Writes(c, d)
    ensures c !in SPACES
  {
    DigitIsRead(c, d);
  }

  function HexDigit(d: nat): (c: char)
    requires d < 16
    ensures Writes(c, d)
  {
    if d < 10 then '0' + d as char else 'A' + (d - 10) as char
  }

  function Print(p: seq<Element>): string {
    if p == [] then []
    else (if p[0] == -1 then "?" else [HexDigit(p[0] / 16), HexDigit(p[0] % 16)]) + Print(p[1..])
  }

  /** Every pattern has a text. */
  lemma {:induction false} PrintSpells(p: seq<Element>)
    ensures Spells(Print(p), p)
  {
    if p != [] {
      PrintSpells(p[1..]);
      assert Print(p)[if p[0] == -1 then 1 else 2..] == Print(p[1..]);
    }
  }

  /** A pattern written out in either case, with spaces put in anywhere, is read back
      as that pattern; and every pattern can be written out. */
  lemma PrintedPatternIsReadBack(p: seq<Element>, s: string, t: string)
    requires Spells(s, p) && SpacedOut(t, s)
    ensures Parsed(Strip(t)) == p && Spells(Print(p), p)
  {
    SpelledHasNoSpaces(s, p);
    StripsSpaces(t, s);
    SpelledParses(s, p);
    PrintSpells(p);
  }

  // ----- scanning -----

  /** The readable memory. */
  type Memory = map<nat, Byte>

  predicate Readable(mem: Memory, at: nat, len: nat) {
    forall a | at <= a < at + len :: a in mem
  }

  predicate MatchesAt(mem: Memory, p: seq<Element>, at: nat) {
    Readable(mem, at, |p|) && forall k | 0 <= k < |p| :: p[k] == -1 || p[k] == mem[at + k]
  }

  /** A match is hidden by an unreadable byte among the |p| - 1 bytes before it. */
  ghost predicate Hidden(mem: Memory, p: seq<Element>, start: nat, m: nat) {
    exists b :: start <= b < m < b + |p| && b !in mem
  }

  /** The last address tried, computed in machine arithmetic. */
  function End(p: seq<Element>, start: nat, length: nat): nat {
    (start + length - |p|) % ADDRESS_MODULUS
  }

  method Find(mem: Memory, p: seq<Element>, start: Address, length: Address) returns (r: Option<nat>)
    ensures r.Some? ==> start <= r.value <= End(p, start, length) && MatchesAt(mem, p, r.value)
    ensures r.Some? ==> forall k | 0 <= k < |p| :: r.value + k in mem && (p[k] == -1 || mem[r.value + k] == p[k])
    ensures forall m | start <= m <= (if r.Some? then r.value - 1 else End(p, start, length)) && MatchesAt(mem, p, m) ::
      Hidden(mem, p, start, m)
  {
    var end := End(p, start, length);
    var i := start;
    while i <= end
      invariant start <= i
      invariant |p| <= start + length < ADDRESS_MODULUS ==> i < ADDRESS_MODULUS  // no address wraps around
      invariant forall m | start <= m < i && MatchesAt(mem, p, m) :: Hidden(mem, p, start, m)
      decreases end - i
    {
      if !Readable(mem, i, |p|) {
        HiddenInBlock(mem, p, start, i);
        i := i + |p| - 1;
        i := i + 1;
        continue;
      }
      var failedToMatch := false;
      var k := 0;
      while k < |p|
        invariant 0 <= k <= |p|
        invariant !failedToMatch && forall j | 0 <= j < k :: p[j] == -1 || p[j] == mem[i + j]
      {
        assert i + k in mem;
        if p[k] != -1 && p[k] != mem[i + k] {
          failedToMatch := true;
          break;
        }
        k := k + 1;
      }
      if !failedToMatch {
        return Some(i);
      }
      i := i + 1;
    }
    return None;
  }

  lemma HiddenInBlock(mem: Memory, p: seq<Element>, start: nat, i: nat)
    requires start <= i && !Readable(mem, i, |p|)
    ensures forall m | i <= m < i + |p| && MatchesAt(mem, p, m) :: Hidden(mem, p, start, m)
  {
    var b :| i <= b < i + |p| && b !in mem;
    forall m | i <= m < i + |p| && MatchesAt(mem, p, m)
      ensures Hidden(mem, p, start, m)
    {
      assert !(m <= b < m + |p|);
    }
  }

  /** Where everything is readable, bytes that agree with the pattern outside its
      wildcards are a match, and no match is passed over: the least one is found. */
  lemma NothingHiddenWhenReadable(mem: Memory, p: seq<Element>, start: nat, m: nat)
    requires start <= m && forall a | start <= a < m + |p| :: a in mem
    ensures !Hidden(mem, p, start, m)
    ensures MatchesAt(mem, p, m) <==> forall k | 0 <= k < |p| && p[k] != -1 :: mem[m + k] == p[k]
  {
    assert Readable(mem, m, |p|);
    if MatchesAt(mem, p, m) {
      assert forall k | 0 <= k < |p| && p[k] != -1 :: mem[m + k] == p[k];
    }
  }

  /** The scan stays inside its range exactly when the range does not end below
      the pattern's length; otherwise the machine arithmetic wraps around. */
  lemma ScanStaysInRangeIff(p: seq<Element>, start: Address, length: Address)
    requires start + length < ADDRESS_MODULUS && |p| < ADDRESS_MODULUS
    ensures End(p, start, length) + |p| <= start + length <==> |p| <= start + length
  {
    if start + length < |p| {
      assert (start + length - |p|) % ADDRESS_MODULUS == start + length - |p| + ADDRESS_MODULUS;
    }
  }

  /** The highest match from `start` down over `length` addresses. A search that
      goes down to address 0 ends only at a match: no address is below it. */
  method ScanReverse(mem: Memory, p: seq<Element>, start: Address, length: Address) returns (r: Option<nat>)
    requires |p| < ADDRESS_MODULUS
    requires 0 < start == length ==> exists m :: 0 <= m <= start && MatchesAt(mem, p, m)
    ensures r.Some? ==> start - length <= r.value <= start && MatchesAt(mem, p, r.value)
    ensures 0 < length <= start ==>
      forall m | start - length <= m <= start && MatchesAt(mem, p, m) :: r.Some? && m <= r.value
    ensures length == 0 || start < length ==> r.None?
  {
    if start == 0 || length == 0 {
      return None;
    }
    var low := (start - length) % ADDRESS_MODULUS;
    var i := start;
    while i >= low
      invariant length <= start ==> low == start - length && low - 1 <= i <= start
      invariant start < length ==> i == start < low
      invariant length <= start ==> forall m | i < m <= start :: !MatchesAt(mem, p, m)
      decreases i - low
    {
      assert End(p, i, |p|) == i;
      var at := Find(mem, p, i, |p|);
      if at.Some? {
        return Some(i);
      }
      assert !Hidden(mem, p, i, i);
      i := i - 1;
    }
    return None;
  }

  /** The address of the n-th instruction from `ip`. */
  function Nth(len: nat -> nat, ip: nat, n: nat): nat
    decreases n
  {
    if n == 0 then ip else Nth(len, ip + len(ip), n - 1)
  }

  /** `scan` at one address: never at null, never for an empty pattern. */
  predicate ScansAt(mem: Memory, p: seq<Element>, ip: nat) {
    ip != 0 && p != [] && MatchesAt(mem, p, ip)
  }

  /** The first of `count` instructions that starts with the pattern; `len` is
      the disassembler. */
  method ScanDisasm(mem: Memory, p: seq<Element>, start: Address, count: nat, len: nat -> nat) returns (r: Option<nat>)
    requires |p| < ADDRESS_MODULUS && forall n | 0 <= n <= count :: Nth(len, start, n) < ADDRESS_MODULUS
    ensures r.Some? ==> ScansAt(mem, p, r.value) && exists n ::
      (0 <= n < count && r.value == Nth(len, start, n) && forall m | 0 <= m < n :: !ScansAt(mem, p, Nth(len, start, m)))
    ensures r.None? ==> forall n | 0 <= n < count :: !ScansAt(mem, p, Nth(len, start, n))
  {
    var ip: Address := start;
    for i := 0 to count
      invariant ip == Nth(len, start, i)
      invariant forall m | 0 <= m < i :: !ScansAt(mem, p, Nth(len, start, m))
    {
      if ip != 0 && |p| != 0 {
        assert End(p, ip, |p|) == ip;
        var at := Find(mem, p, ip, |p|);
        if at == Some(ip) {
          return Some(ip);
        }
        assert !Hidden(mem, p, ip, ip);
      }
      NthStep(len, start, i);
      assert Nth(len, start, i + 1) < ADDRESS_MODULUS;
      ip := ip + len(ip);
    }
    return None;
  }

  lemma {:induction false} NthStep(len: nat -> nat, ip: nat, n: nat)
    ensures Nth(len, ip, n + 1) == Nth(len, ip, n) + len(Nth(len, ip, n))
    decreases n
  {
    if n > 0 {
      NthStep(len, ip + len(ip), n - 1);
    }
  }
}
