/** The key-value configuration: its text form and its typed accessors.  A file
    is the sequence of its characters. */
module Config {
  import opened Prelude

  type Values = map<string, string>

  function Set(m: Values, key: string, value: string): Values {
    if key != "" && value != "" then m[key := value] else m
  }

  /** The index of the first c in s, or the length. */
  function IndexOf(s: string, c: char): (i: nat)
    ensures i <= |s| && c !in s[..i] && (i < |s| ==> s[i] == c)
  {
    if s == "" || s[0] == c then 0 else 1 + IndexOf(s[1..], c)
  }

  /** What `getline` leaves behind: the text after the first c. */
  function After(s: string, c: char): (r: string)
    ensures s != "" ==> |r| < |s|
  {
    var i := IndexOf(s, c);
    if i < |s| then s[i + 1..] else ""
  }

  function Before(s: string, c: char): string {
    s[..IndexOf(s, c)]
  }

  function SetLine(m: Values, line: string): Values {
    Set(m, Before(line, '='), After(line, '='))
  }

  /** Loading the lines of `text` on top of m. */
  function Loaded(m: Values, text: string): Values
    decreases |text|
  {
    if text == "" then m else Loaded(SetLine(m, Before(text, '\n')), After(text, '\n'))
  }

  function Line(key: string, value: string): string {
    key + "=" + value + "\n"
  }

  /** The saved text when the keys are written in the given order. */
  function Saved(m: Values, order: seq<string>): string
    requires forall k | k in order :: k in m
  {
    if order == [] then "" else
    assert order[0] in order;
    Line(order[0], m[order[0]]) + Saved(m, order[1..])
  }

  ghost predicate IsOrder(m: Values, order: seq<string>) {
    && (forall k :: k in order <==> k in m)
    && forall i, j | 0 <= i < j < |order| :: order[i] != order[j]
  }

  class Config {
    var keyValues: Values

    constructor ()
      ensures keyValues == map[]
    {
      keyValues := map[];
    }

    method SetValue(key: string, value: string)
      modifies this
      ensures keyValues == Set(old(keyValues), key, value)
    {
      if key != "" && value != "" {
        keyValues := keyValues[key := value];
      }
    }

    function GetValue(key: string): (r: Option<string>)
      reads this
      ensures if key in keyValues then r == Some(keyValues[key]) else r.None?
    {
      if key in keyValues then Some(keyValues[key]) else None
    }

    /** A file that cannot be opened is None. */
    method Load(file: Option<string>) returns (ok: bool)
      modifies this
      ensures ok <==> file.Some?
      ensures keyValues == if file.Some? then Loaded(old(keyValues), file.value) else old(keyValues)
    {
      if file.None? {
        return false;
      }
      var f := file.value;
      while f != ""
        invariant Loaded(keyValues, f) == Loaded(old(keyValues), file.value)
        decreases |f|
      {
        var line := Before(f, '\n');
        f := After(f, '\n');
        var key, value := Before(line, '='), After(line, '=');
        SetValue(key, value);
      }
      return true;
    }

    method Save(canOpen: bool) returns (ok: bool, text: string, ghost order: seq<string>)
      ensures ok <==> canOpen
      ensures if ok then IsOrder(keyValues, order) && text == Saved(keyValues, order) else text == "" && order == []
    {
      ok, text, order := canOpen, "", [];
      if !canOpen {
        return;
      }
      var left := keyValues.Keys;
      while left != {}
        invariant left <= keyValues.Keys
        invariant forall k :: k in order <==> k in keyValues && k !in left
        invariant forall i, j | 0 <= i < j < |order| :: order[i] != order[j]
        invariant text == Saved(keyValues, order)
        decreases left
      {
        var key :| key in left;
        SavedAppend(keyValues, order, key);
        text := text + key + "=" + keyValues[key] + "\n";
        assert text == Saved(keyValues, order) + Line(key, keyValues[key]);
        left, order := left - {key}, order + [key];
      }
    }
  }

  lemma {:induction false} SavedAppend(m: Values, order: seq<string>, key: string)
    requires (forall k | k in order :: k in m) && key in m
    ensures Saved(m, order + [key]) == Saved(m, order) + Line(key, m[key])
  {
    if order == [] {
      assert order + [key] == [key];
      assert Saved(m, [key][1..]) == "";
    } else {
      assert order[0] in order;
      assert (order + [key])[1..] == order[1..] + [key];
      SavedAppend(m, order[1..], key);
    }
  }

  // ----- round trip -----

  predicate StorableKey(k: string) { k != "" && '=' !in k && '\n' !in k }

  predicate StorableValue(v: string) { v != "" && '\n' !in v }

  predicate Storable(m: Values) {
    forall k | k in m :: StorableKey(k) && StorableValue(m[k])
  }

  lemma {:induction false} IndexOfSplit(a: string, c: char, b: string)
    requires c !in a
    ensures IndexOf(a + [c] + b, c) == |a|
    ensures Before(a + [c] + b, c) == a && After(a + [c] + b, c) == b
  {
    var s := a + [c] + b;
    if a != "" {
      assert s[1..] == a[1..] + [c] + b;
      IndexOfSplit(a[1..], c, b);
    }
    assert s[..|a|] == a && s[|a| + 1..] == b;
  }

  lemma LoadsLine(m: Values, k: string, v: string, rest: string)
    requires StorableKey(k) && StorableValue(v)
    ensures Loaded(m, Line(k, v) + rest) == Loaded(m[k := v], rest)
  {
    var line := k + ['='] + v;
    IndexOfSplit(line, '\n', rest);
    IndexOfSplit(k, '=', v);
    assert Line(k, v) + rest == line + ['\n'] + rest;
  }

  function Chosen(m: Values, order: seq<string>): Values
    requires forall k | k in order :: k in m
  {
    map k | k in order :: m[k]
  }

  lemma ChosenFirst(acc: Values, m: Values, order: seq<string>)
    requires order != [] && forall k | k in order :: k in m
    ensures order[0] in m && (forall k | k in order[1..] :: k in m)
    ensures acc[order[0] := m[order[0]]] + Chosen(m, order[1..]) == acc + Chosen(m, order)
  {
    assert order == [order[0]] + order[1..];
    assert forall x :: x in order <==> x == order[0] || x in order[1..];
  }

  lemma {:induction false} LoadsSaved(acc: Values, m: Values, order: seq<string>)
    requires Storable(m) && forall k | k in order :: k in m
    ensures Loaded(acc, Saved(m, order)) == acc + Chosen(m, order)
    decreases |order|
  {
    if order != [] {
      var k := order[0];
      assert k in order;
      LoadsLine(acc, k, m[k], Saved(m, order[1..]));
      LoadsSaved(acc[k := m[k]], m, order[1..]);
      ChosenFirst(acc, m, order);
    } else {
      assert acc + Chosen(m, order) == acc;
    }
  }

  /** Whatever a text contains, what is loaded from it can be stored. */
  lemma {:induction false} LoadedIsStorable(m: Values, text: string)
    requires Storable(m)
    ensures Storable(Loaded(m, text))
    decreases |text|
  {
    if text != "" {
      var line := Before(text, '\n');
      var k, v := Before(line, '='), After(line, '=');
      assert forall x | x in k :: x in line;
      assert forall x | x in v :: x in line;
      LoadedIsStorable(SetLine(m, line), After(text, '\n'));
    }
  }

  /** Loading the saved text into a fresh configuration gives the same map, for
      any order of the keys, exactly when no key or value is empty or holds a
      newline and no key holds an equals sign. */
  lemma SavedTextLoadsBackIff(m: Values, order: seq<string>)
    requires IsOrder(m, order)
    ensures Loaded(map[], Saved(m, order)) == m <==> Storable(m)
  {
    if Storable(m) {
      LoadsSaved(map[], m, order);
      assert map[] + Chosen(m, order) == m;
    }
    LoadedIsStorable(map[], Saved(m, order));
  }

  // ----- typed values -----

  /** An integer type of the language. */
  datatype IntType = IntType(signed: bool, bits: nat)

  function Pow2(n: nat): nat { if n == 0 then 1 else 2 * Pow2(n - 1) }

  predicate InType(n: int, t: IntType) {
    if t.signed then 0 < t.bits && 0 - Pow2(t.bits - 1) <= n < Pow2(t.bits - 1) else 0 <= n < Pow2(t.bits)
  }

  /** `long` and `unsigned long` have 32 bits. */
  const LONG := IntType(true, 32)
  const ULONG := IntType(false, 32)

  lemma ThirtyTwoBits()
    ensures Pow2(31) == 0x8000_0000 && Pow2(32) == 0x1_0000_0000
  {
    assert Pow2(8) == 0x100;
    assert Pow2(16) == 0x1_0000;
    assert Pow2(24) == 0x100_0000;
  }

  datatype Typed = Missing | InvalidArgument | OutOfRange | Got(n: int)

  predicate IsDigit(c: char) { '0' <= c <= '9' }

  predicate IsBlank(c: char) { c == ' ' || '\t' <= c <= '\r' }

  function Digits(n: nat): (s: string)
    ensures s != "" && forall c | c in s :: IsDigit(c)
  {
    if n < 10 then [Digit(n)] else Digits(n / 10) + [Digit(n % 10)]
  }

  function Digit(d: nat): (c: char)
    requires d < 10
    ensures IsDigit(c) && c as int - '0' as int == d
  {
    '0' + d as char
  }

  /** `std::to_string` */
  function ToString(n: int): string {
    if n < 0 then "-" + Digits(-n) else Digits(n)
  }

  function SkipBlanks(s: string): string {
    if s != "" && IsBlank(s[0]) then SkipBlanks(s[1..]) else s
  }

  /** The number written by the leading digits, after `acc`. */
  function Leading(acc: nat, s: string): nat
    decreases |s|
  {
    if s == "" || !IsDigit(s[0]) then acc else Leading(10 * acc + (s[0] as int - '0' as int), s[1..])
  }

  /** `std::stol` and `std::stoul`: blanks, a sign, digits, anything. */
  function Parsed(s: string, signed: bool): Typed {
    var t := SkipBlanks(s);
    var negative := t != "" && t[0] == '-';
    var u := if t != "" && (t[0] == '-' || t[0] == '+') then t[1..] else t;
    if u == "" || !IsDigit(u[0]) then InvalidArgument
    else
      var magnitude := Leading(0, u);
      if signed then
        var n: int := if negative then 0 - magnitude else magnitude;
        if InType(n, LONG) then Got(n) else OutOfRange
      else if !InType(magnitude, ULONG) then OutOfRange
      else Got(if negative then (Pow2(32) - magnitude) % Pow2(32) else magnitude)
  }

  /** Conversion of a parsed number to the type asked for. */
  function Cast(n: int, t: IntType): int
    requires 0 < t.bits
  {
    if InType(n, t) then n
    else
      assert Pow2(t.bits) > 0 by { Pow2Positive(t.bits); }
      var r := n % Pow2(t.bits);
      if t.signed && r >= Pow2(t.bits - 1) then r - Pow2(t.bits) else r
  }

  lemma {:induction false} Pow2Positive(n: nat)
    ensures Pow2(n) > 0
  {
    if n > 0 {
      Pow2Positive(n - 1);
    }
  }

  function GetInt(m: Values, key: string, t: IntType): Typed
    requires 0 < t.bits
  {
    if key !in m then Missing
    else
      match Parsed(m[key], t.signed)
      case Got(n) => Got(Cast(n, t))
      case other => other
  }

  function GetBool(m: Values, key: string): Option<bool> {
    if key !in m then None
    else if m[key] == "true" then Some(true)
    else if m[key] == "false" then Some(false)
    else None
  }

  lemma {:induction false} LeadingConcat(acc: nat, a: string, b: string)
    requires forall c | c in a :: IsDigit(c)
    ensures Leading(acc, a + b) == Leading(Leading(acc, a), b)
    decreases |a|
  {
    if a == "" {
      assert a + b == b;
    } else {
      assert a[0] in a && (a + b)[1..] == a[1..] + b;
      LeadingConcat(10 * acc + (a[0] as int - '0' as int), a[1..], b);
    }
  }

  lemma {:induction false} DigitsReadBack(n: nat)
    ensures Leading(0, Digits(n)) == n
  {
    if n >= 10 {
      DigitsReadBack(n / 10);
      LeadingConcat(0, Digits(n / 10), [Digit(n % 10)]);
      assert Leading(n / 10, [Digit(n % 10)]) == Leading(10 * (n / 10) + n % 10, [Digit(n % 10)][1..]);
    }
  }

  /** A typed integer that was set is read back exactly when it fits the 32 bits
      of the conversion function, however wide its own type is; beyond them the
      read throws. */
  lemma IntegerIsReadBackIff(m: Values, key: string, n: int, t: IntType)
    requires key != "" && 0 < t.bits && InType(n, t)
    ensures var r := GetInt(Set(m, key, ToString(n)), key, t);
      && (r == Got(n) <==> if t.signed then -0x8000_0000 <= n < 0x8000_0000 else n < 0x1_0000_0000)
      && (r == Got(n) || r == OutOfRange)
  {
    var s := ToString(n);
    var d := Digits(if n < 0 then -n else n);
    ThirtyTwoBits();
    DigitsReadBack(if n < 0 then -n else n);
    assert d[0] in d && IsDigit(d[0]);
    assert SkipBlanks(s) == s;
    if n < 0 {
      assert s[1..] == d;
    }
  }

  /** Numbers are written in decimal, with a minus sign in front. */
  lemma WrittenInDecimal(n: int, a: nat, b: nat)
    requires b < 10 && 0 < n
    ensures ToString(b) == ["0123456789"[b]]
    ensures 0 < a ==> ToString(10 * a + b) == ToString(a) + ["0123456789"[b]]
    ensures ToString(-n) == "-" + ToString(n)
  {
    assert Digit(b) == "0123456789"[b];
    if 0 < a {
      assert (10 * a + b) / 10 == a && (10 * a + b) % 10 == b;
    }
  }

  lemma SignedIsParsed(plus: bool, n: nat, rest: string, signed: bool)
    requires (rest != "" ==> !IsDigit(rest[0])) && InType(n, if signed then LONG else ULONG)
    ensures var s := (if plus then "+" else "") + Digits(n) + rest;
      s != "" && !IsBlank(s[0]) && Parsed(s, signed) == Got(n)
  {
    var number := Digits(n) + rest;
    var s := (if plus then "+" else "") + Digits(n) + rest;
    assert Digits(n)[0] in Digits(n) && number[0] == Digits(n)[0];
    assert s == (if plus then "+" else "") + number;
    assert plus ==> s[1..] == number;
    assert !plus ==> s == number;
    DigitsReadBack(n);
    LeadingConcat(0, Digits(n), rest);
    assert Leading(0, number) == n;
  }

  /** A hand-written number is read with blanks and a plus sign in front of it and
      anything but a digit after it. */
  lemma HandWrittenIsRead(m: Values, key: string, blanks: string, plus: bool, n: nat, rest: string, t: IntType)
    requires key in m && 0 < t.bits && InType(n, t) && n < (if t.signed then 0x8000_0000 else 0x1_0000_0000)
    requires (forall c | c in blanks :: c == ' ' || c == '\t') && (rest != "" ==> !('0' <= rest[0] <= '9'))
    requires m[key] == blanks + ((if plus then "+" else "") + ToString(n) + rest)
    ensures GetInt(m, key, t) == Got(n)
  {
    ThirtyTwoBits();
    SignedIsParsed(plus, n, rest, t.signed);
    var s := (if plus then "+" else "") + Digits(n) + rest;
    BlanksAreSkipped(blanks, s);
    assert SkipBlanks(s) == s;
    assert Parsed(m[key], t.signed) == Parsed(s, t.signed);
  }

  /** A negative number read as an unsigned one wraps around. */
  lemma NegativeAsUnsigned(m: Values, key: string, n: nat)
    requires key in m && m[key] == "-" + ToString(n) && 0 < n < 0x1_0000_0000
    ensures GetInt(m, key, ULONG) == Got(0x1_0000_0000 - n)
  {
    ThirtyTwoBits();
    assert ToString(n)[0] in ToString(n) && SkipBlanks(m[key]) == m[key] && m[key][1..] == ToString(n);
    DigitsReadBack(n);
  }

  lemma {:induction false} BlanksAreSkipped(blanks: string, s: string)
    requires (forall c | c in blanks :: IsBlank(c)) && s != "" && !IsBlank(s[0])
    ensures SkipBlanks(blanks + s) == s
  {
    if blanks == "" {
      assert blanks + s == s;
    } else {
      assert blanks[0] in blanks && (blanks + s)[1..] == blanks[1..] + s;
      BlanksAreSkipped(blanks[1..], s);
    }
  }

  /** Reading a type that is too narrow keeps the number modulo its width. */
  lemma CastWraps(n: int, t: IntType)
    requires 0 < t.bits
    ensures InType(Cast(n, t), t)
    ensures exists k: int :: n == Cast(n, t) + k * Pow2(t.bits)
  {
    Pow2Positive(t.bits - 1);
    var p, r := Pow2(t.bits), Cast(n, t);
    if InType(n, t) {
      assert n == r + 0 * p;
    } else {
      var q := n / p;
      assert n == n % p + q * p;
      assert n == r + (if r < 0 then q + 1 else q) * p || n == r + q * p;
    }
  }

  lemma BoolIsReadBack(m: Values, key: string, b: bool)
    requires key != ""
    ensures GetBool(Set(m, key, if b then "true" else "false"), key) == Some(b)
    ensures GetBool(m, key).Some? <==> key in m && (m[key] == "true" || m[key] == "false")
  {
    assert "false"[0] != "true"[0];
  }
}
