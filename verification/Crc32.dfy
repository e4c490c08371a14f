/** The bitwise CRC-32: it equals the table-driven form of RFC 1952, section 8,
    and detects every error burst of at most 32 bits, but not every one of 33.

    A 32-bit word is the sequence of its bits, the least significant first; an
    octet is a sequence of 8 bits in the same order. */
module Crc32 {

  type Word = w: seq<bool> | |w| == 32 witness ALL_ONES
  type Octet = o: seq<bool> | |o| == 8 witness ALL_ONES[..8]

  /** The bits of 0xFFFFFFFF. */
  const ALL_ONES: seq<bool> := [
    true, true, true, true, true, true, true, true,
    true, true, true, true, true, true, true, true,
    true, true, true, true, true, true, true, true,
    true, true, true, true, true, true, true, true]

  /** Four bits, the lowest first. */
  datatype Nibble = Nibble(b0: bool, b1: bool, b2: bool, b3: bool)

  const H0 := Nibble(false, false, false, false)
  const H1 := Nibble(true, false, false, false)
  const H2 := Nibble(false, true, false, false)
  const H3 := Nibble(true, true, false, false)
  const H6 := Nibble(false, true, true, false)
  const H7 := Nibble(true, true, true, false)
  const H8 := Nibble(false, false, false, true)
  const HB := Nibble(true, true, false, true)
  const HD := Nibble(true, false, true, true)
  const HE := Nibble(false, true, true, true)
  const HF := Nibble(true, true, true, true)

  /** A word written with eight hexadecimal digits. */
  datatype Hex = Hex(h7: Nibble, h6: Nibble, h5: Nibble, h4: Nibble, h3: Nibble, h2: Nibble, h1: Nibble, h0: Nibble)

  function FourBits(n: Nibble): (bits: seq<bool>)
    ensures |bits| == 4
  {
    [n.b0, n.b1, n.b2, n.b3]
  }

  /** The bits of 0xEDB88320. */
  const POLYNOMIAL: Word :=
    FourBits(H0) + (FourBits(H2) + (FourBits(H3) + (FourBits(H8) +
    (FourBits(H8) + (FourBits(HB) + (FourBits(HD) + FourBits(HE)))))))

  const POLYNOMIAL_DIGITS := Hex(HE, HD, HB, H8, H8, H3, H2, H0)

  function Value(bits: seq<bool>): nat {
    if bits == [] then 0 else (if bits[0] then 1 else 0) + 2 * Value(bits[1..])
  }

  predicate At(bits: seq<bool>, k: nat, n: Nibble)
    requires k + 4 <= |bits|
  {
    bits[k] == n.b0 && bits[k + 1] == n.b1 && bits[k + 2] == n.b2 && bits[k + 3] == n.b3
  }

  predicate Writes(x: Hex, w: Word) {
    && At(w, 0, x.h0) && At(w, 4, x.h1) && At(w, 8, x.h2) && At(w, 12, x.h3)
    && At(w, 16, x.h4) && At(w, 20, x.h5) && At(w, 24, x.h6) && At(w, 28, x.h7)
  }

  function NibbleValue(n: Nibble): nat {
    (if n.b0 then 1 else 0) + (if n.b1 then 2 else 0) + (if n.b2 then 4 else 0) + (if n.b3 then 8 else 0)
  }

  function HexValue(x: Hex): nat {
    NibbleValue(x.h0) + 16 * (NibbleValue(x.h1) + 16 * (NibbleValue(x.h2) + 16 * (NibbleValue(x.h3) +
    16 * (NibbleValue(x.h4) + 16 * (NibbleValue(x.h5) + 16 * (NibbleValue(x.h6) + 16 * NibbleValue(x.h7)))))))
  }

  lemma ValueFrom(w: Word, k: nat, n: Nibble)
    requires k + 4 <= 32 && At(w, k, n)
    ensures Value(w[k..]) == NibbleValue(n) + 16 * Value(w[k + 4..])
  {
    var s := w[k..];
    assert s[1..] == w[k + 1..] && w[k + 1..][1..] == w[k + 2..];
    assert w[k + 2..][1..] == w[k + 3..] && w[k + 3..][1..] == w[k + 4..];
    assert Value(w[k + 2..]) == (if n.b2 then 1 else 0) + 2 * Value(w[k + 3..]);
  }

  lemma ValueOfHalf(w: Word, k: nat, a: Nibble, b: Nibble, c: Nibble, d: Nibble)
    requires k + 16 <= 32 && At(w, k, a) && At(w, k + 4, b) && At(w, k + 8, c) && At(w, k + 12, d)
    ensures Value(w[k..]) ==
      NibbleValue(a) + 16 * (NibbleValue(b) + 16 * (NibbleValue(c) + 16 * (NibbleValue(d) + 16 * Value(w[k + 16..]))))
  {
    ValueFrom(w, k, a);
    ValueFrom(w, k + 4, b);
    ValueFrom(w, k + 8, c);
    ValueFrom(w, k + 12, d);
  }

  /** The value of a word, from its hexadecimal digits. */
  lemma ValueOfHex(w: Word, x: Hex)
    requires Writes(x, w)
    ensures Value(w) == HexValue(x)
  {
    ValueOfHalf(w, 0, x.h0, x.h1, x.h2, x.h3);
    ValueOfHalf(w, 16, x.h4, x.h5, x.h6, x.h7);
    assert w[0..] == w && w[32..] == [];
  }

  const ZEROS := Hex(H0, H0, H0, H0, H0, H0, H0, H0)
  const ONES := Hex(HF, HF, HF, HF, HF, HF, HF, HF)

  // The register after 8, 16, 24 and 32 steps from all ones.
  const ONES_8 := Hex(H2, HD, HF, HD, H1, H0, H7, H2)
  const ONES_16 := Hex(HB, HE, H2, H6, HE, HD, H0, H0)
  const ONES_24 := Hex(H0, H0, HB, HE, H2, H6, HE, HD)
  const ONES_32 := Hex(HD, HE, HB, HB, H2, H0, HE, H3)

  lemma PolynomialDigits()
    ensures Writes(POLYNOMIAL_DIGITS, POLYNOMIAL)
  {
  }

  lemma HexValues()
    ensures HexValue(ONES) == 0xFFFFFFFF && HexValue(ZEROS) == 0
    ensures HexValue(Hex(HD, H2, H0, H2, HE, HF, H8, HD)) == 0xD202EF8D && HexValue(ONES_32) == 0xDEBB20E3
    ensures HexValue(POLYNOMIAL_DIGITS) == 0xEDB88320
  {
  }

  lemma PolyValue()
    ensures Value(POLYNOMIAL) == 0xEDB88320
  {
    PolynomialDigits();
    HexValues();
    ValueOfHex(POLYNOMIAL, POLYNOMIAL_DIGITS);
  }

  function Xor(a: Word, b: Word): Word {
    seq(32, i requires 0 <= i < 32 => a[i] != b[i])
  }

  function And(a: Word, b: Word): Word {
    seq(32, i requires 0 <= i < 32 => a[i] && b[i])
  }

  function Not(a: Word): Word {
    seq(32, i requires 0 <= i < 32 => !a[i])
  }

  function Shr(a: Word): Word {
    a[1..] + [false]
  }

  /** The two's complement negation of the lowest bit of a word. */
  function NegatedLowBit(a: Word): Word {
    seq(32, i => a[0])
  }

  /** One turn of the inner loop, as RFC 1952 writes it. */
  function BitStep(w: Word): Word {
    if w[0] then Xor(POLYNOMIAL, Shr(w)) else Shr(w)
  }

  function Steps(w: Word, n: nat): Word
    decreases n
  {
    if n == 0 then w else Steps(BitStep(w), n - 1)
  }

  /** Exclusive or with a shorter number. */
  function Mix(w: Word, bits: seq<bool>): Word
    requires |bits| <= 32
  {
    seq(32, i requires 0 <= i < 32 => w[i] != (i < |bits| && bits[i]))
  }

  function ByteStep(w: Word, o: Octet): Word {
    Steps(Mix(w, o), 8)
  }

  /** The register after the bytes of `data`. */
  function Register(w: Word, data: seq<Octet>): Word
    decreases |data|
  {
    if data == [] then w else Register(ByteStep(w, data[0]), data[1..])
  }

  function Checksum(data: seq<Octet>): Word {
    Not(Register(ALL_ONES, data))
  }

  method EightTurns(start: Word) returns (crc: Word)
    ensures crc == Steps(start, 8)
  {
    crc := start;
    var j := 0;
    while j < 8
      invariant 0 <= j <= 8
      invariant Steps(crc, 8 - j) == Steps(start, 8)
    {
      MaskSelectsPoly(crc);
      crc := Xor(Shr(crc), And(NegatedLowBit(crc), POLYNOMIAL));
      j := j + 1;
    }
  }

  method ComputeCrc32(data: array<Octet>) returns (r: Word)
    ensures r == Checksum(data[..])
  {
    var crc: Word := ALL_ONES;
    var at, len := 0, data.Length;
    while len != 0
      invariant 0 <= len && at + len == data.Length
      invariant Register(crc, data[at..]) == Register(ALL_ONES, data[..])
    {
      assert data[at..][1..] == data[at + 1..];
      len := len - 1;
      crc := EightTurns(Mix(crc, data[at]));
      at := at + 1;
    }
    return Not(crc);
  }

  lemma MaskSelectsPoly(w: Word)
    ensures Xor(Shr(w), And(NegatedLowBit(w), POLYNOMIAL)) == BitStep(w)
  {
  }

  // ----- the table-driven form -----

  function Shifted(w: Word, n: nat): Word
    requires n <= 32
  {
    w[n..] + seq(n, i => false)
  }

  /** `make_crc_table` of RFC 1952, section 8. */
  function TableEntry(index: Octet): Word {
    Steps(index + seq(24, i => false), 8)
  }

  /** `update_crc` of RFC 1952, section 8. */
  function TableRegister(w: Word, data: seq<Octet>): Word
    decreases |data|
  {
    if data == [] then w
    else TableRegister(Xor(TableEntry(Mix(w, data[0])[..8]), Shifted(w, 8)), data[1..])
  }

  lemma ShiftedOnce(h: Word, n: nat)
    requires 0 < n <= 32
    ensures Shifted(Shr(h), n - 1) == Shifted(h, n)
  {
    var a, b := Shifted(Shr(h), n - 1), Shifted(h, n);
    forall i | 0 <= i < 32
      ensures a[i] == b[i]
    {
      if i < 32 - n {
        assert a[i] == Shr(h)[i + n - 1] == h[i + n] == b[i];
      }
    }
  }

  /** Words whose low bits are zero are only shifted, and steps are linear. */
  lemma {:induction false} StepsOfSum(a: Word, h: Word, n: nat)
    requires n <= 32 && forall i | 0 <= i < n :: !h[i]
    ensures Steps(Xor(a, h), n) == Xor(Steps(a, n), Shifted(h, n))
    decreases n
  {
    if n == 0 {
      assert Shifted(h, 0) == h;
    } else {
      assert BitStep(Xor(a, h)) == Xor(BitStep(a), Shr(h));
      StepsOfSum(BitStep(a), Shr(h), n - 1);
      ShiftedOnce(h, n);
    }
  }

  /** The bit loop computes what the table-driven update computes. */
  lemma {:induction false} TableDrivenIsTheSame(w: Word, data: seq<Octet>)
    ensures Register(w, data) == TableRegister(w, data)
    decreases |data|
  {
    if data != [] {
      var x := Mix(w, data[0]);
      var low, high: Word := x[..8] + seq(24, i => false), seq(8, i => false) + x[8..];
      assert x == Xor(low, high);
      StepsOfSum(low, high, 8);
      assert Shifted(high, 8) == Shifted(w, 8);
      TableDrivenIsTheSame(ByteStep(w, data[0]), data[1..]);
    }
  }

  // ----- burst detection -----

  /** Feeding a message bit by bit. */
  function Feed(w: Word, bits: seq<bool>): Word
    decreases |bits|
  {
    if bits == [] then w else Feed(BitStep(Mix(w, bits[..1])), bits[1..])
  }

  function MessageBits(data: seq<Octet>): (bits: seq<bool>)
    ensures |bits| == 8 * |data|
  {
    if data == [] then [] else data[0] + MessageBits(data[1..])
  }

  lemma {:induction false} FeedConcat(w: Word, a: seq<bool>, b: seq<bool>)
    ensures Feed(w, a + b) == Feed(Feed(w, a), b)
    decreases |a|
  {
    if a == [] {
      assert a + b == b;
    } else {
      assert (a + b)[..1] == a[..1] && (a + b)[1..] == a[1..] + b;
      FeedConcat(BitStep(Mix(w, a[..1])), a[1..], b);
    }
  }

  lemma {:induction false} StepsFeed(w: Word, bits: seq<bool>)
    requires |bits| <= 32
    ensures Steps(Mix(w, bits), |bits|) == Feed(w, bits)
    decreases |bits|
  {
    if bits == [] {
      assert Mix(w, bits) == w;
    } else {
      var v := BitStep(Mix(w, bits[..1]));
      assert BitStep(Mix(w, bits)) == Mix(v, bits[1..]);
      StepsFeed(v, bits[1..]);
    }
  }

  lemma {:induction false} RegisterFeeds(w: Word, data: seq<Octet>)
    ensures Register(w, data) == Feed(w, MessageBits(data))
    decreases |data|
  {
    if data != [] {
      StepsFeed(w, data[0]);
      FeedConcat(w, data[0], MessageBits(data[1..]));
      RegisterFeeds(ByteStep(w, data[0]), data[1..]);
    }
  }

  predicate AgreeFrom(a: Word, b: Word, n: nat) {
    forall i | n <= i < 32 :: a[i] == b[i]
  }

  /** The step loses nothing: from the high bits of its results one learns the
      high bits of its arguments and their lowest bit. */
  lemma StepBackwards(a: Word, b: Word, n: nat)
    requires n < 32 && AgreeFrom(BitStep(a), BitStep(b), n)
    ensures a[0] == b[0] && AgreeFrom(a, b, n + 1)
    ensures n == 0 ==> a == b
  {
    assert BitStep(a)[31] == a[0] && BitStep(b)[31] == b[0];
    forall i | n + 1 <= i < 32
      ensures a[i] == b[i]
    {
      assert BitStep(a)[i - 1] == (a[i] != (a[0] && POLYNOMIAL[i - 1]));
      assert BitStep(b)[i - 1] == (b[i] != (b[0] && POLYNOMIAL[i - 1]));
    }
  }

  /** Two inputs of at most 32 bits that end in the same register started in
      registers with the same high bits, and are equal if those were equal. */
  lemma {:induction false} WindowBackwards(a: Word, b: Word, u: seq<bool>, v: seq<bool>)
    requires |u| == |v| <= 32 && Feed(a, u) == Feed(b, v)
    ensures AgreeFrom(a, b, |u|)
    ensures a == b ==> u == v
    decreases |u|
  {
    if u != [] {
      var a', b' := Mix(a, u[..1]), Mix(b, v[..1]);
      WindowBackwards(BitStep(a'), BitStep(b'), u[1..], v[1..]);
      StepBackwards(a', b', |u| - 1);
      assert forall i | 1 <= i < 32 :: a'[i] == a[i] && b'[i] == b[i];
      if a == b {
        assert u[0] == v[0];
        assert u == [u[0]] + u[1..] && v == [v[0]] + v[1..];
      }
    }
  }

  /** The same input leads different registers to different registers. */
  lemma {:induction false} SuffixBackwards(a: Word, b: Word, bits: seq<bool>)
    requires Feed(a, bits) == Feed(b, bits)
    ensures a == b
    decreases |bits|
  {
    if bits != [] {
      var a', b' := Mix(a, bits[..1]), Mix(b, bits[..1]);
      SuffixBackwards(BitStep(a'), BitStep(b'), bits[1..]);
      StepBackwards(a', b', 0);
      forall i | 0 <= i < 32
        ensures a[i] == b[i]
      {
        assert a'[i] == b'[i];
      }
    }
  }

  predicate SameOutside(u: seq<bool>, v: seq<bool>, at: nat, len: nat) {
    |u| == |v| && forall i | 0 <= i < |u| && !(at <= i < at + len) :: u[i] == v[i]
  }

  lemma WindowTold(w: Word, a: seq<bool>, u: seq<bool>, v: seq<bool>, b: seq<bool>)
    requires |u| == |v| <= 32 && Feed(w, a + (u + b)) == Feed(w, a + (v + b))
    ensures u == v
  {
    var start := Feed(w, a);
    FeedConcat(w, a, u + b);
    FeedConcat(w, a, v + b);
    FeedConcat(start, u, b);
    FeedConcat(start, v, b);
    SuffixBackwards(Feed(start, u), Feed(start, v), b);
    WindowBackwards(start, start, u, v);
  }

  lemma ThreeParts(u: seq<bool>, lo: nat, hi: nat)
    requires lo <= hi <= |u|
    ensures u == u[..lo] + (u[lo..hi] + u[hi..])
  {
  }

  /** Two bit strings that differ only within 32 consecutive bits never end in
      the same register. */
  lemma FeedTellsApart(w: Word, u: seq<bool>, v: seq<bool>, at: nat)
    requires SameOutside(u, v, at, 32) && Feed(w, u) == Feed(w, v)
    ensures u == v
  {
    var n := |u|;
    var lo := if at <= n then at else n;
    var hi := if at + 32 <= n then at + 32 else n;
    assert u[..lo] == v[..lo] && u[hi..] == v[hi..];
    ThreeParts(u, lo, hi);
    ThreeParts(v, lo, hi);
    WindowTold(w, u[..lo], u[lo..hi], v[lo..hi], u[hi..]);
  }

  /** A bit string with the 33 bits of the generator, its leading 1 included,
      added at one place. */
  function PlusGenerator(u: seq<bool>, at: nat): (v: seq<bool>)
    requires at + 33 <= |u|
    ensures |v| == |u| && v[at] != u[at]
  {
    u[..at] + [!u[at]] + Xor(u[at + 1..at + 33], POLYNOMIAL) + u[at + 33..]
  }

  lemma FeedBitAndWord(v: Word, x: bool, mid: Word)
    ensures Feed(v, [x] + mid) == Steps(Mix(BitStep(Mix(v, [x])), mid), 32)
  {
    var u := [x] + mid;
    assert u[..1] == [x] && u[1..] == mid;
    StepsFeed(BitStep(Mix(v, [x])), mid);
  }

  lemma FeedParts(w: Word, a: seq<bool>, x: bool, mid: Word, rest: seq<bool>)
    ensures Feed(w, a + [x] + mid + rest) ==
      Feed(Steps(Mix(BitStep(Mix(Feed(w, a), [x])), mid), 32), rest)
  {
    var u := [x] + mid;
    assert a + [x] + mid + rest == (a + u) + rest;
    FeedConcat(w, a + u, rest);
    FeedConcat(w, a, u);
    FeedBitAndWord(Feed(w, a), x, mid);
  }

  lemma GeneratorIsInvisible(w: Word, u: seq<bool>, at: nat)
    requires at + 33 <= |u|
    ensures Feed(w, PlusGenerator(u, at)) == Feed(w, u)
  {
    var a, x, mid, rest := u[..at], u[at], u[at + 1..at + 33], u[at + 33..];
    FeedParts(w, a, x, mid, rest);
    FeedParts(w, a, !x, Xor(mid, POLYNOMIAL), rest);
    CancelPoly(Feed(w, a), x, mid);
    SplitAt(u, at);
  }

  lemma SplitAt(u: seq<bool>, at: nat)
    requires at + 33 <= |u|
    ensures u == u[..at] + [u[at]] + u[at + 1..at + 33] + u[at + 33..]
  {
  }

  lemma CancelPoly(v: Word, x: bool, mid: Word)
    ensures Mix(BitStep(Mix(v, [x])), mid) == Mix(BitStep(Mix(v, [!x])), Xor(mid, POLYNOMIAL))
  {
    var a, b := BitStep(Mix(v, [x])), BitStep(Mix(v, [!x]));
    forall i | 0 <= i < 32
      ensures Mix(a, mid)[i] == Mix(b, Xor(mid, POLYNOMIAL))[i]
    {
      assert a[i] != b[i] <==> POLYNOMIAL[i];
    }
  }

  lemma PlusGeneratorTwice(u: seq<bool>, at: nat)
    requires at + 33 <= |u|
    ensures PlusGenerator(PlusGenerator(u, at), at) == u
  {
    var v := PlusGenerator(u, at);
    assert v[..at] == u[..at] && v[at + 33..] == u[at + 33..];
    assert v[at + 1..at + 33] == Xor(u[at + 1..at + 33], POLYNOMIAL);
    assert Xor(v[at + 1..at + 33], POLYNOMIAL) == u[at + 1..at + 33];
    assert u == u[..at] + [u[at]] + u[at + 1..at + 33] + u[at + 33..];
  }

  lemma SameOutsideNarrower(u: seq<bool>, v: seq<bool>, at: nat)
    requires SameOutside(u, v, at, 33) && at < |u| && u[at] == v[at]
    ensures SameOutside(u, v, at + 1, 32)
  {
  }

  lemma PlusGeneratorOutside(u: seq<bool>, v: seq<bool>, at: nat)
    requires at + 33 <= |u| && SameOutside(u, v, at, 33) && u[at] != v[at]
    ensures SameOutside(u, PlusGenerator(v, at), at + 1, 32)
  {
  }

  /** One bit more than the guarantee: among the errors within 33 bits exactly
      the generator itself goes unseen. */
  lemma BurstOf33(w: Word, u: seq<bool>, v: seq<bool>, at: nat)
    requires at + 33 <= |u| && SameOutside(u, v, at, 33)
    ensures Feed(w, u) == Feed(w, v) <==> v == u || v == PlusGenerator(u, at)
  {
    if v == PlusGenerator(u, at) {
      GeneratorIsInvisible(w, u, at);
    } else if Feed(w, u) == Feed(w, v) {
      if u[at] == v[at] {
        SameOutsideNarrower(u, v, at);
        FeedTellsApart(w, u, v, at + 1);
      } else {
        PlusGeneratorOutside(u, v, at);
        GeneratorIsInvisible(w, v, at);
        FeedTellsApart(w, u, PlusGenerator(v, at), at + 1);
        PlusGeneratorTwice(v, at);
      }
    }
  }

  lemma {:induction false} MessageBitsInjective(a: seq<Octet>, b: seq<Octet>)
    requires MessageBits(a) == MessageBits(b)
    ensures a == b
    decreases |a|
  {
    assert |a| == |b|;
    if a != [] {
      assert a[0] == MessageBits(a)[..8] == MessageBits(b)[..8] == b[0];
      assert MessageBits(a[1..]) == MessageBits(a)[8..] == MessageBits(b)[8..] == MessageBits(b[1..]);
      MessageBitsInjective(a[1..], b[1..]);
      assert a == [a[0]] + a[1..] && b == [b[0]] + b[1..];
    }
  }

  /** Burst detection: two messages whose bits differ only inside a window of 32
      consecutive bits have the same CRC only if they are the same message. */
  lemma BurstDetected(a: seq<Octet>, b: seq<Octet>, at: nat)
    requires SameOutside(MessageBits(a), MessageBits(b), at, 32)
    ensures Checksum(a) == Checksum(b) <==> a == b
  {
    if Checksum(a) == Checksum(b) {
      var ra, rb := Register(ALL_ONES, a), Register(ALL_ONES, b);
      forall i | 0 <= i < 32 ensures ra[i] == rb[i] {
        assert Not(ra)[i] == Not(rb)[i];
      }
      assert ra == rb;
      RegisterFeeds(ALL_ONES, a);
      RegisterFeeds(ALL_ONES, b);
      FeedTellsApart(ALL_ONES, MessageBits(a), MessageBits(b), at);
      MessageBitsInjective(a, b);
    }
  }

  lemma {:induction false} MessageBitAt(data: seq<Octet>, i: nat)
    requires i < 8 * |data|
    ensures MessageBits(data)[i] == data[i / 8][i % 8]
  {
    if 8 <= i {
      MessageBitAt(data[1..], i - 8);
    }
  }

  /** The same for messages that differ only in four consecutive bytes. */
  lemma FourByteBurstDetected(a: seq<Octet>, b: seq<Octet>, at: nat)
    requires |a| == |b| && forall k | 0 <= k < |a| && !(at <= k < at + 4) :: a[k] == b[k]
    ensures Checksum(a) == Checksum(b) <==> a == b
  {
    forall i | 0 <= i < 8 * |a| && !(8 * at <= i < 8 * at + 32)
      ensures MessageBits(a)[i] == MessageBits(b)[i]
    {
      MessageBitAt(a, i);
      MessageBitAt(b, i);
    }
    BurstDetected(a, b, 8 * at);
  }

  // ----- the register at the start and the complement at the end -----

  /** A digit after the step: shifted, with a bit of the digit above it moving in,
      and the polynomial's digit added when the word was odd. */
  function NibbleStep(n: Nibble, above: bool, p: Nibble, odd: bool): Nibble {
    Nibble(n.b1 != (odd && p.b0), n.b2 != (odd && p.b1), n.b3 != (odd && p.b2), above != (odd && p.b3))
  }

  function HexStep(x: Hex): Hex {
    var odd := x.h0.b0;
    Hex(NibbleStep(x.h7, false, HE, odd), NibbleStep(x.h6, x.h7.b0, HD, odd),
        NibbleStep(x.h5, x.h6.b0, HB, odd), NibbleStep(x.h4, x.h5.b0, H8, odd),
        NibbleStep(x.h3, x.h4.b0, H8, odd), NibbleStep(x.h2, x.h3.b0, H3, odd),
        NibbleStep(x.h1, x.h2.b0, H2, odd), NibbleStep(x.h0, x.h1.b0, H0, odd))
  }

  function HexSteps(x: Hex, n: nat): Hex
    decreases n
  {
    if n == 0 then x else HexSteps(HexStep(x), n - 1)
  }

  /** r is w shifted once, with p added when w is odd. */
  predicate Stepped(w: Word, p: Word, r: Word) {
    forall i | 0 <= i < 32 :: r[i] == ((i < 31 && w[i + 1]) != (w[0] && p[i]))
  }

  lemma NibbleSteps(w: Word, p: Word, r: Word, k: nat, n: Nibble, above: bool, q: Nibble)
    requires Stepped(w, p, r) && k + 4 <= 32 && At(w, k, n) && At(p, k, q) && above == (k + 4 < 32 && w[k + 4])
    ensures At(r, k, NibbleStep(n, above, q, w[0]))
  {
  }

  lemma HexStepWrites(w: Word, p: Word, r: Word, x: Hex)
    requires Stepped(w, p, r) && Writes(x, w) && Writes(POLYNOMIAL_DIGITS, p)
    ensures Writes(HexStep(x), r)
  {
    NibbleSteps(w, p, r, 0, x.h0, x.h1.b0, H0);
    NibbleSteps(w, p, r, 4, x.h1, x.h2.b0, H2);
    NibbleSteps(w, p, r, 8, x.h2, x.h3.b0, H3);
    NibbleSteps(w, p, r, 12, x.h3, x.h4.b0, H8);
    NibbleSteps(w, p, r, 16, x.h4, x.h5.b0, H8);
    NibbleSteps(w, p, r, 20, x.h5, x.h6.b0, HB);
    NibbleSteps(w, p, r, 24, x.h6, x.h7.b0, HD);
    NibbleSteps(w, p, r, 28, x.h7, false, HE);
  }

  lemma BitStepIsStepped(w: Word)
    ensures Stepped(w, POLYNOMIAL, BitStep(w))
  {
  }

  lemma {:induction false} HexStepsAreSteps(w: Word, x: Hex, n: nat)
    requires Writes(x, w)
    ensures Writes(HexSteps(x, n), Steps(w, n))
    decreases n
  {
    if n > 0 {
      PolynomialDigits();
      BitStepIsStepped(w);
      HexStepWrites(w, POLYNOMIAL, BitStep(w), x);
      HexStepsAreSteps(BitStep(w), HexStep(x), n - 1);
    }
  }

  lemma OnesAfter8(w: Word)
    requires Writes(ONES, w)
    ensures Writes(ONES_8, Steps(w, 8))
  {
    HexStepsAreSteps(w, ONES, 8);
  }

  lemma OnesAfter16(w: Word)
    requires Writes(ONES_8, w)
    ensures Writes(ONES_16, Steps(w, 8))
  {
    HexStepsAreSteps(w, ONES_8, 8);
  }

  lemma OnesAfter24(w: Word)
    requires Writes(ONES_16, w)
    ensures Writes(ONES_24, Steps(w, 8))
  {
    HexStepsAreSteps(w, ONES_16, 8);
  }

  lemma OnesAfter32(w: Word)
    requires Writes(ONES_24, w)
    ensures Writes(ONES_32, Steps(w, 8))
  {
    HexStepsAreSteps(w, ONES_24, 8);
  }

  lemma {:induction false} StepsSplit(w: Word, m: nat, n: nat)
    ensures Steps(w, m + n) == Steps(Steps(w, m), n)
    decreases m
  {
    if m > 0 {
      StepsSplit(BitStep(w), m - 1, n);
    }
  }

  const ZERO_OCTET: Octet := [false, false, false, false, false, false, false, false]

  lemma WrittenOnes()
    ensures Writes(ONES, ALL_ONES) && Writes(ZEROS, Not(ALL_ONES))
  {
    var bits: Word := ALL_ONES;
    AllWritten(bits, true, HF);
    AllWritten(Not(bits), false, H0);
  }

  lemma AllWritten(w: Word, b: bool, n: Nibble)
    requires (forall i | 0 <= i < 32 :: w[i] == b) && n == Nibble(b, b, b, b)
    ensures Writes(Hex(n, n, n, n, n, n, n, n), w)
  {
  }

  lemma ChecksumOfNothing()
    ensures Value(ALL_ONES) == 0xFFFFFFFF && Value(Checksum([])) == 0
  {
    HexValues();
    WrittenOnes();
    ValueOfHex(ALL_ONES, ONES);
    ValueOfHex(Not(ALL_ONES), ZEROS);
  }

  lemma ZeroOctetStep()
    ensures Writes(ONES_8, ByteStep(ALL_ONES, ZERO_OCTET))
  {
    assert Mix(ALL_ONES, ZERO_OCTET) == ALL_ONES;
    WrittenOnes();
    OnesAfter8(ALL_ONES);
  }

  lemma ComplementOfZero(w: Word)
    requires Writes(ONES_8, w)
    ensures Writes(Hex(HD, H2, H0, H2, HE, HF, H8, HD), Not(w)) && !w[31]
  {
  }

  lemma ChecksumOfZero()
    ensures Value(Checksum([ZERO_OCTET])) == 0xD202EF8D
  {
    HexValues();
    ZeroOctetStep();
    var zero := ByteStep(ALL_ONES, ZERO_OCTET);
    ComplementOfZero(zero);
    assert Register(zero, [ZERO_OCTET][1..]) == zero;
    ValueOfHex(Not(zero), Hex(HD, H2, H0, H2, HE, HF, H8, HD));
  }

  /** The register starts as 0xFFFFFFFF; the checksum of nothing is 0 and that of one
      zero octet 0xD202EF8D. */
  lemma KnownChecksums()
    ensures Value(ALL_ONES) == 0xFFFFFFFF && Value(Checksum([])) == 0
    ensures Value(Checksum([ZERO_OCTET])) == 0xD202EF8D
  {
    ChecksumOfNothing();
    ChecksumOfZero();
  }

  /** Starting from ones, a zero octet put in front of a message is always seen. */
  lemma LeadingZeroIsSeen(data: seq<Octet>)
    ensures Checksum([ZERO_OCTET] + data) != Checksum(data)
  {
    ZeroOctetStep();
    var zero := ByteStep(ALL_ONES, ZERO_OCTET);
    ComplementOfZero(zero);
    assert ALL_ONES[31];
    assert ([ZERO_OCTET] + data)[1..] == data;
    if Checksum([ZERO_OCTET] + data) == Checksum(data) {
      NotIsInjective(Register(zero, data), Register(ALL_ONES, data));
      RegisterFeeds(zero, data);
      RegisterFeeds(ALL_ONES, data);
      SuffixBackwards(zero, ALL_ONES, MessageBits(data));
    }
  }

  lemma NotIsInjective(a: Word, b: Word)
    requires Not(a) == Not(b)
    ensures a == b
  {
    forall i | 0 <= i < 32
      ensures a[i] == b[i]
    {
      assert Not(a)[i] == Not(b)[i];
    }
  }

  /** The four octets of a word, the low one first. */
  function Octets(w: Word): seq<Octet> {
    [w[..8], w[8..16], w[16..24], w[24..]]
  }

  lemma OctetsAreBits(w: Word)
    ensures MessageBits(Octets(w)) == w
  {
    var o := Octets(w);
    assert o[1..][1..][1..][1..] == [];
    assert MessageBits(o[1..][1..][1..]) == w[24..];
    assert MessageBits(o[1..][1..]) == w[16..24] + w[24..] == w[16..];
    assert MessageBits(o[1..]) == w[8..16] + w[16..] == w[8..];
  }

  /** Whoever sums up a message together with its checksum ends in the same
      register 0xDEBB20E3, whatever the message: the complement at the end is
      what makes it so. */
  lemma ResidueIsFixed(data: seq<Octet>)
    ensures Value(Register(ALL_ONES, data + Octets(Checksum(data)))) == 0xDEBB20E3
  {
    var r, sum := Register(ALL_ONES, data), Checksum(data);
    RegisterConcat(ALL_ONES, data, Octets(sum));
    RegisterFeeds(r, Octets(sum));
    OctetsAreBits(sum);
    StepsFeed(r, sum);
    assert Mix(r, sum) == ALL_ONES;
    AllOnesAfter32();
  }

  lemma {:induction false} RegisterConcat(w: Word, a: seq<Octet>, b: seq<Octet>)
    ensures Register(w, a + b) == Register(Register(w, a), b)
    decreases |a|
  {
    if a == [] {
      assert a + b == b;
    } else {
      assert (a + b)[1..] == a[1..] + b;
      RegisterConcat(ByteStep(w, a[0]), a[1..], b);
    }
  }

  lemma AllOnesAfter32()
    ensures Value(Steps(ALL_ONES, 32)) == 0xDEBB20E3
  {
    var w8 := Steps(ALL_ONES, 8);
    var w16 := Steps(w8, 8);
    var w24 := Steps(w16, 8);
    HexValues();
    WrittenOnes();
    OnesAfter8(ALL_ONES);
    OnesAfter16(w8);
    OnesAfter24(w16);
    OnesAfter32(w24);
    StepsSplit(ALL_ONES, 8, 24);
    StepsSplit(w8, 8, 16);
    StepsSplit(w16, 8, 8);
    ValueOfHex(Steps(w24, 8), ONES_32);
  }
}
