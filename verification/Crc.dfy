/** The CRC-16 of the serial line: the reflected polynomial 0xA001 (x^16 + x^15 + x^2 + 1). */
module Crc {
  import opened Bytes

  /** One step of the division: shift right, and subtract the polynomial when a one falls out
      (StepMeaning). The mask `0 - (c & 1)` is all ones exactly when the low bit is set. */
  function Step(c: bv16): bv16
  {
    (c >> 1) ^ ((0 - (c & 1)) & 0xA001)
  }

  function Steps(c: bv16, n: nat): bv16
    decreases n, c
  {
    if n == 0 then c else Steps(Step(c), n - 1)
  }

  /** The state that a machine `f` reaches from `s` on the input `xs`. */
  function Run<S, X>(f: (S, X) -> S, s: S, xs: seq<X>): S
    decreases |xs|
  {
    if xs == [] then s else Run(f, f(s, xs[0]), xs[1..])
  }

  /** One message bit enters the register. */
  function Feed(c: bv16, x: bv1): bv16 { Step(c ^ (x as bv16)) }

  /** The reference: the remainder register `c` after the message bits have been divided one by one. */
  function Divide(c: bv16, bits: seq<bv1>): bv16
  {
    Run(Feed, c, bits)
  }

  /** The `n` low bits of `v`, least significant first: the order of transmission. */
  function BitsOf(v: bv16, n: nat): (bits: seq<bv1>)
    ensures |bits| == n
    decreases n, v
  {
    if n == 0 then [] else [(v & 1) as bv1] + BitsOf(v >> 1, n - 1)
  }

  function Octets(s: seq<byte>): (o: seq<bv16>)
    ensures |o| == |s|
  {
    seq(|s|, i requires 0 <= i < |s| => s[i] as bv16)
  }

  /** The bits of the octets `s`, `n` from each. */
  function BitStream(s: seq<bv16>, n: nat): (bits: seq<bv1>)
    ensures |bits| == n * |s|
  {
    if s == [] then [] else BitsOf(s[0], n) + BitStream(s[1..], n)
  }

  function FrameBits(s: seq<byte>): (bits: seq<bv1>)
    ensures |bits| == 8 * |s|
  {
    BitStream(Octets(s), 8)
  }

  /** The byte-wise form: each byte is added to the register, which then runs for `n` steps. */
  function Register(c: bv16, s: seq<bv16>, n: nat): bv16
    decreases |s|
  {
    if s == [] then c else Register(Steps(c ^ s[0], n), s[1..], n)
  }

  function CrcFrom(c: bv16, s: seq<byte>): bv16 { Register(c, Octets(s), 8) }

  const PRESET: bv16 := 0xFFFF

  function Crc16(s: seq<byte>): bv16 { CrcFrom(PRESET, s) }

  /** The two CRC bytes that end a frame, low byte first. */
  function CrcBytes(s: seq<byte>): (r: seq<byte>)
    ensures |r| == 2
  {
    Halves(Crc16(s))
  }

  function Halves(c: bv16): (r: seq<byte>)
    ensures |r| == 2
  {
    [(c & 0xFF) as int, (c >> 8) as int]
  }

  /** The CRC read back from the last two octets: the second one is the high byte. */
  function Received(tail: seq<bv16>): bv16
    requires |tail| == 2
  {
    (tail[1] << 8) | tail[0]
  }

  predicate CrcValid(f: seq<byte>)
  {
    |f| >= 2 && Crc16(f[..|f| - 2]) == Received(Octets(f[|f| - 2..]))
  }

  lemma StepMeaning(c: bv16)
    ensures Step(c) == if c & 1 == 1 then (c >> 1) ^ 0xA001 else c >> 1
  {
  }

  // ---- Linearity ---------------------------------------------------------

  lemma {:induction false} DivideBitsOf(c: bv16, v: bv16, n: nat)
    requires Fits(v, n)
    ensures Divide(c, BitsOf(v, n)) == Steps(c ^ v, n)
    decreases n
  {
    if n == 0 {
      assert c ^ v == c;
    } else {
      var x := (v & 1) as bv1;
      SplitLowBit(c, v);
      DivideCons(c, x, BitsOf(v >> 1, n - 1));
      DivideBitsOf(Step(c ^ (x as bv16)), v >> 1, n - 1);
    }
  }

  lemma RunCons<S, X>(f: (S, X) -> S, s: S, x: X, xs: seq<X>)
    ensures Run(f, s, [x] + xs) == Run(f, f(s, x), xs)
  {
    assert ([x] + xs)[1..] == xs;
  }

  lemma DivideCons(c: bv16, x: bv1, t: seq<bv1>)
    ensures Divide(c, [x] + t) == Divide(Step(c ^ (x as bv16)), t)
  {
    RunCons(Feed, c, x, t);
  }

  lemma SplitLowBit(c: bv16, v: bv16)
    ensures Step(c ^ v) == Step(c ^ (((v & 1) as bv1) as bv16)) ^ (v >> 1)
  {
  }

  /** `v` has no bit at or above position `n`. */
  predicate Fits(v: bv16, n: nat)
    decreases n, v
  {
    if n == 0 then v == 0 else Fits(v >> 1, n - 1)
  }

  lemma FitsFour(v: bv16, n: nat)
    ensures Fits(v, n + 4) == Fits(v >> 4, n)
  {
    assert v >> 1 >> 1 >> 1 >> 1 == v >> 4;
    assert Fits(v, n + 4) == Fits(v >> 1, n + 3);
    assert Fits(v >> 1, n + 3) == Fits(v >> 1 >> 1, n + 2);
    assert Fits(v >> 1 >> 1, n + 2) == Fits(v >> 1 >> 1 >> 1, n + 1);
  }

  lemma FitsEight(v: bv16)
    ensures Fits(v, 8) <==> v >> 8 == 0
  {
    FitsFour(v, 4);
    FitsFour(v >> 4, 0);
    assert v >> 4 >> 4 == v >> 8;
  }

  lemma ByteFits(b: byte)
    ensures Fits(b as bv16, 8)
  {
    FitsEight(b as bv16);
  }

  lemma {:induction false} RunConcat<S, X>(f: (S, X) -> S, s: S, xs: seq<X>, ys: seq<X>)
    ensures Run(f, s, xs + ys) == Run(f, Run(f, s, xs), ys)
    decreases |xs|
  {
    if xs == [] {
      assert xs + ys == ys;
    } else {
      assert (xs + ys)[1..] == xs[1..] + ys;
      RunConcat(f, f(s, xs[0]), xs[1..], ys);
    }
  }

  lemma DivideConcat(c: bv16, a: seq<bv1>, b: seq<bv1>)
    ensures Divide(c, a + b) == Divide(Divide(c, a), b)
  {
    RunConcat(Feed, c, a, b);
  }

  lemma {:induction false} BitStreamConcat(s: seq<bv16>, t: seq<bv16>, n: nat)
    ensures BitStream(s + t, n) == BitStream(s, n) + BitStream(t, n)
  {
    if s == [] {
      assert s + t == t;
    } else {
      assert (s + t)[1..] == s[1..] + t;
      BitStreamConcat(s[1..], t, n);
    }
  }

  lemma {:induction false} RegisterIsDivision(c: bv16, s: seq<bv16>, n: nat)
    requires forall i :: 0 <= i < |s| ==> Fits(s[i], n)
    ensures Register(c, s, n) == Divide(c, BitStream(s, n))
    decreases |s|
  {
    if s != [] {
      var v := s[0];
      DivideBitsOf(c, v, n);
      DivideConcat(c, BitsOf(v, n), BitStream(s[1..], n));
      RegisterIsDivision(Steps(c ^ v, n), s[1..], n);
    }
  }

  /** The byte-wise register is the bit-by-bit division of the frame's bits. */
  lemma CrcIsDivision(c: bv16, s: seq<byte>)
    ensures CrcFrom(c, s) == Divide(c, FrameBits(s))
  {
    forall i | 0 <= i < |s|
      ensures Fits(Octets(s)[i], 8)
    {
      ByteFits(s[i]);
    }
    RegisterIsDivision(c, Octets(s), 8);
  }

  // ---- The only sixteen bits that bring the register to zero --------------

  lemma {:induction false} StepsZero(n: nat)
    ensures Steps(0, n) == 0
  {
    if n > 0 {
      assert Step(0) == 0;
      StepsZero(n - 1);
    }
  }

  lemma {:induction false} FitsMonotone(v: bv16, n: nat, m: nat)
    requires Fits(v, n) && n <= m
    ensures Fits(v, m)
    decreases m
  {
    if n == 0 {
      if m > 0 {
        assert v >> 1 == 0;
        FitsMonotone(v >> 1, 0, m - 1);
      }
    } else {
      FitsMonotone(v >> 1, n - 1, m - 1);
    }
  }

  lemma TopBitClear(v: bv16, n: nat)
    requires Fits(v, n) && n <= 15
    ensures v & 0x8000 == 0
  {
    FitsMonotone(v, n, 15);
    FifteenBits(v);
  }

  lemma FifteenBits(v: bv16)
    requires Fits(v, 15)
    ensures v & 0x8000 == 0
  {
    FitsFour(v, 11);
    FitsFour(v >> 4, 7);
    FitsFour(v >> 4 >> 4, 3);
    var t := v >> 4 >> 4 >> 4;
    assert Fits(t >> 1 >> 1, 1) && Fits(t >> 1 >> 1 >> 1, 0);
    assert t >> 1 >> 1 >> 1 == v >> 15;
  }

  /** At most sixteen bits clear the register only when they spell out its own value. */
  lemma {:induction false} DivideToZero(c: bv16, w: seq<bv1>)
    requires |w| <= 16 && Divide(c, w) == 0
    ensures Fits(c, |w|) && BitsOf(c, |w|) == w
    decreases |w|
  {
    if w != [] {
      var x := w[0];
      assert w == [x] + w[1..];
      DivideCons(c, x, w[1..]);
      DivideToZero(Step(c ^ (x as bv16)), w[1..]);
      TopBitClear(Step(c ^ (x as bv16)), |w| - 1);
      LowBitKnown(c, x);
      UnshiftBits(c, w);
    }
  }

  lemma UnshiftBits(c: bv16, w: seq<bv1>)
    requires w != [] && Fits(c >> 1, |w| - 1) && BitsOf(c >> 1, |w| - 1) == w[1..] && (c & 1) as bv1 == w[0]
    ensures Fits(c, |w|) && BitsOf(c, |w|) == w
  {
  }

  lemma LowBitKnown(c: bv16, x: bv1)
    requires Step(c ^ (x as bv16)) & 0x8000 == 0
    ensures (c & 1) as bv1 == x && Step(c ^ (x as bv16)) == c >> 1
  {
  }

  lemma SixteenBitsFit(c: bv16)
    ensures Fits(c, 16)
  {
    FitsFour(c, 12);
    FitsFour(c >> 4, 8);
    FitsFour(c >> 4 >> 4, 4);
    FitsFour(c >> 4 >> 4 >> 4, 0);
    assert c >> 4 >> 4 >> 4 >> 4 == 0;
  }

  lemma DivideToZeroIff(c: bv16, w: seq<bv1>)
    requires |w| == 16
    ensures Divide(c, w) == 0 <==> w == BitsOf(c, 16)
  {
    SixteenBitsFit(c);
    DivideBitsOf(c, c, 16);
    assert c ^ c == 0;
    StepsZero(16);
    if Divide(c, w) == 0 {
      DivideToZero(c, w);
    }
  }

  lemma {:induction false} BitsOfInjective(a: bv16, b: bv16, n: nat)
    requires Fits(a, n) && Fits(b, n) && BitsOf(a, n) == BitsOf(b, n)
    ensures a == b
    decreases n
  {
    if n > 0 {
      assert BitsOf(a, n)[1..] == BitsOf(a >> 1, n - 1);
      assert BitsOf(b, n)[1..] == BitsOf(b >> 1, n - 1);
      BitsOfInjective(a >> 1, b >> 1, n - 1);
      assert BitsOf(a, n)[0] == BitsOf(b, n)[0];
      assert a == b;
    }
  }

  // ---- Residue: the frame check is a division that leaves nothing ----------

  /** `v` is `low` in its first `n` bits and `high` above them. */
  predicate Stacked(v: bv16, low: bv16, high: bv16, n: nat)
    decreases n, v
  {
    if n == 0 then v == high else v & 1 == low & 1 && Stacked(v >> 1, low >> 1, high, n - 1)
  }

  lemma {:induction false} BitsOfStacked(v: bv16, low: bv16, high: bv16, n: nat, m: nat)
    requires Stacked(v, low, high, n)
    ensures BitsOf(v, n + m) == BitsOf(low, n) + BitsOf(high, m)
    decreases n
  {
    if n > 0 {
      BitsOfStacked(v >> 1, low >> 1, high, n - 1, m);
      assert BitsOf(low, n) + BitsOf(high, m) == [(low & 1) as bv1] + (BitsOf(low >> 1, n - 1) + BitsOf(high, m));
    } else {
      assert BitsOf(low, 0) == [];
    }
  }

  lemma StackedFour(v: bv16, low: bv16, high: bv16, n: nat)
    requires v & 0xF == low & 0xF && Stacked(v >> 4, low >> 4, high, n)
    ensures Stacked(v, low, high, n + 4)
  {
    assert v >> 1 >> 1 >> 1 >> 1 == v >> 4 && low >> 1 >> 1 >> 1 >> 1 == low >> 4;
    assert (v >> 1 >> 1 >> 1) & 1 == (low >> 1 >> 1 >> 1) & 1;
    assert Stacked(v >> 1 >> 1 >> 1, low >> 1 >> 1 >> 1, high, n + 1);
    assert (v >> 1 >> 1) & 1 == (low >> 1 >> 1) & 1;
    assert Stacked(v >> 1 >> 1, low >> 1 >> 1, high, n + 2);
    assert (v >> 1) & 1 == (low >> 1) & 1;
    assert Stacked(v >> 1, low >> 1, high, n + 3);
    assert v & 1 == low & 1;
  }

  lemma BytesStacked(c: bv16)
    ensures Stacked(c, c & 0xFF, c >> 8, 8)
  {
    assert c >> 4 >> 4 == c >> 8;
    StackedFour(c >> 4, (c & 0xFF) >> 4, c >> 8, 0);
    StackedFour(c, c & 0xFF, c >> 8, 4);
  }

  /** Sixteen bits from two bytes are those of the register iff the bytes are its low and high byte. */
  lemma TwoBytesIff(c: bv16, low: bv16, high: bv16)
    requires Fits(low, 8) && Fits(high, 8)
    ensures BitsOf(low, 8) + BitsOf(high, 8) == BitsOf(c, 16) <==> low == c & 0xFF && high == c >> 8
  {
    BytesStacked(c);
    BitsOfStacked(c, c & 0xFF, c >> 8, 8, 8);
    HalvesFit(c);
    var l, h := BitsOf(low, 8), BitsOf(high, 8);
    var l', h' := BitsOf(c & 0xFF, 8), BitsOf(c >> 8, 8);
    if l + h == l' + h' {
      assert (l + h)[..8] == l && (l' + h')[..8] == l';
      assert (l + h)[8..] == h && (l' + h')[8..] == h';
      BitsOfInjective(low, c & 0xFF, 8);
      BitsOfInjective(high, c >> 8, 8);
    }
  }

  lemma HalvesFit(c: bv16)
    ensures Fits(c & 0xFF, 8) && Fits(c >> 8, 8)
  {
    FitsEight(c & 0xFF);
    FitsEight(c >> 8);
  }

  lemma ReceivedIff(c: bv16, low: bv16, high: bv16)
    requires Fits(low, 8) && Fits(high, 8)
    ensures c == Received([low, high]) <==> low == c & 0xFF && high == c >> 8
  {
    FitsEight(low);
    FitsEight(high);
    JoinHalves(c, low, high);
  }

  lemma JoinHalves(c: bv16, l: bv16, h: bv16)
    requires l >> 8 == 0 && h >> 8 == 0
    ensures c == (h << 8) | l <==> l == c & 0xFF && h == c >> 8
  {
  }

  lemma BitStreamPair(a: bv16, b: bv16, n: nat)
    ensures BitStream([a, b], n) == BitsOf(a, n) + BitsOf(b, n)
  {
    assert [a, b][1..] == [b];
    assert BitStream([b], n) == BitsOf(b, n);
  }

  lemma OctetsConcat(s: seq<byte>, t: seq<byte>)
    ensures Octets(s + t) == Octets(s) + Octets(t)
  {
  }

  lemma OctetsFit(s: seq<byte>)
    ensures forall i :: 0 <= i < |s| ==> Fits(Octets(s)[i], 8)
  {
    forall i | 0 <= i < |s|
      ensures Fits(Octets(s)[i], 8)
    {
      ByteFits(s[i]);
    }
  }

  lemma OctetResidue(m: seq<bv16>, low: bv16, high: bv16, n: nat)
    requires n + n == 16
    requires Register(PRESET, m, n) == Divide(PRESET, BitStream(m, n))
    requires var c := Register(PRESET, m, n);
      BitsOf(low, n) + BitsOf(high, n) == BitsOf(c, 16) <==> low == c & 0xFF && high == c >> 8
    ensures var c := Register(PRESET, m, n);
      Divide(PRESET, BitStream(m + [low, high], n)) == 0 <==> low == c & 0xFF && high == c >> 8
  {
    BitStreamConcat(m, [low, high], n);
    BitStreamPair(low, high, n);
    DivideConcat(PRESET, BitStream(m, n), BitsOf(low, n) + BitsOf(high, n));
    DivideToZeroIff(Register(PRESET, m, n), BitsOf(low, n) + BitsOf(high, n));
  }

  lemma ResidueOfOctets(m: seq<bv16>, low: bv16, high: bv16)
    requires Fits(low, 8) && Fits(high, 8)
    requires Register(PRESET, m, 8) == Divide(PRESET, BitStream(m, 8))
    ensures var c := Register(PRESET, m, 8);
      Divide(PRESET, BitStream(m + [low, high], 8)) == 0 <==> low == c & 0xFF && high == c >> 8
  {
    TwoBytesIff(Register(PRESET, m, 8), low, high);
    OctetResidue(m, low, high, 8);
  }

  /** The receiver's comparison succeeds exactly when dividing the whole frame, CRC included, leaves zero. */
  lemma ResidueIff(f: seq<byte>)
    requires |f| >= 2
    ensures CrcValid(f) <==> Divide(0xFFFF, FrameBits(f)) == 0
  {
    var m, tail := f[..|f| - 2], f[|f| - 2..];
    assert f == m + tail;
    CrcIsDivision(PRESET, m);
    OctetsConcat(m, tail);
    OctetsFit(tail);
    var o := Octets(tail);
    assert o == [o[0], o[1]];
    ResidueOfOctets(Octets(m), o[0], o[1]);
    ReceivedIff(Crc16(m), o[0], o[1]);
  }

  /** Appending the CRC, low byte first, makes a valid frame. */
  lemma AppendedCrcIsValid(m: seq<byte>)
    ensures CrcValid(m + CrcBytes(m))
  {
    var f := m + CrcBytes(m);
    assert f[..|f| - 2] == m && f[|f| - 2..] == CrcBytes(m);
    CrcOctets(m);
    ReceivedHalves(Crc16(m));
  }

  lemma CrcOctets(m: seq<byte>)
    ensures Octets(CrcBytes(m)) == [Crc16(m) & 0xFF, Crc16(m) >> 8]
  {
    HalvesOctets(Crc16(m));
  }

  lemma HalvesOctets(c: bv16)
    ensures Octets(Halves(c)) == [c & 0xFF, c >> 8]
  {
    OctetPair(c & 0xFF, c >> 8);
  }

  lemma OctetPair(a: bv16, b: bv16)
    requires a as int < 0x100 && b as int < 0x100
    ensures Octets([a as int, b as int]) == [a, b]
  {
    RoundTrip(a);
    RoundTrip(b);
  }

  lemma RoundTrip(v: bv16)
    ensures (v as int) as bv16 == v
  {
  }

  lemma ReceivedHalves(c: bv16)
    ensures Received([c & 0xFF, c >> 8]) == c
  {
  }

  // ---- Error detection -----------------------------------------------------

  /** Where two equally long bit streams differ. */
  function Difference(a: seq<bv1>, b: seq<bv1>): (d: seq<bv1>)
    requires |a| == |b|
    ensures |d| == |a|
  {
    seq(|a|, i requires 0 <= i < |a| => a[i] ^ b[i])
  }

  lemma {:induction false} RunRelated<S(!new)>(
    f: (S, bv1) -> S, related: (S, S, S) -> bool, s: S, s': S, t: S, a: seq<bv1>, b: seq<bv1>)
    requires |a| == |b| && related(s, s', t)
    requires forall s, s', t, x, y :: related(s, s', t) ==> related(f(s, x), f(s', y), f(t, x ^ y))
    ensures related(Run(f, s, a), Run(f, s', b), Run(f, t, Difference(a, b)))
    decreases |a|
  {
    if a != [] {
      RunRelated(f, related, f(s, a[0]), f(s', b[0]), f(t, a[0] ^ b[0]), a[1..], b[1..]);
      assert Difference(a, b) == [a[0] ^ b[0]] + Difference(a[1..], b[1..]);
      RunCons(f, t, a[0] ^ b[0], Difference(a[1..], b[1..]));
    }
  }

  /** Division is affine: the registers of two streams differ by the division of their difference. */
  lemma DivideAffine(c: bv16, c': bv16, a: seq<bv1>, b: seq<bv1>)
    requires |a| == |b|
    ensures Divide(c, a) ^ Divide(c', b) == Divide(c ^ c', Difference(a, b))
  {
    var related := (s: bv16, s': bv16, t: bv16) => t == s ^ s';
    FeedAffine();
    RunRelated(Feed, related, c, c', c ^ c', a, b);
  }

  lemma FeedXor(c: bv16, c': bv16, x: bv1, y: bv1)
    ensures Feed(c, x) ^ Feed(c', y) == Feed(c ^ c', x ^ y)
  {
  }

  lemma FeedAffine()
    ensures forall c, c', x, y :: Feed(c, x) ^ Feed(c', y) == Feed(c ^ c', x ^ y)
  {
    forall c, c', x, y
      ensures Feed(c, x) ^ Feed(c', y) == Feed(c ^ c', x ^ y)
    {
      FeedXor(c, c', x, y);
    }
  }

  /** Whether an odd number of the bits are set. */
  predicate Odd(bits: seq<bv1>)
  {
    bits != [] && ((bits[0] == 1) != Odd(bits[1..]))
  }

  /** Whether an odd number of the `n` low bits of `c` are set. */
  predicate OddBelow(c: bv16, n: nat)
    decreases n, c
  {
    n > 0 && ((c & 1 == 1) != OddBelow(c >> 1, n - 1))
  }

  lemma {:induction false} OddXor(a: bv16, b: bv16, n: nat)
    ensures OddBelow(a ^ b, n) <==> (OddBelow(a, n) != OddBelow(b, n))
    decreases n
  {
    if n > 0 {
      OddUnfold(a, b, n);
      OddXor(a >> 1, b >> 1, n - 1);
    }
  }

  lemma OddUnfold(a: bv16, b: bv16, n: nat)
    requires n > 0
    ensures OddBelow(a ^ b, n) <==> (((a & 1 == 1) != (b & 1 == 1)) != OddBelow((a >> 1) ^ (b >> 1), n - 1))
  {
    ShiftXor(a, b);
  }

  lemma ShiftXor(a: bv16, b: bv16)
    ensures (a ^ b) >> 1 == (a >> 1) ^ (b >> 1)
    ensures (a ^ b) & 1 == 1 <==> ((a & 1 == 1) != (b & 1 == 1))
  {
  }

  lemma {:induction false} OddAbove(v: bv16, n: nat)
    requires Fits(v, n)
    ensures OddBelow(v, n + 1) == OddBelow(v, n)
    decreases n
  {
    if n > 0 {
      OddAbove(v >> 1, n - 1);
    }
  }

  lemma OddFour(v: bv16, n: nat)
    requires v & 0xF == 0
    ensures OddBelow(v, n + 4) == OddBelow(v >> 4, n)
  {
    assert v >> 1 >> 1 >> 1 >> 1 == v >> 4;
    assert (v >> 1 >> 1 >> 1) & 1 == 0 && OddBelow(v >> 1 >> 1 >> 1, n + 1) == OddBelow(v >> 4, n);
    assert (v >> 1 >> 1) & 1 == 0 && OddBelow(v >> 1 >> 1, n + 2) == OddBelow(v >> 4, n);
    assert (v >> 1) & 1 == 0 && OddBelow(v >> 1, n + 3) == OddBelow(v >> 4, n);
    assert v & 1 == 0;
  }

  lemma {:induction false} OddZero(n: nat)
    ensures !OddBelow(0, n)
  {
    if n > 0 {
      assert (0 as bv16) >> 1 == 0;
      OddZero(n - 1);
    }
  }

  lemma OddOne(n: nat)
    requires n > 0
    ensures OddBelow(1, n)
  {
    assert (1 as bv16) >> 1 == 0;
    OddZero(n - 1);
  }

  /** 0xA001 has three bits set; with the bit shifted out, the polynomial has an even number of terms. */
  lemma OddPolynomial()
    ensures OddBelow(0xA001, 16)
  {
    OddOne(1);
    assert (2 as bv16) >> 1 == 1 && (5 as bv16) >> 1 == 2 && (0xA001 as bv16) >> 1 == 0x5000;
    assert OddBelow(2, 2);
    assert !OddBelow(5, 3);
    OddFour(0x5000, 11);
    OddFour(0x500, 7);
    OddFour(0x50, 3);
    assert (0x5000 as bv16) >> 4 == 0x500 && (0x500 as bv16) >> 4 == 0x50 && (0x50 as bv16) >> 4 == 5;
  }

  lemma OddFeedback(x: bv16)
    ensures OddBelow((0 - (x & 1)) & 0xA001, 16) <==> x & 1 == 1
  {
    OddPolynomial();
    OddZero(16);
    if x & 1 == 1 {
      assert (0 - (x & 1)) & 0xA001 == 0xA001;
    } else {
      assert (0 - (x & 1)) & 0xA001 == 0;
    }
  }

  lemma StepKeepsOdd(c: bv16)
    ensures OddBelow(Step(c), 16) == OddBelow(c, 16)
  {
    OddOfShift(c);
    OddOfStep(c);
  }

  lemma OddOfShift(c: bv16)
    ensures OddBelow(c >> 1, 16) <==> (OddBelow(c, 16) != (c & 1 == 1))
  {
    SixteenBitsFit(c);
    OddAbove(c >> 1, 15);
  }

  lemma OddOfSum(a: bv16, b: bv16, n: nat, odd: bool)
    requires OddBelow(b, n) <==> odd
    ensures OddBelow(a ^ b, n) <==> (OddBelow(a, n) != odd)
  {
    OddXor(a, b, n);
  }

  lemma OddOfStep(c: bv16)
    ensures OddBelow(Step(c), 16) <==> (OddBelow(c >> 1, 16) != (c & 1 == 1))
  {
    OddFeedback(c);
    OddOfSum(c >> 1, (0 - (c & 1)) & 0xA001, 16, c & 1 == 1);
  }

  lemma OddBit(x: bv1)
    ensures OddBelow(x as bv16, 16) <==> x == 1
  {
    OddZero(16);
    OddOne(16);
    assert x as bv16 == if x == 1 then 1 else 0;
  }

  lemma FeedFlipsOdd(c: bv16, x: bv1)
    ensures OddBelow(Step(c ^ (x as bv16)), 16) <==> (OddBelow(c, 16) != (x == 1))
  {
    OddXor(c, x as bv16, 16);
    OddBit(x);
    StepKeepsOdd(c ^ (x as bv16));
  }

  lemma {:induction false} RunKeepsOdd<S(!new)>(f: (S, bv1) -> S, odd: S -> bool, s: S, bits: seq<bv1>)
    requires forall s, x :: odd(f(s, x)) <==> (odd(s) != (x == 1))
    ensures odd(Run(f, s, bits)) <==> (odd(s) != Odd(bits))
    decreases |bits|
  {
    if bits != [] {
      RunKeepsOdd(f, odd, f(s, bits[0]), bits[1..]);
    }
  }

  /** The polynomial is divisible by x + 1, so the register remembers the parity of what it was fed. */
  lemma DivideKeepsOdd(c: bv16, bits: seq<bv1>)
    ensures OddBelow(Divide(c, bits), 16) <==> (OddBelow(c, 16) != Odd(bits))
  {
    forall s, x
      ensures OddBelow(Feed(s, x), 16) <==> (OddBelow(s, 16) != (x == 1))
    {
      FeedFlipsOdd(s, x);
    }
    RunKeepsOdd(Feed, s => OddBelow(s, 16), c, bits);
  }

  function Zeros(n: nat): (z: seq<bv1>)
    ensures |z| == n
  {
    seq(n, _ => 0)
  }

  /** An error confined to sixteen consecutive bits, in the order of transmission. */
  ghost predicate Burst(d: seq<bv1>)
  {
    exists before: nat, w: seq<bv1>, after: nat ::
      |w| <= 16 && w != Zeros(|w|) && d == Zeros(before) + w + Zeros(after)
  }

  lemma {:induction false} DivideZeros(c: bv16, n: nat)
    ensures Divide(c, Zeros(n)) == 0 <==> c == 0
    decreases n
  {
    if n > 0 {
      assert Zeros(n) == [0] + Zeros(n - 1);
      DivideCons(c, 0, Zeros(n - 1));
      FeedZero(c);
      DivideZeros(Feed(c, 0), n - 1);
    }
  }

  lemma FeedZero(c: bv16)
    ensures Feed(c, 0) == 0 <==> c == 0
  {
  }

  lemma {:induction false} BitsOfZero(n: nat)
    ensures BitsOf(0, n) == Zeros(n)
  {
    if n > 0 {
      BitsOfZero(n - 1);
      assert 0 as bv16 >> 1 == 0 && ((0 as bv16) & 1) as bv1 == 0;
    }
  }

  lemma BurstLeavesRemainder(d: seq<bv1>)
    requires Burst(d)
    ensures Divide(0, d) != 0
  {
    var before: nat, w: seq<bv1>, after: nat :|
      |w| <= 16 && w != Zeros(|w|) && d == Zeros(before) + w + Zeros(after);
    DivideZeros(0, before);
    DivideConcat(0, Zeros(before) + w, Zeros(after));
    DivideConcat(0, Zeros(before), w);
    DivideZeros(Divide(0, w), after);
    if Divide(0, w) == 0 {
      DivideToZero(0, w);
      BitsOfZero(|w|);
    }
  }

  /** A valid frame altered in an odd number of bits, or by any burst of at most sixteen, is never valid again. */
  lemma ErrorsDetected(f: seq<byte>, g: seq<byte>)
    requires CrcValid(f) && |g| == |f|
    requires var d := Difference(FrameBits(f), FrameBits(g)); Odd(d) || Burst(d)
    ensures !CrcValid(g)
  {
    var d := Difference(FrameBits(f), FrameBits(g));
    ResidueIff(f);
    ResidueIff(g);
    DivideAffine(PRESET, PRESET, FrameBits(f), FrameBits(g));
    assert PRESET ^ PRESET == 0;
    if Burst(d) {
      BurstLeavesRemainder(d);
    } else {
      DivideKeepsOdd(0, d);
      OddZero(16);
    }
  }
}
