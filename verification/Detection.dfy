/** The CRC on whole messages: it is affine, and no change within two neighbouring bytes escapes it. */
module Detection {
  import opened Bytes
  import opened Crc

  // ---- Sums ------------------------------------------------------------------------------

  /** The exclusive or of two bytes. */
  function Plus(a: byte, b: byte): byte
  {
    ((a as bv8) ^ (b as bv8)) as int
  }

  /** The bytewise exclusive or of two messages. */
  function Sum(m: seq<byte>, e: seq<byte>): (s: seq<byte>)
    requires |m| == |e|
    ensures |s| == |m|
  {
    seq(|m|, i requires 0 <= i < |m| => Plus(m[i], e[i]))
  }

  lemma Widened(a: byte)
    ensures a as bv16 == (a as bv8) as bv16
  {
  }

  lemma EightBitsBack(w: bv8)
    ensures (w as int) as bv8 == w
  {
  }

  lemma WidenedXor(u: bv8, v: bv8)
    ensures (u ^ v) as bv16 == (u as bv16) ^ (v as bv16)
  {
  }

  lemma OctetOfWide(x: byte, w: bv8)
    requires w as int == x
    ensures x as bv16 == w as bv16
  {
    Widened(x);
    EightBitsBack(w);
  }

  lemma OctetOfPlus(a: byte, b: byte)
    ensures Plus(a, b) as bv16 == (a as bv16) ^ (b as bv16)
  {
    OctetOfWide(Plus(a, b), (a as bv8) ^ (b as bv8));
    Widened(a);
    Widened(b);
    WidenedXor(a as bv8, b as bv8);
  }

  lemma LowBitXor(u: bv16, v: bv16)
    ensures ((u ^ v) & 1) as bv1 == ((u & 1) as bv1) ^ ((v & 1) as bv1)
    ensures (u ^ v) >> 1 == (u >> 1) ^ (v >> 1)
  {
  }

  lemma {:induction false} BitsOfXor(u: bv16, v: bv16, n: nat)
    ensures BitsOf(u ^ v, n) == Difference(BitsOf(u, n), BitsOf(v, n))
    decreases n
  {
    if n > 0 {
      LowBitXor(u, v);
      BitsOfXor(u >> 1, v >> 1, n - 1);
      var x, y := (u & 1) as bv1, (v & 1) as bv1;
      DifferenceConcat([x], [y], BitsOf(u >> 1, n - 1), BitsOf(v >> 1, n - 1));
      assert Difference([x], [y]) == [x ^ y];
    }
  }

  lemma {:induction false} BitStreamXor(s: seq<bv16>, t: seq<bv16>, sum: seq<bv16>, n: nat)
    requires |s| == |t| == |sum|
    requires forall i :: 0 <= i < |s| ==> BitsOf(sum[i], n) == Difference(BitsOf(s[i], n), BitsOf(t[i], n))
    ensures BitStream(sum, n) == Difference(BitStream(s, n), BitStream(t, n))
    decreases |s|
  {
    if s != [] {
      BitStreamXor(s[1..], t[1..], sum[1..], n);
      DifferenceConcat(BitsOf(s[0], n), BitsOf(t[0], n), BitStream(s[1..], n), BitStream(t[1..], n));
    }
  }

  lemma BitsOfPlus(a: byte, b: byte, n: nat)
    ensures BitsOf(Plus(a, b) as bv16, n) == Difference(BitsOf(a as bv16, n), BitsOf(b as bv16, n))
  {
    OctetOfPlus(a, b);
    BitsOfXor(a as bv16, b as bv16, n);
  }

  lemma BitStreamOfSum(m: seq<byte>, e: seq<byte>, n: nat)
    requires |m| == |e|
    ensures BitStream(Octets(Sum(m, e)), n) == Difference(BitStream(Octets(m), n), BitStream(Octets(e), n))
  {
    forall i | 0 <= i < |m|
      ensures BitsOf(Octets(Sum(m, e))[i], n) == Difference(BitsOf(Octets(m)[i], n), BitsOf(Octets(e)[i], n))
    {
      BitsOfPlus(m[i], e[i], n);
    }
    BitStreamXor(Octets(m), Octets(e), Octets(Sum(m, e)), n);
  }

  lemma FrameBitsOfSum(m: seq<byte>, e: seq<byte>)
    requires |m| == |e|
    ensures FrameBits(Sum(m, e)) == Difference(FrameBits(m), FrameBits(e))
  {
    BitStreamOfSum(m, e, 8);
  }

  /** The CRC of the sum of two messages is the sum of their CRCs, one of them taken from zero. */
  lemma CrcAffine(m: seq<byte>, e: seq<byte>)
    requires |m| == |e|
    ensures Crc16(Sum(m, e)) == Crc16(m) ^ CrcFrom(0, e)
  {
    FrameBitsOfSum(m, e);
    CrcIsDivision(PRESET, Sum(m, e));
    CrcIsDivision(PRESET, m);
    CrcIsDivision(0, e);
    DivideAffine(PRESET, 0, FrameBits(m), FrameBits(e));
    assert PRESET ^ 0 == PRESET;
  }

  // ---- Neighbouring bytes ------------------------------------------------------------

  lemma FrameBitsConcat(s: seq<byte>, t: seq<byte>)
    ensures FrameBits(s + t) == FrameBits(s) + FrameBits(t)
  {
    OctetsConcat(s, t);
    BitStreamConcat(Octets(s), Octets(t), 8);
  }

  lemma {:induction false} BitStreamInjective(s: seq<bv16>, t: seq<bv16>, n: nat)
    requires |s| == |t| && BitStream(s, n) == BitStream(t, n)
    requires forall i :: 0 <= i < |s| ==> Fits(s[i], n) && Fits(t[i], n)
    ensures s == t
  {
    if s != [] {
      assert BitStream(s, n)[..n] == BitsOf(s[0], n) && BitStream(t, n)[..n] == BitsOf(t[0], n);
      assert BitStream(s, n)[n..] == BitStream(s[1..], n) && BitStream(t, n)[n..] == BitStream(t[1..], n);
      BitsOfInjective(s[0], t[0], n);
      BitStreamInjective(s[1..], t[1..], n);
      assert s == [s[0]] + s[1..] && t == [t[0]] + t[1..];
    }
  }

  lemma Successor(w: bv16)
    requires w < 0xFF
    ensures (w + 1) as int == w as int + 1 && w + 1 <= 0xFF
  {
  }

  /** Every byte is the value of a word. */
  lemma {:induction false} WordOf(a: byte) returns (w: bv16)
    ensures w as int == a && w <= 0xFF
  {
    if a == 0 {
      w := 0;
    } else {
      w := WordOf(a - 1);
      assert 0xFF as bv16 as int == 255;
      Successor(w);
      w := w + 1;
    }
  }

  lemma OctetInjective(a: byte, b: byte)
    requires a as bv16 == b as bv16
    ensures a == b
  {
    var u := WordOf(a);
    var v := WordOf(b);
    RoundTrip(u);
    RoundTrip(v);
  }

  /** Different bytes are different bits. */
  lemma FrameBitsInjective(x: seq<byte>, y: seq<byte>)
    requires |x| == |y| && FrameBits(x) == FrameBits(y)
    ensures x == y
  {
    OctetsFit(x);
    OctetsFit(y);
    BitStreamInjective(Octets(x), Octets(y), 8);
    forall i | 0 <= i < |x|
      ensures x[i] == y[i]
    {
      assert Octets(x)[i] == Octets(y)[i];
      OctetInjective(x[i], y[i]);
    }
  }

  lemma SameBit(x: bv1, y: bv1)
    ensures x ^ y == 0 <==> x == y
  {
  }

  lemma DifferenceZero(a: seq<bv1>, b: seq<bv1>)
    requires |a| == |b|
    ensures Difference(a, b) == Zeros(|a|) <==> a == b
  {
    forall i | 0 <= i < |a|
      ensures Difference(a, b)[i] == 0 <==> a[i] == b[i]
    {
      SameBit(a[i], b[i]);
    }
    if Difference(a, b) == Zeros(|a|) {
      assert forall i :: 0 <= i < |a| ==> Difference(a, b)[i] == Zeros(|a|)[i];
    }
  }

  lemma DifferenceConcat(a: seq<bv1>, b: seq<bv1>, c: seq<bv1>, d: seq<bv1>)
    requires |a| == |b| && |c| == |d|
    ensures Difference(a + c, b + d) == Difference(a, b) + Difference(c, d)
  {
  }

  /** A valid frame in which one byte or two neighbouring ones, CRC bytes included, are replaced by others is
      not valid any more. */
  lemma NeighboursDetected(a: seq<byte>, x: seq<byte>, y: seq<byte>, b: seq<byte>)
    requires |x| == |y| <= 2 && x != y
    requires CrcValid(a + x + b)
    ensures !CrcValid(a + y + b)
  {
    FrameBitsConcat(a + x, b);
    FrameBitsConcat(a + y, b);
    FrameBitsConcat(a, x);
    FrameBitsConcat(a, y);
    var (fa, fx, fy, fb) := (FrameBits(a), FrameBits(x), FrameBits(y), FrameBits(b));
    DifferenceConcat(fa + fx, fa + fy, fb, fb);
    DifferenceConcat(fa, fa, fx, fy);
    DifferenceZero(fa, fa);
    DifferenceZero(fb, fb);
    DifferenceZero(fx, fy);
    if fx == fy {
      FrameBitsInjective(x, y);
    }
    var w := Difference(fx, fy);
    assert Difference(FrameBits(a + x + b), FrameBits(a + y + b)) == Zeros(|fa|) + w + Zeros(|fb|);
    assert Burst(Zeros(|fa|) + w + Zeros(|fb|));
    ErrorsDetected(a + x + b, a + y + b);
  }
}
