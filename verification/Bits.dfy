/** C's bitwise operators on unsigned values, and the packing of bit cells into bytes. */
module Bits {
  import opened Bytes

  /** Bit `k` of `x`, counted from the least significant one. */
  function Bit(x: nat, k: nat): (b: byte)
    ensures b <= 1
    decreases k
  {
    if k == 0 then x % 2 else Bit(x / 2, k - 1)
  }

  function Or(a: nat, b: nat): nat
    decreases a + b
  {
    if a == 0 && b == 0 then 0 else 2 * Or(a / 2, b / 2) + (if a % 2 == 1 || b % 2 == 1 then 1 else 0)
  }

  function And(a: nat, b: nat): (r: nat)
    ensures r <= a && r <= b
    decreases a
  {
    if a == 0 then 0 else 2 * And(a / 2, b / 2) + (if a % 2 == 1 && b % 2 == 1 then 1 else 0)
  }

  function Shl(x: nat, k: nat): nat
    decreases k
  {
    if k == 0 then x else 2 * Shl(x, k - 1)
  }

  lemma {:induction false} OrBit(a: nat, b: nat, k: nat)
    ensures Bit(Or(a, b), k) == 1 <==> Bit(a, k) == 1 || Bit(b, k) == 1
    decreases k
  {
    if k > 0 {
      OrBit(a / 2, b / 2, k - 1);
      assert Or(a, b) / 2 == Or(a / 2, b / 2);
    }
  }

  lemma {:induction false} AndBit(a: nat, b: nat, k: nat)
    ensures Bit(And(a, b), k) == 1 <==> Bit(a, k) == 1 && Bit(b, k) == 1
    decreases k
  {
    if k > 0 {
      AndBit(a / 2, b / 2, k - 1);
      assert And(a, b) / 2 == And(a / 2, b / 2);
    }
  }

  lemma {:induction false} ShlBit(x: nat, s: nat, k: nat)
    ensures Bit(Shl(x, s), k) == if k < s then 0 else Bit(x, k - s)
    decreases k
  {
    if s > 0 {
      assert Shl(x, s) / 2 == Shl(x, s - 1) && Shl(x, s) % 2 == 0;
      if k > 0 {
        ShlBit(x, s - 1, k - 1);
      }
    }
  }

  /** Two values below 2^n with the same bits are equal. */
  lemma {:induction false} SameBits(x: nat, y: nat, n: nat)
    requires x < Shl(1, n) && y < Shl(1, n)
    requires forall k :: 0 <= k < n ==> Bit(x, k) == Bit(y, k)
    ensures x == y
    decreases n
  {
    if n > 0 {
      forall k | 0 <= k < n - 1
        ensures Bit(x / 2, k) == Bit(y / 2, k)
      {
        assert Bit(x, k + 1) == Bit(y, k + 1);
      }
      SameBits(x / 2, y / 2, n - 1);
      assert Bit(x, 0) == Bit(y, 0);
    }
  }

  lemma {:induction false} BitTooHigh(x: nat, n: nat, k: nat)
    requires x < Shl(1, n) && n <= k
    ensures Bit(x, k) == 0
    decreases k
  {
    if k > 0 {
      if n == 0 {
        BitTooHigh(x / 2, 0, k - 1);
      } else {
        BitTooHigh(x / 2, n - 1, k - 1);
      }
    }
  }

  // ---- Packing -------------------------------------------------------------

  predicate IsBit(c: byte) { c <= 1 }

  predicate AllBits(cells: seq<byte>)
  {
    forall i :: 0 <= i < |cells| ==> IsBit(cells[i])
  }

  /** The number of bytes that `n` bits take. */
  function PackedLength(n: nat): nat
  {
    n / 8 + (if n % 8 == 0 then 0 else 1)
  }

  /** The cells one after the other in ascending bit positions, joined by OR as the code does. */
  function Packed(cells: seq<byte>): nat
  {
    if cells == [] then 0 else Or(cells[0], 2 * Packed(cells[1..]))
  }

  /** At most eight cells in one byte; what does not fit in eight bits is cut off. */
  function PackByte(cells: seq<byte>): byte
  {
    Packed(cells) % 0x100
  }

  /** The cells that go into byte `j`. */
  function Octet(cells: seq<byte>, j: nat): seq<byte>
    requires 8 * j <= |cells|
  {
    cells[8 * j..if 8 * j + 8 <= |cells| then 8 * j + 8 else |cells|]
  }

  function PackCells(cells: seq<byte>): (bs: seq<byte>)
    ensures |bs| == PackedLength(|cells|)
  {
    seq(PackedLength(|cells|), j requires 0 <= j < PackedLength(|cells|) => PackByte(Octet(cells, j)))
  }

  /** The first `n` bits of the bytes `bs`, one cell each. */
  function UnpackBits(bs: seq<byte>, n: nat): (cells: seq<byte>)
    requires n <= 8 * |bs|
    ensures |cells| == n
  {
    seq(n, i requires 0 <= i < n => Bit(bs[i / 8], i % 8))
  }

  lemma {:induction false} OrZero(a: nat)
    ensures Or(a, 0) == a && Or(0, a) == a
  {
    if a > 0 {
      OrZero(a / 2);
    }
  }

  lemma {:induction false} OrAssociative(a: nat, b: nat, c: nat)
    ensures Or(Or(a, b), c) == Or(a, Or(b, c))
    decreases a + b + c
  {
    if a + b + c > 0 {
      OrAssociative(a / 2, b / 2, c / 2);
      OrHalf(a, b);
      OrHalf(b, c);
      OrHalf(Or(a, b), c);
      OrHalf(a, Or(b, c));
    }
  }

  lemma OrHalf(a: nat, b: nat)
    ensures Or(a, b) / 2 == Or(a / 2, b / 2)
    ensures Or(a, b) % 2 == if a % 2 == 1 || b % 2 == 1 then 1 else 0
  {
  }

  /** The turn of the packing loop: the next cell is shifted in above the ones already there. */
  lemma {:induction false} PackedAppend(cells: seq<byte>, c: byte)
    ensures Packed(cells + [c]) == Or(Packed(cells), Shl(c, |cells|))
    decreases |cells|
  {
    if cells == [] {
      assert (cells + [c])[1..] == [];
      OrZero(c);
    } else {
      var rest := cells[1..];
      assert (cells + [c])[1..] == rest + [c];
      PackedAppend(rest, c);
      var p, s := Packed(rest), Shl(c, |rest|);
      OrDouble(p, s);
      OrAssociative(cells[0], 2 * p, 2 * s);
    }
  }

  lemma OrDouble(a: nat, b: nat)
    ensures Or(2 * a, 2 * b) == 2 * Or(a, b)
  {
    if a + b > 0 {
      assert Or(2 * a, 2 * b) == 2 * Or(2 * a / 2, 2 * b / 2);
    }
  }

  lemma {:induction false} PackedBit(cells: seq<byte>, k: nat)
    requires AllBits(cells)
    ensures Bit(Packed(cells), k) == if k < |cells| then cells[k] else 0
    ensures Packed(cells) < Shl(1, |cells|)
    decreases |cells|, k
  {
    if cells == [] {
      BitTooHigh(0, 0, k);
    } else {
      var rest := Packed(cells[1..]);
      OrHalf(cells[0], 2 * rest);
      OrZero(rest);
      assert Packed(cells) / 2 == rest && Packed(cells) % 2 == cells[0];
      PackedBit(cells[1..], if k > 0 then k - 1 else 0);
    }
  }

  lemma PackByteBit(cells: seq<byte>, k: nat)
    requires AllBits(cells) && |cells| <= 8
    ensures Bit(PackByte(cells), k) == if k < |cells| then cells[k] else 0
  {
    PackedBit(cells, k);
    ShlAtMost(|cells|);
  }

  lemma ShlAtMost(n: nat)
    requires n <= 8
    ensures Shl(1, n) <= 0x100
  {
    ShlPlus(1, n, 8 - n);
    ShlGrows(Shl(1, n), 8 - n);
    assert Shl(1, 8) == 0x100;
  }

  lemma {:induction false} ShlPlus(x: nat, a: nat, b: nat)
    ensures Shl(Shl(x, a), b) == Shl(x, a + b)
    decreases b
  {
    if b > 0 {
      ShlPlus(x, a, b - 1);
    }
  }

  lemma {:induction false} ShlGrows(x: nat, n: nat)
    ensures x <= Shl(x, n)
    decreases n
  {
    if n > 0 {
      ShlGrows(x, n - 1);
    }
  }

  /** Unpacking is the inverse of packing, on cells that are bits. */
  lemma UnpackPacked(cells: seq<byte>)
    requires AllBits(cells)
    ensures UnpackBits(PackCells(cells), |cells|) == cells
  {
    var back := UnpackBits(PackCells(cells), |cells|);
    forall i | 0 <= i < |cells|
      ensures back[i] == cells[i]
    {
      PackedCellBit(cells, i / 8, i % 8);
    }
  }

  /** Bit `k` of packed byte `j` is the cell `8 j + k`, and the bits after the last cell are zero. */
  lemma PackedCellBit(cells: seq<byte>, j: nat, k: nat)
    requires AllBits(cells) && j < PackedLength(|cells|) && k < 8
    ensures Bit(PackCells(cells)[j], k) == if 8 * j + k < |cells| then cells[8 * j + k] else 0
  {
    PackByteBit(Octet(cells, j), k);
  }

  lemma ByteBits(x: byte, y: byte)
    requires forall k :: 0 <= k < 8 ==> Bit(x, k) == Bit(y, k)
    ensures x == y
  {
    assert Shl(1, 8) == 0x100;
    SameBits(x, y, 8);
  }

  /** Packing is the inverse of unpacking, on bytes whose padding bits are zero. */
  lemma PackUnpacked(bs: seq<byte>, n: nat)
    requires |bs| == PackedLength(n)
    requires forall j, k :: 0 <= j < |bs| && 0 <= k < 8 && n <= 8 * j + k ==> Bit(bs[j], k) == 0
    ensures PackCells(UnpackBits(bs, n)) == bs
  {
    var cells := UnpackBits(bs, n);
    forall j | 0 <= j < |bs|
      ensures PackCells(cells)[j] == bs[j]
    {
      forall k | 0 <= k < 8
        ensures Bit(PackCells(cells)[j], k) == Bit(bs[j], k)
      {
        PackedCellBit(cells, j, k);
        assert 8 * j + k < n ==> cells[8 * j + k] == Bit(bs[(8 * j + k) / 8], (8 * j + k) % 8);
      }
      ByteBits(PackCells(cells)[j], bs[j]);
    }
  }

  // ---- Mask write ------------------------------------------------------------

  function Complement(w: word): word { 0xFFFF - w }

  /** `(current AND and) OR (or AND NOT and)`, the result of a mask write. */
  function Masked(current: word, andMask: word, orMask: word): (r: word)
  {
    var r := Or(And(current, andMask), And(orMask, Complement(andMask)));
    MaskedFits(current, andMask, orMask);
    r
  }

  lemma {:induction false} OrBelow(a: nat, b: nat, n: nat)
    requires a < Shl(1, n) && b < Shl(1, n)
    ensures Or(a, b) < Shl(1, n)
    decreases n
  {
    if n > 0 {
      OrBelow(a / 2, b / 2, n - 1);
      OrHalf(a, b);
    }
  }

  lemma SixteenBits()
    ensures Shl(1, 16) == 0x1_0000
  {
    ShlPlus(1, 8, 8);
    assert Shl(1, 8) == 0x100;
    assert Shl(0x100, 8) == 0x1_0000;
  }

  lemma MaskedFits(current: word, andMask: word, orMask: word)
    ensures Or(And(current, andMask), And(orMask, Complement(andMask))) < 0x1_0000
  {
    SixteenBits();
    OrBelow(And(current, andMask), And(orMask, Complement(andMask)), 16);
  }

  lemma {:induction false} ComplementBit(x: nat, n: nat, k: nat)
    requires x < Shl(1, n) && k < n
    ensures Bit(Shl(1, n) - 1 - x, k) == 1 - Bit(x, k)
    decreases k
  {
    assert Shl(1, n) == 2 * Shl(1, n - 1);
    if k > 0 {
      ComplementBit(x / 2, n - 1, k - 1);
      assert (Shl(1, n) - 1 - x) / 2 == Shl(1, n - 1) - 1 - x / 2;
    }
  }

  /** Section 6.16 of the MODBUS application protocol: bit by bit, the AND mask chooses between the
      current contents and the OR mask. */
  lemma MaskedBit(current: word, andMask: word, orMask: word, k: nat)
    requires k < 16
    ensures Bit(Masked(current, andMask, orMask), k) == if Bit(andMask, k) == 1 then Bit(current, k) else Bit(orMask, k)
  {
    SixteenBits();
    ComplementBit(andMask, 16, k);
    AndBit(current, andMask, k);
    AndBit(orMask, Complement(andMask), k);
    OrBit(And(current, andMask), And(orMask, Complement(andMask)), k);
  }
}
