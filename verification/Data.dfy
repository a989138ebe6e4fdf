/** The loops of the library that pack and unpack bits, in place. */
module Data {
  import opened Bytes
  import opened Bits

  lemma {:induction false} AndNothing(x: nat)
    ensures And(x, 0) == 0
  {
    if x > 0 {
      AndNothing(x / 2);
    }
  }

  /** Testing a bit with a mask: `x & (1 << k)`. */
  lemma {:induction false} AndPower(x: nat, k: nat)
    ensures And(x, Shl(1, k)) == Shl(Bit(x, k), k)
    decreases k
  {
    if x == 0 {
      BitTooHigh(0, 0, k);
      ShlZero(k);
    } else if k == 0 {
      AndNothing(x / 2);
    } else {
      AndPower(x / 2, k - 1);
      assert Shl(1, k) / 2 == Shl(1, k - 1) && Shl(1, k) % 2 == 0;
    }
  }

  lemma {:induction false} ShlZero(k: nat)
    ensures Shl(0, k) == 0
  {
    if k > 0 {
      ShlZero(k - 1);
    }
  }

  lemma MaskTest(x: nat, k: nat)
    ensures And(x, Shl(1, k)) != 0 <==> Bit(x, k) == 1
  {
    AndPower(x, k);
    ShlZero(k);
    ShlGrows(1, k);
  }

  /** `n` bits of the bytes have been spread over the cells from `idx` on. */
  ghost predicate Spread(cells: seq<byte>, before: seq<byte>, idx: nat, bs: seq<byte>, n: nat)
  {
    && n <= 8 * |bs| && idx + n <= |before|
    && cells == before[..idx] + UnpackBits(bs, n) + before[idx + n..]
  }

  lemma SpreadOneMore(cells: seq<byte>, before: seq<byte>, idx: nat, bs: seq<byte>, n: nat, j: nat, shift: nat,
                      mask: nat)
    returns (value: byte)
    requires n == 8 * j + shift && shift < 8 && j < |bs| && mask == Shl(1, shift)
    requires Spread(cells, before, idx, bs, n) && idx + n < |before|
    ensures value == if And(bs[j], mask) != 0 then 1 else 0
    ensures Spread(cells[idx + n := value], before, idx, bs, n + 1)
  {
    MaskTest(bs[j], shift);
    value := Bit(bs[j], shift);
    UnpackAppend(bs, j, shift);
  }

  lemma UnpackAppend(bs: seq<byte>, j: nat, shift: nat)
    requires shift < 8 && j < |bs|
    ensures UnpackBits(bs, 8 * j + shift + 1) == UnpackBits(bs, 8 * j + shift) + [Bit(bs[j], shift)]
  {
    var n := 8 * j + shift;
    assert n / 8 == j && n % 8 == shift;
  }

  /** One turn of the loops below: the cell gets the bit `shift` of the octet. */
  method SetBit(dest: array<byte>, i: nat, octet: byte, shift: nat,
                ghost before: seq<byte>, ghost idx: nat, ghost bs: seq<byte>, ghost n: nat, ghost j: nat)
    requires n == 8 * j + shift && shift < 8 && j < |bs| && octet == bs[j]
    requires i == idx + n < dest.Length == |before| && Spread(dest[..], before, idx, bs, n)
    modifies dest
    ensures Spread(dest[..], before, idx, bs, n + 1)
  {
    ghost var value := SpreadOneMore(dest[..], before, idx, bs, n, j, shift, Shl(1, shift));
    dest[i] := if And(octet, Shl(1, shift)) != 0 then 1 else 0;
  }

  /** `modbus_set_bits_from_byte`. */
  method SetBitsFromByte(dest: array<byte>, idx: nat, value: byte)
    requires idx + 8 <= dest.Length
    modifies dest
    ensures dest[..] == old(dest[..idx]) + UnpackBits([value], 8) + old(dest[idx + 8..])
  {
    ghost var before := dest[..];
    for i := 0 to 8
      invariant Spread(dest[..], before, idx, [value], i)
    {
      SetBit(dest, idx + i, value, i, before, idx, [value], i, 0);
    }
  }

  /** `modbus_set_bits_from_bytes`: exactly the cells from `idx` to `idx + nb` are set. */
  method SetBitsFromBytes(dest: array<byte>, idx: nat, nb: nat, tabByte: seq<byte>)
    requires idx + nb <= dest.Length && nb <= 8 * |tabByte|
    modifies dest
    ensures dest[..] == old(dest[..idx]) + UnpackBits(tabByte, nb) + old(dest[idx + nb..])
  {
    ghost var before, n: nat, j: nat := dest[..], 0, 0;
    var shift: nat := 0;
    for i := idx to idx + nb
      invariant i == idx + n && n == 8 * j + shift && shift < 8
      invariant Spread(dest[..], before, idx, tabByte, n)
    {
      SetBit(dest, i, tabByte[(i - idx) / 8], shift, before, idx, tabByte, n, j);
      n, j := n + 1, if shift == 7 then j + 1 else j;
      shift := (shift + 1) % 8;
    }
  }

  lemma {:induction false} OrModulo(a: nat, b: nat, n: nat)
    ensures Shl(1, n) > 0 && Or(a % Shl(1, n), b) % Shl(1, n) == Or(a, b) % Shl(1, n)
    decreases n
  {
    if n > 0 {
      OrModulo(a / 2, b / 2, n - 1);
      var p := Shl(1, n - 1);
      assert Shl(1, n) == 2 * p;
      HalfModulo(a, p);
      OrHalf(a, b);
      OrHalf(a % (2 * p), b);
      HalfModulo(Or(a, b), p);
      HalfModulo(Or(a % (2 * p), b), p);
    }
  }

  lemma HalfModulo(x: nat, p: nat)
    requires p > 0
    ensures x % (2 * p) == 2 * (x / 2 % p) + x % 2
    ensures x % (2 * p) / 2 == x / 2 % p && x % (2 * p) % 2 == x % 2
  {
    var q := x / 2 / p;
    assert x == 2 * p * q + (2 * (x / 2 % p) + x % 2);
    DivMod(x, 2 * p, q, 2 * (x / 2 % p) + x % 2);
  }

  lemma DivMod(x: nat, d: nat, q: nat, r: nat)
    requires r < d && x == d * q + r
    ensures x % d == r
  {
    var e := x / d - q;
    assert d * e == r - x % d;
  }

  /** `modbus_get_byte_from_bits`: at most eight cells; the variable holds eight bits throughout. */
  method GetByteFromBits(src: array<byte>, idx: nat, nb: nat) returns (value: byte)
    requires idx + (if nb > 8 then 8 else nb) <= src.Length
    ensures value == PackByte(src[idx..idx + (if nb > 8 then 8 else nb)])
  {
    var count := if nb > 8 then 8 else nb;
    value := 0;
    for i := 0 to count
      invariant value == PackByte(src[idx..idx + i])
    {
      PackedAppend(src[idx..idx + i], src[idx + i]);
      assert src[idx..idx + i + 1] == src[idx..idx + i] + [src[idx + i]];
      OrModulo(Packed(src[idx..idx + i]), Shl(src[idx + i], i), 8);
      assert Shl(1, 8) == 0x100;
      value := Or(value, Shl(src[idx + i], i)) % 0x100;
    }
  }

  /** Reading back the byte that was spread over eight cells. */
  lemma ByteRoundTrip(value: byte)
    ensures PackByte(UnpackBits([value], 8)) == value
  {
    PackUnpacked([value], 8);
    var cells := UnpackBits([value], 8);
    assert Octet(cells, 0) == cells;
    assert PackCells(cells)[0] == value;
  }

  /** `memcpy`. */
  method Copy(to: array<byte>, at: nat, from: seq<byte>)
    requires at + |from| <= to.Length
    modifies to
    ensures to[..at + |from|] == old(to[..at]) + from
  {
    for i := 0 to |from|
      invariant to[..at] == old(to[..at])
      invariant forall k :: 0 <= k < i ==> to[at + k] == from[k]
    {
      to[at + i] := from[i];
    }
    assert to[..at + |from|] == to[..at] + to[at..at + |from|];
  }

  /** The byte under construction in the packing loop holds `shift` cells of octet `j`. */
  ghost predicate Building(cells: seq<byte>, j: nat, shift: nat, oneByte: nat)
  {
    shift <= 8 && 8 * j + shift <= |cells| && oneByte == Packed(cells[8 * j..8 * j + shift])
  }

  lemma PackTurn(cells: seq<byte>, j: nat, shift: nat, oneByte: nat)
    requires Building(cells, j, shift, oneByte) && shift < 8 && 8 * j + shift < |cells|
    ensures Building(cells, j, shift + 1, Or(oneByte, Shl(cells[8 * j + shift], shift)))
  {
    PackedAppend(cells[8 * j..8 * j + shift], cells[8 * j + shift]);
    assert cells[8 * j..8 * j + shift + 1] == cells[8 * j..8 * j + shift] + [cells[8 * j + shift]];
  }

  /** The byte is done when it is full, or when the cells are at their end. */
  lemma Built(cells: seq<byte>, j: nat, shift: nat, oneByte: nat)
    requires Building(cells, j, shift, oneByte) && (shift == 8 || 8 * j + shift == |cells|)
    ensures oneByte % 0x100 == PackByte(Octet(cells, j))
    ensures shift == 8 ==> Building(cells, j + 1, 0, 0)
  {
    assert cells[8 * j..8 * j + shift] == Octet(cells, j);
    assert shift == 8 ==> cells[8 * (j + 1)..8 * (j + 1)] == [];
  }

  /** The first `j` octets of the cells are packed behind the bytes `before`. */
  ghost predicate PackedSoFar(rsp: seq<byte>, before: seq<byte>, cells: seq<byte>, j: nat)
  {
    && j <= PackedLength(|cells|) && |before| + j <= |rsp| && rsp[..|before|] == before
    && forall k :: 0 <= k < j ==> rsp[|before| + k] == PackByte(Octet(cells, k))
  }

  lemma PackedOneMore(rsp: seq<byte>, before: seq<byte>, cells: seq<byte>, j: nat, value: byte)
    requires PackedSoFar(rsp, before, cells, j) && |before| + j < |rsp|
    requires j < PackedLength(|cells|) && value == PackByte(Octet(cells, j))
    ensures PackedSoFar(rsp[|before| + j := value], before, cells, j + 1)
  {
  }

  lemma PackedToTheEnd(rsp: seq<byte>, before: seq<byte>, cells: seq<byte>, j: nat)
    requires PackedSoFar(rsp, before, cells, j) && j == PackedLength(|cells|)
    ensures rsp[..|before| + j] == before + PackCells(cells)
  {
  }

  /** `response_io_status`: the cells from `address` on, packed behind the first `offset` bytes. */
  method ResponseIoStatus(tab: array<byte>, address: nat, nb: nat, rsp: array<byte>, offset: nat)
    returns (end: nat)
    requires tab != rsp && address + nb <= tab.Length && offset + PackedLength(nb) <= rsp.Length
    modifies rsp
    ensures end == offset + PackedLength(nb)
    ensures rsp[..end] == old(rsp[..offset]) + PackCells(tab[address..address + nb])
  {
    ghost var cells, before, j: nat := tab[address..address + nb], rsp[..offset], 0;
    var shift: nat, oneByte: nat := 0, 0;
    end := offset;
    for i := address to address + nb
      invariant end == offset + j && shift < 8 && i == address + 8 * j + shift
      invariant Building(cells, j, shift, oneByte) && PackedSoFar(rsp[..], before, cells, j)
    {
      PackTurn(cells, j, shift, oneByte);
      oneByte := Or(oneByte, Shl(tab[i], shift));
      if shift == 7 {
        Built(cells, j, 8, oneByte);
        PackedOneMore(rsp[..], before, cells, j, oneByte % 0x100);
        rsp[end] := oneByte % 0x100;
        end, j := end + 1, j + 1;
        oneByte, shift := 0, 0;
      } else {
        shift := shift + 1;
      }
    }
    if shift != 0 {
      Built(cells, j, shift, oneByte);
      PackedOneMore(rsp[..], before, cells, j, oneByte % 0x100);
      rsp[end] := oneByte % 0x100;
      end, j := end + 1, j + 1;
    }
    PackedToTheEnd(rsp[..], before, cells, j);
  }

  /** A one stays within a byte for the first eight shifts. */
  lemma ByteShift(shift: nat)
    requires shift <= 8
    ensures Shl(1, shift) < 0x100 <==> shift < 8
  {
    assert Shl(1, 8) == 0x100;
    ShlPlus(1, shift, 8 - shift);
    if shift < 8 {
      assert Shl(Shl(1, shift), 8 - shift) == 2 * Shl(Shl(1, shift), 7 - shift);
      ShlGrows(Shl(1, shift), 7 - shift);
    }
  }

  /** What the packing of a source makes of its cells: every non-zero one is a one. */
  function Normal(src: seq<byte>): (cells: seq<byte>)
    ensures |cells| == |src| && AllBits(cells)
  {
    seq(|src|, i requires 0 <= i < |src| => if src[i] != 0 then 1 else 0)
  }

  /** Clearing a bit above all those set changes nothing; setting it fits in a byte. */
  lemma BitUpdate(cells: seq<byte>, j: nat, shift: nat, oneByte: nat)
    requires Building(cells, j, shift, oneByte) && shift < 8 && 8 * j + shift < |cells| && AllBits(cells)
    ensures oneByte < 0x100 && Shl(1, shift) < 0x100 && Or(oneByte, Shl(1, shift)) < 0x100
    ensures Or(oneByte, Shl(0, shift)) == oneByte && And(oneByte, 0xFF - Shl(1, shift)) == oneByte
  {
    PackedBit(cells[8 * j..8 * j + shift], 0);
    ByteShift(shift);
    ShlZero(shift);
    OrZero(oneByte);
    assert Shl(1, 8) == 0x100;
    ShlBelow(shift, 8);
    OrBelow(oneByte, Shl(1, shift), 8);
    AndKeeps(oneByte, shift);
  }

  lemma {:induction false} ShlBelow(a: nat, b: nat)
    requires a <= b
    ensures Shl(1, a) <= Shl(1, b)
    decreases b
  {
    if a < b {
      ShlBelow(a, b - 1);
    }
  }

  lemma AndKeeps(x: nat, shift: nat)
    requires shift < 8 && x < Shl(1, shift)
    ensures Shl(1, shift) < 0x100 && And(x, 0xFF - Shl(1, shift)) == x
  {
    ByteShift(shift);
    assert Shl(1, 8) == 0x100;
    ShlBelow(shift, 8);
    forall k | 0 <= k < 8
      ensures Bit(And(x, 0xFF - Shl(1, shift)), k) == Bit(x, k)
    {
      AndBit(x, 0xFF - Shl(1, shift), k);
      ComplementBit(Shl(1, shift), 8, k);
      ShlBit(1, shift, k);
      if k >= shift {
        BitTooHigh(x, shift, k);
      }
    }
    SameBits(And(x, 0xFF - Shl(1, shift)), x, 8);
  }

  /** One turn of the loop: the bit is set or cleared in a byte, and the byte holds one cell more. */
  lemma PackUpdate(cells: seq<byte>, j: nat, shift: nat, oneByte: nat, bit: nat, source: byte)
    requires Building(cells, j, shift, oneByte) && shift < 8 && 8 * j + shift < |cells| && AllBits(cells)
    requires bit == Shl(1, shift) && cells[8 * j + shift] == if source != 0 then 1 else 0
    ensures bit < 0x100 && 2 * bit == Shl(1, shift + 1)
    ensures var value := if source != 0 then Or(oneByte, bit) else And(oneByte, 0xFF - bit);
      value < 0x100 && Building(cells, j, shift + 1, value)
  {
    BitUpdate(cells, j, shift, oneByte);
    PackTurn(cells, j, shift, oneByte);
    ShlPlus(1, shift, 1);
  }

  /** The inner loop: the cells of octet `i` of the source, from `pos` on, into one byte. */
  method PackOctet(src: seq<byte>, nb: nat, i: nat, pos: nat, req: array<byte>, at: nat) returns (pos': nat)
    requires nb <= |src| && pos == 8 * i < nb && at < req.Length
    modifies req
    ensures pos' == if pos + 8 <= nb then pos + 8 else nb
    ensures req[at] == PackByte(Octet(Normal(src[..nb]), i))
    ensures forall k :: 0 <= k < req.Length && k != at ==> req[k] == old(req[k])
  {
    ghost var cells := Normal(src[..nb]);
    ghost var shift: nat := 0;
    var bit: nat := 1;
    pos' := pos;
    req[at] := 0;
    while bit < 0x100 && pos' < nb
      invariant shift <= 8 && bit == Shl(1, shift) && pos' == 8 * i + shift <= nb
      invariant Building(cells, i, shift, req[at])
      invariant forall k :: 0 <= k < req.Length && k != at ==> req[k] == old(req[k])
      decreases nb - pos'
    {
      PackUpdate(cells, i, shift, req[at], bit, src[pos']);
      req[at] := if src[pos'] != 0 then Or(req[at], bit) else And(req[at], 0xFF - bit);
      pos', bit, shift := pos' + 1, 2 * bit, shift + 1;
    }
    ByteShift(shift);
    Built(cells, i, shift, req[at]);
  }

  /** The packing loops of `modbus_write_bits`. */
  method PackSource(src: seq<byte>, nb: nat, req: array<byte>, offset: nat) returns (end: nat)
    requires nb <= |src| && offset + PackedLength(nb) <= req.Length
    modifies req
    ensures end == offset + PackedLength(nb)
    ensures req[..end] == old(req[..offset]) + PackCells(Normal(src[..nb]))
  {
    var pos: nat := 0;
    end := offset;
    for i := 0 to PackedLength(nb)
      invariant end == offset + i && pos == (if 8 * i <= nb then 8 * i else nb)
      invariant forall j :: 0 <= j < i ==> req[offset + j] == PackByte(Octet(Normal(src[..nb]), j))
      invariant forall k :: 0 <= k < offset ==> req[k] == old(req[k])
    {
      pos := PackOctet(src, nb, i, pos, req, end);
      end := end + 1;
    }
  }
}
