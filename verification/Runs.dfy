/** The server over whole runs: what every request keeps, and what one request changes. */
module Runs {
  import opened Bytes
  import opened Bits
  import opened Protocol
  import opened Memory
  import opened Server

  /** The memory after the requests `reqs` have been answered one after the other. */
  function Serve(be: Backend, answerBroadcast: bool, version: seq<byte>, m: Memory, reqs: seq<seq<byte>>): Memory
    requires |version| <= MAX_VERSION
    requires forall req :: req in reqs ==> |req| >= be.Header() + 1
    decreases |reqs|
  {
    if reqs == [] then m
    else Serve(be, answerBroadcast, version, Reply(be, answerBroadcast, version, m, reqs[0]).0, reqs[1..])
  }

  /** The frames sent in answer to them. */
  function Sent(be: Backend, answerBroadcast: bool, version: seq<byte>, m: Memory, reqs: seq<seq<byte>>)
    : seq<seq<byte>>
    requires |version| <= MAX_VERSION
    requires forall req :: req in reqs ==> |req| >= be.Header() + 1
    decreases |reqs|
  {
    if reqs == [] then []
    else
      var (after, sent) := Reply(be, answerBroadcast, version, m, reqs[0]);
      sent + Sent(be, answerBroadcast, version, after, reqs[1..])
  }

  /** The tables have kept their addresses, and the input tables their contents. */
  predicate SameFrame(m: Memory, m': Memory)
  {
    && m'.inputs == m.inputs && m'.inputRegisters == m.inputRegisters
    && m'.coils.start == m.coils.start && |m'.coils.cells| == |m.coils.cells|
    && m'.holding.start == m.holding.start && |m'.holding.cells| == |m.holding.cells|
  }

  lemma WriteKeepsBits(t: Table<byte>, a: int, vs: seq<byte>)
    requires t.Covers(a, |vs|) && AllBits(t.cells) && AllBits(vs)
    ensures AllBits(t.Write(a, vs).cells)
  {
  }

  lemma ExecuteKeeps(q: Request, m: Memory)
    requires AllBits(m.coils.cells)
    ensures var m' := Execute(q, m).1; SameFrame(m, m') && AllBits(m'.coils.cells)
  {
    var (r, m') := Execute(q, m);
    if q.WriteCoil? && r.Echo? {
      WriteKeepsBits(m.coils, q.addr, [if q.data == 0 then 0 else 1]);
    } else if q.WriteCoils? && r.EchoRange? {
      WriteKeepsBits(m.coils, q.addr, UnpackBits(q.payload, q.nb));
    }
  }

  /** Over any run of arbitrary requests, coils stay 0 or 1 and the input tables never change. */
  lemma {:induction false} ServeKeeps(be: Backend, answerBroadcast: bool, version: seq<byte>, m: Memory,
                                      reqs: seq<seq<byte>>)
    requires |version| <= MAX_VERSION
    requires forall req :: req in reqs ==> |req| >= be.Header() + 1
    requires AllBits(m.coils.cells)
    ensures var m' := Serve(be, answerBroadcast, version, m, reqs); SameFrame(m, m') && AllBits(m'.coils.cells)
    decreases |reqs|
  {
    if reqs != [] {
      ExecuteKeeps(Decode(be, reqs[0]), m);
      ServeKeeps(be, answerBroadcast, version, Reply(be, answerBroadcast, version, m, reqs[0]).0, reqs[1..]);
    }
  }

  /** The coil addresses that a request may write. */
  predicate WritesCoil(q: Request, b: int)
  {
    (q.WriteCoil? && b == q.addr) || (q.WriteCoils? && q.addr <= b < q.addr + q.nb)
  }

  /** The register addresses that a request may write. */
  predicate WritesRegister(q: Request, b: int)
  {
    || ((q.WriteRegister? || q.MaskWrite?) && b == q.addr)
    || (q.WriteRegisters? && q.addr <= b < q.addr + q.nb)
    || (q.WriteRead? && q.writeAddr <= b < q.writeAddr + q.writeNb)
  }

  /** An exception leaves everything as it was; any other answer changes the addressed cells only. */
  lemma ChangesAddressedOnly(q: Request, m: Memory, b: int)
    ensures var (r, m') := Execute(q, m);
      && (r.Exception? ==> m' == m)
      && SameFrame(m, m')
      && (m.coils.Covers(b, 1) && !WritesCoil(q, b) ==> m'.coils.At(b) == m.coils.At(b))
      && (m.holding.Covers(b, 1) && !WritesRegister(q, b) ==> m'.holding.At(b) == m.holding.At(b))
  {
    var r := Execute(q, m).0;
    if !r.Exception? && m.coils.Covers(b, 1) && (q.WriteCoil? || q.WriteCoils?) {
      m.coils.WriteAt(q.addr, CoilsWritten(q), b);
    }
    if !r.Exception? && m.holding.Covers(b, 1) && WritesRegisters(q) {
      m.holding.WriteAt(if q.WriteRead? then q.writeAddr else q.addr, WordsWritten(q, m), b);
    }
  }

  /** The cells that a coil write puts from its address on. */
  function CoilsWritten(q: Request): seq<byte>
    requires q.WriteCoil? || (q.WriteCoils? && q.nb <= 8 * |q.payload|)
  {
    if q.WriteCoil? then [if q.data == 0 then 0 else 1] else UnpackBits(q.payload, q.nb)
  }

  predicate WritesRegisters(q: Request) { q.WriteRegister? || q.WriteRegisters? || q.MaskWrite? || q.WriteRead? }

  /** The registers that a register write puts from its address on. */
  function WordsWritten(q: Request, m: Memory): seq<word>
    requires WritesRegisters(q) && (q.MaskWrite? ==> m.holding.Covers(q.addr, 1))
  {
    match q
    case WriteRegister(_, value, _) => [value]
    case MaskWrite(a, andMask, orMask, _) => [Masked(m.holding.At(a), andMask, orMask)]
    case WriteRegisters(_, _, payload) => BytesWords(payload)
    case WriteRead(_, _, _, _, payload) => BytesWords(payload)
  }

  /** What a write has put is what a read of the same addresses finds. */
  lemma CoilsReadBack(q: Request, m: Memory)
    requires (q.WriteCoil? || q.WriteCoils?) && !Execute(q, m).0.Exception?
    ensures var vs := CoilsWritten(q);
      Execute(ReadBits(false, q.addr, |vs|), Execute(q, m).1).0 == Cells(vs)
  {
    m.coils.ReadBack(q.addr, CoilsWritten(q));
  }

  lemma WordsReadBack(q: Request, m: Memory)
    requires WritesRegisters(q) && !Execute(q, m).0.Exception?
    ensures var (a, vs) := (if q.WriteRead? then q.writeAddr else q.addr, WordsWritten(q, m));
      Execute(ReadRegisters(false, a, |vs|), Execute(q, m).1).0 == Registers(vs)
  {
    m.holding.ReadBack(if q.WriteRead? then q.writeAddr else q.addr, WordsWritten(q, m));
  }

  /** What a successful write leaves at each address it names, under the shift of the start address. */
  lemma WrittenCoil(q: Request, m: Memory, b: int)
    requires !Execute(q, m).0.Exception? && WritesCoil(q, b)
    ensures m.coils.Covers(b, 1)
    ensures q.WriteCoil? ==> Execute(q, m).1.coils.At(b) == if q.data == 0xFF00 then 1 else 0
    ensures q.WriteCoils? ==> (b - q.addr) / 8 < |q.payload|
    ensures q.WriteCoils? ==> Execute(q, m).1.coils.At(b) == Bit(q.payload[(b - q.addr) / 8], (b - q.addr) % 8)
  {
  }

  lemma WrittenRegister(q: Request, m: Memory, b: int)
    requires !Execute(q, m).0.Exception? && WritesRegister(q, b)
    ensures m.holding.Covers(b, 1)
    ensures q.WriteRegister? ==> Execute(q, m).1.holding.At(b) == q.value
    ensures q.WriteRegisters? || q.WriteRead? ==>
      var i := b - (if q.WriteRead? then q.writeAddr else q.addr);
      2 * i + 1 < |q.payload| && Execute(q, m).1.holding.At(b) == Word(q.payload[2 * i], q.payload[2 * i + 1])
  {
  }

  /** A mask write, bit by bit. */
  lemma MaskWriteBit(q: Request, m: Memory, k: nat)
    requires q.MaskWrite? && k < 16 && Execute(q, m).0.Echo?
    ensures m.holding.Covers(q.addr, 1)
    ensures Bit(Execute(q, m).1.holding.At(q.addr), k)
         == if Bit(q.andMask, k) == 1 then Bit(m.holding.At(q.addr), k) else Bit(q.orMask, k)
  {
    MaskedBit(m.holding.At(q.addr), q.andMask, q.orMask, k);
  }

  /** Write-and-read answers with the registers as they are after the write. */
  lemma ReadsAfterWriting(q: Request, m: Memory, i: nat)
    requires q.WriteRead? && Execute(q, m).0.Registers? && i < q.nb
    ensures var (r, m') := Execute(q, m);
      |r.words| == q.nb && m'.holding.Covers(q.addr + i, 1) && r.words[i] == m'.holding.At(q.addr + i)
  {
    Execute(q, m).1.holding.ReadAt(q.addr, q.nb, i);
  }

  // ---- Refusals ------------------------------------------------------------------------------

  /** The quantity, or the byte count, is not one that the function allows. */
  predicate BadQuantity(q: Request)
  {
    match q
    case ReadBits(_, _, n) => n == 0 || n > 2000
    case ReadRegisters(_, _, n) => n == 0 || n > 125
    case WriteCoils(_, n, payload) => n == 0 || n > 1968 || |payload| < (n + 7) / 8
    case WriteRegisters(_, n, payload) => n == 0 || n > 123 || |payload| != 2 * n
    case WriteRead(_, n, _, wn, payload) => n == 0 || n > 125 || wn == 0 || wn > 121 || |payload| != 2 * wn
    case _ => false
  }

  /** The value is not one that the function allows, or there are bytes behind it. */
  predicate BadValue(q: Request)
  {
    match q
    case WriteCoil(_, data, exact) => !exact || (data != 0 && data != 0xFF00)
    case WriteRegister(_, _, exact) => !exact
    case MaskWrite(_, _, _, exact) => !exact
    case _ => false
  }

  /** Some address from `a` on, of `n`, is none of the `size` from `start` on. */
  predicate Outside(start: nat, size: nat, a: int, n: int)
  {
    exists b :: a <= b < a + n && !InTable(start, size, b)
  }

  predicate InTable(start: nat, size: nat, address: int) { start <= address < start + size }

  predicate BadAddress(q: Request, m: Memory)
  {
    match q
    case ReadBits(input, a, n) =>
      if input then Outside(m.inputs.start, |m.inputs.cells|, a, n) else Outside(m.coils.start, |m.coils.cells|, a, n)
    case ReadRegisters(input, a, n) =>
      if input then Outside(m.inputRegisters.start, |m.inputRegisters.cells|, a, n)
      else Outside(m.holding.start, |m.holding.cells|, a, n)
    case WriteCoil(a, _, _) => Outside(m.coils.start, |m.coils.cells|, a, 1)
    case WriteCoils(a, n, _) => Outside(m.coils.start, |m.coils.cells|, a, n)
    case WriteRegister(a, _, _) => Outside(m.holding.start, |m.holding.cells|, a, 1)
    case MaskWrite(a, _, _, _) => Outside(m.holding.start, |m.holding.cells|, a, 1)
    case WriteRegisters(a, n, _) => Outside(m.holding.start, |m.holding.cells|, a, n)
    case WriteRead(a, n, wa, wn, _) =>
      || Outside(m.holding.start, |m.holding.cells|, a, n)
      || Outside(m.holding.start, |m.holding.cells|, wa, wn)
    case _ => false
  }

  lemma OutsideIff(start: nat, size: nat, a: int, n: int)
    requires n >= 1
    ensures Outside(start, size, a, n) <==> !(start <= a && a + n <= start + size)
  {
    if InTable(start, size, a) {
      assert InTable(start, size, a + n - 1) || Outside(start, size, a, n);
    }
  }

  predicate OfSeveral(q: Request)
  {
    q.ReadBits? || q.ReadRegisters? || q.WriteCoils? || q.WriteRegisters? || q.WriteRead?
  }

  predicate OfOne(q: Request) { q.WriteCoil? || q.WriteRegister? || q.MaskWrite? }

  /** The exception that refuses a request. For one cell the address is checked first; for several the quantity. */
  lemma RefusalCode(q: Request, m: Memory)
    ensures var r := Execute(q, m).0;
      && (r == Exception(1) <==> q.Unknown? || q.ReadExceptionStatus?)
      && (OfSeveral(q) ==> (r == Exception(3) <==> BadQuantity(q)))
      && (OfSeveral(q) ==> (r == Exception(2) <==> !BadQuantity(q) && BadAddress(q, m)))
      && (OfOne(q) ==> (r == Exception(2) <==> BadAddress(q, m)))
      && (OfOne(q) ==> (r == Exception(3) <==> !BadAddress(q, m) && BadValue(q)))
      && (q.Truncated? ==> r == Exception(3))
      && (q.ReportSlaveId? ==> r == SlaveId)
      && (r.Exception? ==> r.code in {1, 2, 3})
  {
    match q
    case ReadBits(input, a, n) =>
      if n > 0 {
        var t := if input then m.inputs else m.coils;
        OutsideIff(t.start, |t.cells|, a, n);
      }
    case ReadRegisters(input, a, n) =>
      if n > 0 {
        var t := if input then m.inputRegisters else m.holding;
        OutsideIff(t.start, |t.cells|, a, n);
      }
    case WriteCoils(a, n, _) =>
      if n > 0 {
        OutsideIff(m.coils.start, |m.coils.cells|, a, n);
      }
    case WriteRegisters(a, n, _) =>
      if n > 0 {
        OutsideIff(m.holding.start, |m.holding.cells|, a, n);
      }
    case WriteRead(a, n, wa, wn, _) =>
      if n > 0 && wn > 0 {
        OutsideIff(m.holding.start, |m.holding.cells|, a, n);
        OutsideIff(m.holding.start, |m.holding.cells|, wa, wn);
      }
    case WriteCoil(a, _, _) =>
      OutsideIff(m.coils.start, |m.coils.cells|, a, 1);
    case WriteRegister(a, _, _) =>
      OutsideIff(m.holding.start, |m.holding.cells|, a, 1);
    case MaskWrite(a, _, _, _) =>
      OutsideIff(m.holding.start, |m.holding.cells|, a, 1);
    case _ =>
  }

  /** The functions that the server knows. */
  lemma KnownFunctions(p: seq<byte>)
    requires Arrived(p)
    ensures DecodePdu(p).Unknown? <==> p[0] !in {1, 2, 3, 4, 5, 6, 7, 15, 16, 17, 22, 23}
    ensures DecodePdu(p).ReadExceptionStatus? <==> p[0] == 7
  {
  }

  /** What a read finds: each function has its own table. */
  lemma ReadAnswers(q: Request, m: Memory, i: nat)
    requires !Execute(q, m).0.Exception? && (q.ReadBits? || q.ReadRegisters?) && i < q.nb
    ensures q.ReadBits? ==>
      var (r, t) := (Execute(q, m).0, if q.input then m.inputs else m.coils);
      && r.Cells? && |r.bits| == q.nb && 0 <= q.addr + i - t.start < |t.cells|
      && r.bits[i] == t.cells[q.addr + i - t.start]
    ensures q.ReadRegisters? ==>
      var (r, t) := (Execute(q, m).0, if q.input then m.inputRegisters else m.holding);
      && r.Registers? && |r.words| == q.nb && 0 <= q.addr + i - t.start < |t.cells|
      && r.words[i] == t.cells[q.addr + i - t.start]
  {
  }

  /** A request is refused exactly when its quantity or value is out of range, when it names an address
      outside the tables, when its fields are not all there or not alone, or when its function is unknown. */
  lemma RefusedIff(q: Request, m: Memory)
    ensures Execute(q, m).0.Exception? <==> !Acceptable(q, m)
  {
  }

  predicate Acceptable(q: Request, m: Memory)
  {
    match q
    case ReadBits(input, a, n) => 1 <= n <= MAX_READ_BITS && BitTable(m, input).Covers(a, n)
    case ReadRegisters(input, a, n) => 1 <= n <= MAX_READ_REGISTERS && WordTable(m, input).Covers(a, n)
    case WriteCoil(a, data, exact) => exact && data in {0, 0xFF00} && m.coils.Covers(a, 1)
    case WriteRegister(a, _, exact) => exact && m.holding.Covers(a, 1)
    case WriteCoils(a, n, payload) => 1 <= n <= MAX_WRITE_BITS && n <= 8 * |payload| && m.coils.Covers(a, n)
    case WriteRegisters(a, n, payload) =>
      1 <= n <= MAX_WRITE_REGISTERS && |payload| == 2 * n && m.holding.Covers(a, n)
    case MaskWrite(a, _, _, exact) => exact && m.holding.Covers(a, 1)
    case WriteRead(a, n, wa, wn, payload) =>
      && 1 <= n <= MAX_WR_READ_REGISTERS && 1 <= wn <= MAX_WR_WRITE_REGISTERS && |payload| == 2 * wn
      && m.holding.Covers(a, n) && m.holding.Covers(wa, wn)
    case ReportSlaveId => true
    case _ => false
  }
}
