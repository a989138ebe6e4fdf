/** What is on the wire, byte by byte and in plain numbers, and what a receiver makes of a damaged frame. */
module Wire {
  import opened Bytes
  import opened Bits
  import opened Crc
  import opened Detection
  import opened Protocol
  import opened Memory
  import opened Server
  import opened Client
  import opened Streams
  import opened Gateway

  // ---- Frames --------------------------------------------------------------------------

  /** Section 3.1.3 of the MODBUS messaging guide for TCP/IP: transaction, protocol zero, length, unit, PDU. */
  lemma TcpFrame(tid: word, slave: byte, pdu: seq<byte>)
    requires |pdu| <= 253
    ensures Seal(Tcp, Prefix(Tcp, tid), slave, pdu)
         == [tid / 0x100, tid % 0x100, 0, 0, (|pdu| + 1) / 0x100, (|pdu| + 1) % 0x100, slave] + pdu
  {
  }

  /** Section 2.5.1 of the MODBUS serial line specification: unit, PDU, and the two bytes that make the division of
      the whole frame, with the register preset to all ones, leave nothing. */
  lemma RtuFrame(slave: byte, pdu: seq<byte>)
    requires |pdu| <= 253
    ensures var f := Seal(Rtu, [], slave, pdu);
      |f| == |pdu| + 3 && f[..|pdu| + 1] == [slave] + pdu && Divide(0xFFFF, FrameBits(f)) == 0
  {
    var f := Seal(Rtu, [], slave, pdu);
    AppendedCrcIsValid([slave] + pdu);
    ResidueIff(f);
  }

  /** A TCP frame announces the bytes that follow its length field. */
  predicate SaysLength(f: seq<byte>)
  {
    |f| >= 6 && 0x100 * f[4] as int + f[5] as int == |f| - 6
  }

  lemma SealSaysLength(prefix: seq<byte>, slave: byte, pdu: seq<byte>)
    requires |prefix| == 4 && |pdu| <= MAX_PDU_LENGTH
    ensures SaysLength(Seal(Tcp, prefix, slave, pdu))
  {
  }

  /** The requests of a client and what a gateway passes on. */
  lemma RequestsSayLength(tid: word, slave: byte, q: Request)
    requires ClientBuilt(q)
    ensures SaysLength(ClientFrame(Tcp, tid, slave, q))
    ensures |EncodePdu(q)| <= 253 && SaysLength(Forwarded(Tcp, slave, EncodePdu(q)))
  {
    EncodedComplete(q);
    SealSaysLength(Prefix(Tcp, tid), slave, EncodePdu(q));
    SealSaysLength(Prefix(Tcp, 0), slave, EncodePdu(q));
  }

  /** The answers of a server, to any request. */
  lemma RepliesSayLength(req: seq<byte>, m: Memory, answerBroadcast: bool, version: seq<byte>)
    requires |req| >= 8 && |version| <= MAX_VERSION
    ensures forall f :: f in Reply(Tcp, answerBroadcast, version, m, req).1 ==> SaysLength(f)
  {
    ResponseFits(Tcp, req, m, version);
    var r := Execute(Decode(Tcp, req), m).0;
    SealSaysLength(ResponsePrefix(Tcp, req, r), req[6], ResponsePdu(PduOf(Tcp, req), r, version));
  }

  /** What a gateway relays, or answers itself. */
  lemma RelaysSayLength(req: seq<byte>, back: Backend, rsp: seq<byte>, code: byte)
    requires |req| >= 8 && back.Header() + back.Checksum() <= |rsp| <= back.MaxAdu()
    ensures SaysLength(Relayed(Tcp, req, back, rsp)) && SaysLength(Refusal(Tcp, req, code))
  {
    SealSaysLength(AnswerPrefix(Tcp, req), rsp[back.Header() - 1], Body(back, rsp));
    SealSaysLength(AnswerPrefix(Tcp, req), req[6], [(req[7] as int + 0x80) % 0x100, code]);
  }

  // ---- Damaged frames ----------------------------------------------------------------------

  /** The frame at the head of the stream `s` does not divide to zero. */
  predicate Corrupt(mt: MsgType, s: seq<byte>)
  {
    Frame(Rtu, mt, s).Framed? && Divide(0xFFFF, FrameBits(s[..Frame(Rtu, mt, s).length])) != 0
  }

  /** The code of the integrity check, from the bits of the frame and its first byte. */
  lemma IntegrityCode(slave: int, f: seq<byte>)
    requires |f| >= 2
    ensures Integrity(Rtu, slave, f)
         == if Divide(0xFFFF, FrameBits(f)) != 0 then -1 else if f[0] == slave || f[0] == 0 then |f| else 0
  {
    ResidueIff(f);
  }

  /** A framed message is refused exactly if it is corrupt. */
  lemma RefusedIffCorrupt(slave: int, mt: MsgType, s: seq<byte>)
    requires Frame(Rtu, mt, s).Framed?
    ensures ReceiveCode(Rtu, slave, mt, s) == -1 <==> Corrupt(mt, s)
  {
    IntegrityCode(slave, s[..Frame(Rtu, mt, s).length]);
  }

  /** A client fails on a corrupt answer, whatever it says. */
  lemma CorruptAnswerFails(slave: int, req: seq<byte>, s: seq<byte>)
    requires |req| >= 1 && Corrupt(Confirmation, s)
    ensures Await(Rtu, slave, req, s) == Failed(112345678 + 12)
  {
    RefusedIffCorrupt(slave, Confirmation, s);
  }

  /** It fails on an answer that announces too much. */
  lemma LongAnswerFails(be: Backend, slave: int, req: seq<byte>, s: seq<byte>)
    requires |req| >= be.Header() && Frame(be, Confirmation, s).TooMany?
    ensures Await(be, slave, req, s) == Failed(112345678 + 13)
  {
  }

  /** A valid frame that has been altered in an odd number of bits, or by a burst of at most sixteen, and is still
      framed, is refused by every receiver. */
  lemma AlteredRefused(slave: int, mt: MsgType, f: seq<byte>, g: seq<byte>, rest: seq<byte>)
    requires |f| == |g| >= 2 && Divide(0xFFFF, FrameBits(f)) == 0
    requires var d := Difference(FrameBits(f), FrameBits(g)); Odd(d) || Burst(d)
    requires Frame(Rtu, mt, g) == Framed(|g|)
    ensures ReceiveCode(Rtu, slave, mt, g + rest) == -1
  {
    ResidueIff(f);
    ErrorsDetected(f, g);
    InvalidRefused(slave, mt, g, rest);
  }

  /** So is one in which one byte or two neighbouring ones have been replaced. */
  lemma ReplacedRefused(slave: int, mt: MsgType, a: seq<byte>, x: seq<byte>, y: seq<byte>, b: seq<byte>,
                        rest: seq<byte>)
    requires |x| == |y| <= 2 && x != y
    requires |a + x + b| >= 2 && Divide(0xFFFF, FrameBits(a + x + b)) == 0
    requires Frame(Rtu, mt, a + y + b) == Framed(|a + y + b|)
    ensures ReceiveCode(Rtu, slave, mt, a + y + b + rest) == -1
  {
    ResidueIff(a + x + b);
    NeighboursDetected(a, x, y, b);
    InvalidRefused(slave, mt, a + y + b, rest);
  }

  lemma InvalidRefused(slave: int, mt: MsgType, g: seq<byte>, rest: seq<byte>)
    requires Frame(Rtu, mt, g) == Framed(|g|) && !CrcValid(g)
    ensures ReceiveCode(Rtu, slave, mt, g + rest) == -1
  {
    FrameAtHead(Rtu, mt, g, rest);
    assert (g + rest)[..|g|] == g;
    ResidueIff(g);
    IntegrityCode(slave, g);
  }

  // ---- Lengths --------------------------------------------------------------------------------

  /** The length that the bytes `s`, from the function code on, announce for their PDU; 0 while they do not. */
  function Announced(mt: MsgType, s: seq<byte>): nat
  {
    if |s| == 0 then 0
    else
      match mt
      case Indication =>
        if s[0] <= 6 then 5
        else if s[0] in {15, 16} then if |s| >= 6 then 6 + s[5] as int else 0
        else if s[0] == 22 then 7
        else if s[0] == 23 then if |s| >= 10 then 10 + s[9] as int else 0
        else 1
      case Confirmation =>
        if s[0] in {5, 6, 15, 16} then 5
        else if s[0] == 22 then 7
        else if s[0] in {0, 1, 2, 3, 4, 17, 23} then if |s| >= 2 then 2 + s[1] as int else 0
        else 2
  }

  /** A stream brings a frame exactly when it has the bytes that it announces, and no more than the longest frame:
      256 bytes on a serial line, 260 over TCP. */
  lemma FramedIff(be: Backend, mt: MsgType, s: seq<byte>, n: nat)
    ensures var (before, behind, longest) := if be.Rtu? then (1, 2, 256) else (7, 0, 260);
      Frame(be, mt, s) == Framed(n) <==>
        && |s| > before
        && var pdu := Announced(mt, s[before..]);
           pdu > 0 && n == before + pdu + behind && n <= longest && n <= |s|
  {
  }

  /** A request is cut short exactly when it has not the bytes that it announces. */
  lemma TruncatedIff(be: Backend, req: seq<byte>)
    requires |req| >= (if be.Rtu? then 2 else 8)
    ensures var (before, behind) := if be.Rtu? then (1, 2) else (7, 0);
      var n := |req| - before - behind;
      Decode(be, req).Truncated? <==>
        n < 1 || var a := Announced(Indication, req[before..before + n]); a == 0 || a > n
  {
  }

  /** It is refused for its length exactly when it announces more than that. */
  lemma TooManyIff(be: Backend, mt: MsgType, s: seq<byte>)
    ensures var (before, behind, longest) := if be.Rtu? then (1, 2, 256) else (7, 0, 260);
      Frame(be, mt, s).TooMany? <==> |s| > before && before + Announced(mt, s[before..]) + behind > longest
  {
  }

  // ---- PDUs --------------------------------------------------------------------------------------

  /** The request PDUs of section 6 of the MODBUS application protocol: function code, addresses, quantities and
      values, high bytes first, and what is counted behind its count. */
  lemma RequestBytes(q: Request)
    requires ClientBuilt(q)
    ensures EncodePdu(q) == match q
      case ReadBits(input, a, n) => [if input then 2 else 1, a / 0x100, a % 0x100, n / 0x100, n % 0x100]
      case ReadRegisters(input, a, n) => [if input then 4 else 3, a / 0x100, a % 0x100, n / 0x100, n % 0x100]
      case WriteCoil(a, data, _) => [5, a / 0x100, a % 0x100, if data == 0 then 0 else 0xFF, 0]
      case WriteRegister(a, v, _) => [6, a / 0x100, a % 0x100, v / 0x100, v % 0x100]
      case WriteCoils(a, n, payload) =>
        [15, a / 0x100, a % 0x100, n / 0x100, n % 0x100, (n + 7) / 8] + payload
      case WriteRegisters(a, n, payload) => [16, a / 0x100, a % 0x100, n / 0x100, n % 0x100, 2 * n] + payload
      case MaskWrite(a, x, y, _) => [22, a / 0x100, a % 0x100, x / 0x100, x % 0x100, y / 0x100, y % 0x100]
      case WriteRead(a, n, wa, wn, payload) =>
        [23, a / 0x100, a % 0x100, n / 0x100, n % 0x100, wa / 0x100, wa % 0x100, wn / 0x100, wn % 0x100, 2 * wn]
        + payload
      case _ => [17]
  {
  }

  /** Registers are sent high byte first. */
  lemma RegisterBytes(ws: seq<word>, i: nat)
    requires i < |ws|
    ensures WordBytes(ws)[2 * i] == ws[i] / 0x100 && WordBytes(ws)[2 * i + 1] == ws[i] % 0x100
  {
  }

  /** The `k`-th power of two. */
  function Power(k: nat): (p: nat)
    ensures p > 0
  {
    if k == 0 then 1 else 2 * Power(k - 1)
  }

  lemma HalfFirst(x: nat, p: nat)
    requires p > 0
    ensures x / (2 * p) == x / 2 / p
  {
    var q, r := x / 2 / p, x / 2 % p;
    assert x == 2 * (p * q + r) + x % 2;
    Quotient(x, 2 * p, q, 2 * r + x % 2);
  }

  lemma Quotient(x: nat, d: nat, q: nat, r: nat)
    requires r < d && x == d * q + r
    ensures x / d == q
  {
    var e := x / d - q;
    assert d * e == r - x % d;
  }

  /** The bits of a byte count from the least significant one on. With `Bits.PackByteBit` and `UnpackBits` this is
      the order in which bits are sent. */
  lemma {:induction false} BitValue(x: nat, k: nat)
    ensures Bit(x, k) == x / Power(k) % 2
    decreases k
  {
    if k > 0 {
      BitValue(x / 2, k - 1);
      HalfFirst(x, Power(k - 1));
    }
  }

  /** The answers: an exception has the top bit of the function code set and names its code; a read announces and
      brings its bytes; a single write repeats the request, a multiple one its address and quantity. */
  lemma AnswerBytes(p: seq<byte>, r: Response, version: seq<byte>)
    requires |p| >= 1 && p[0] < 0x80 && (r.EchoRange? ==> |p| >= 5)
    requires r.Cells? ==> |r.bits| <= MAX_READ_BITS
    requires r.Registers? ==> |r.words| <= MAX_READ_REGISTERS
    requires |version| <= MAX_VERSION
    ensures ResponsePdu(p, r, version) == match r
      case Exception(code) => [p[0] + 0x80, code]
      case Cells(bits) => [p[0], (|bits| + 7) / 8] + PackCells(bits)
      case Registers(words) => [p[0], 2 * |words|] + WordBytes(words)
      case Echo => p
      case EchoRange => p[..5]
      case SlaveId => [p[0], |version| + 5, 180, 0xFF, 0x4C, 0x4D, 0x42] + version
  {
  }
}
