/** The client's side as functions: the requests it builds and how it judges an answer. */
module Client {
  import opened Bytes
  import opened Bits
  import opened Protocol
  import opened Memory
  import opened Server

  /** The request PDU that the client calls build. */
  function EncodePdu(q: Request): (p: seq<byte>)
    ensures |p| >= 1 && p[0] == q.Code()
  {
    var f := q.Code();
    match q
    case ReadBits(_, a, n) => [f, Hi(a), Lo(a), Hi(n), Lo(n)]
    case ReadRegisters(_, a, n) => [f, Hi(a), Lo(a), Hi(n), Lo(n)]
    case WriteCoil(a, data, _) => [f, Hi(a), Lo(a), Hi(data), Lo(data)]
    case WriteRegister(a, value, _) => [f, Hi(a), Lo(a), Hi(value), Lo(value)]
    case WriteCoils(a, n, payload) => [f, Hi(a), Lo(a), Hi(n), Lo(n), |payload| % 0x100] + payload
    case WriteRegisters(a, n, payload) => [f, Hi(a), Lo(a), Hi(n), Lo(n), |payload| % 0x100] + payload
    case MaskWrite(a, andMask, orMask, _) =>
      [f, Hi(a), Lo(a), Hi(andMask), Lo(andMask), Hi(orMask), Lo(orMask)]
    case WriteRead(a, n, wa, wn, payload) =>
      [f, Hi(a), Lo(a), Hi(n), Lo(n), Hi(wa), Lo(wa), Hi(wn), Lo(wn), |payload| % 0x100] + payload
    case _ => [f]
  }

  /** The requests that the client calls build when their arguments are in range. */
  predicate ClientBuilt(q: Request)
  {
    match q
    case ReadBits(_, _, n) => 1 <= n <= MAX_READ_BITS
    case ReadRegisters(_, _, n) => 1 <= n <= MAX_READ_REGISTERS
    case WriteCoil(_, data, exact) => exact && (data == 0 || data == 0xFF00)
    case WriteRegister(_, _, exact) => exact
    case WriteCoils(_, n, payload) => 1 <= n <= MAX_WRITE_BITS && |payload| == PackedLength(n)
    case WriteRegisters(_, n, payload) => 1 <= n <= MAX_WRITE_REGISTERS && |payload| == 2 * n
    case ReportSlaveId => true
    case MaskWrite(_, _, _, exact) => exact
    case WriteRead(_, n, _, wn, payload) =>
      1 <= n <= MAX_WR_READ_REGISTERS && 1 <= wn <= MAX_WR_WRITE_REGISTERS && |payload| == 2 * wn
    case _ => false
  }

  /** A client-built request is a complete message and fits. */
  lemma EncodedComplete(q: Request)
    requires ClientBuilt(q)
    ensures Complete(EncodePdu(q), Indication) && |EncodePdu(q)| <= MAX_PDU_LENGTH
  {
  }

  /** The server decodes a client-built request to the same request. */
  lemma EncodeDecode(q: Request)
    requires ClientBuilt(q)
    ensures Arrived(EncodePdu(q)) && DecodePdu(EncodePdu(q)) == q
  {
    EncodedComplete(q);
    if q.WriteCoils? || q.WriteRegisters? {
      DecodeWrites(q);
    } else if q.WriteRead? {
      DecodeWriteRead(q);
    } else {
      DecodeFixed(q);
    }
  }

  lemma DecodeFixed(q: Request)
    requires ClientBuilt(q) && !q.WriteCoils? && !q.WriteRegisters? && !q.WriteRead?
    requires Arrived(EncodePdu(q))
    ensures DecodePdu(EncodePdu(q)) == q
  {
  }

  lemma DecodeWrites(q: Request)
    requires ClientBuilt(q) && (q.WriteCoils? || q.WriteRegisters?)
    requires Arrived(EncodePdu(q))
    ensures DecodePdu(EncodePdu(q)) == q
  {
    var p := EncodePdu(q);
    assert p[5] == |q.payload|;
    assert p[6..6 + p[5]] == q.payload;
  }

  lemma DecodeWriteRead(q: Request)
    requires ClientBuilt(q) && q.WriteRead?
    requires Arrived(EncodePdu(q))
    ensures DecodePdu(EncodePdu(q)) == q
  {
    var p := EncodePdu(q);
    assert p[9] == |q.payload|;
    assert p[10..10 + p[9]] == q.payload;
  }

  function ClientFrame(be: Backend, tid: word, slave: byte, q: Request): (f: seq<byte>)
    requires ClientBuilt(q)
    ensures |f| == be.Header() + |EncodePdu(q)| + be.Checksum()
  {
    EncodedComplete(q);
    Seal(be, Prefix(be, tid), slave, EncodePdu(q))
  }

  // ---- Judging an answer ---------------------------------------------------------

  const LENGTH_UNDEFINED := -1

  /** `compute_response_length_from_request`, counted from the function code `p[0]` of the request on and
      without the checksum. */
  function ResponseLength(p: seq<byte>): int
  {
    var f := Peek(p, 0);
    var nb := Word(Peek(p, 3), Peek(p, 4));
    if f == FC_READ_COILS || f == FC_READ_DISCRETE_INPUTS then 2 + PackedLength(nb)
    else if f == FC_WRITE_AND_READ_REGISTERS || f == FC_READ_HOLDING_REGISTERS || f == FC_READ_INPUT_REGISTERS
    then 2 + 2 * nb
    else if f == FC_READ_EXCEPTION_STATUS then 3
    else if f == FC_REPORT_SLAVE_ID then LENGTH_UNDEFINED
    else if f == FC_MASK_WRITE_REGISTER then 7
    else 5
  }

  /** `compute_response_length_from_request`, header and checksum included. */
  function ComputeResponseLength(be: Backend, req: seq<byte>): int
    requires |req| >= be.Header()
  {
    var n := ResponseLength(req[be.Header()..]);
    if n == LENGTH_UNDEFINED then n else be.Header() + n + be.Checksum()
  }

  datatype Verdict = Accept(nb: nat) | Reject(errno: int)

  /** `pre_check_confirmation`: zero, or the error. */
  function PreCheck(be: Backend, req: seq<byte>, rsp: seq<byte>): int
  {
    match be
    case Rtu =>
      if Peek(req, 0) != Peek(rsp, 0) && Peek(req, 0) != BROADCAST_ADDRESS then EMBBADSLAVE else 0
    case Tcp =>
      if Peek(req, 0) != Peek(rsp, 0) || Peek(req, 1) != Peek(rsp, 1) then EMBBADDATA
      else if Word(Peek(rsp, 2), Peek(rsp, 3)) != 0 then EMBBADDATA
      else 0
  }

  /** `check_confirmation`: the number of values confirmed, or the error. */
  function CheckConfirmation(be: Backend, req: seq<byte>, rsp: seq<byte>, rspLength: int): Verdict
    requires |req| >= be.Header() && |rsp| >= be.Header()
  {
    if PreCheck(be, req, rsp) != 0 then Reject(PreCheck(be, req, rsp))
    else Judge(req[be.Header()..], rsp[be.Header()..], rspLength - be.Header() - be.Checksum())
  }

  /** The part of `check_confirmation` that looks at the request and the response from the function code
      on; `length` is that of the response without header and checksum. */
  function Judge(p: seq<byte>, r: seq<byte>, length: int): Verdict
  {
    var f := Peek(r, 0);
    var computed := ResponseLength(p);
    if f >= 0x80 then
      if length == 2 && Peek(p, 0) == f as int - 0x80 then
        if Peek(r, 1) < EXCEPTION_MAX then Reject(ENOBASE + Peek(r, 1)) else Reject(EMBBADEXC)
      else Reject(EMBBADEXC)
    else if length != computed && computed != LENGTH_UNDEFINED then Reject(EMBBADDATA)
    else if f != Peek(p, 0) then Reject(EMBBADDATA)
    else
      var asked := Word(Peek(p, 3), Peek(p, 4));
      var sameAddress := Peek(p, 1) == Peek(r, 1) && Peek(p, 2) == Peek(r, 2);
      var sameData := Peek(p, 3) == Peek(r, 3) && Peek(p, 4) == Peek(r, 4);
      if f == FC_READ_COILS || f == FC_READ_DISCRETE_INPUTS then
        Compare(PackedLength(asked), Peek(r, 1), true)
      else if f == FC_WRITE_AND_READ_REGISTERS || f == FC_READ_HOLDING_REGISTERS || f == FC_READ_INPUT_REGISTERS then
        Compare(asked, Peek(r, 1) / 2, true)
      else if f == FC_WRITE_MULTIPLE_COILS || f == FC_WRITE_MULTIPLE_REGISTERS then
        Compare(asked, Word(Peek(r, 3), Peek(r, 4)), sameAddress)
      else if f == FC_REPORT_SLAVE_ID then Accept(Peek(r, 1))
      else if f == FC_WRITE_SINGLE_COIL || f == FC_WRITE_SINGLE_REGISTER then
        Compare(1, 1, sameAddress && sameData)
      else Accept(1)
  }

  function Compare(asked: nat, answered: nat, ok: bool): Verdict
  {
    if asked == answered && ok then Accept(answered) else Reject(EMBBADDATA)
  }

  /** The judgement rests on received bytes only: what lies in the buffers behind the request and behind
      the framed response does not matter. A negative `length` stands for an ignored frame. */
  lemma JudgeLocal(p: seq<byte>, x: seq<byte>, r: seq<byte>, y: seq<byte>, length: int)
    requires Complete(p, Indication) && Complete(r, Confirmation) && (length == |r| || length < 0)
    ensures Judge(p + x, r + y, length) == Judge(p, r, length)
  {
    assert forall i :: 0 <= i < |p| ==> Peek(p + x, i) == Peek(p, i);
    assert forall i :: 0 <= i < |r| ==> Peek(r + y, i) == Peek(r, i);
  }

  /** The values that the decoders of the read calls take from the response PDU. */
  function AnsweredBits(r: seq<byte>, n: nat): (bits: seq<byte>)
    ensures |bits| == n
  {
    seq(n, i requires 0 <= i < n => Bit(Peek(r, 2 + i / 8), i % 8))
  }

  function AnsweredWords(r: seq<byte>, n: nat): (ws: seq<word>)
    ensures |ws| == n
  {
    seq(n, i requires 0 <= i < n => Word(Peek(r, 2 + 2 * i), Peek(r, 3 + 2 * i)))
  }

  /** What a client that sent `req` makes of the stream `s`: `pdu` is that of an accepted response. */
  datatype Outcome = Waiting | Failed(errno: int) | Done(nb: nat, pdu: seq<byte>)

  function Await(be: Backend, slave: int, req: seq<byte>, s: seq<byte>): (o: Outcome)
    requires |req| >= be.Header()
  {
    match Frame(be, Confirmation, s)
    case Incomplete => Waiting
    case TooMany(_) => Failed(EMBBADDATA)
    case Framed(n) =>
      var f := s[..n];
      var rc := Integrity(be, slave, f);
      if rc == -1 then Failed(EMBBADCRC)
      else
        match CheckConfirmation(be, req, f, rc)
        case Reject(errno) => Failed(errno)
        case Accept(nb) => Done(nb, f[be.Header()..])
  }
}
