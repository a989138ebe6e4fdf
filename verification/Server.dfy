/** The server as a function of the memory and the request bytes: decoding, executing, encoding. */
module Server {
  import opened Bytes
  import opened Bits
  import opened Protocol
  import opened Memory

  /** The request that the bytes `req` carry; in RTU the last two are the checksum. Bytes missing from the
      PDU make the request `Truncated`, as `modbus_reply` checks before it reads any field. */
  function Decode(be: Backend, req: seq<byte>): (q: Request)
    requires |req| >= be.Header() + 1
    ensures q.Code() == req[be.Header()]
  {
    var h, f := be.Header(), req[be.Header()];
    var n := |req| - h - be.Checksum();
    if n < 1 || n < 1 + MetaLength(f, Indication) then Truncated(f)
    else
      var pdu := req[h..h + n];
      if n < 1 + MetaLength(f, Indication) + DataLength(pdu, Indication) then Truncated(f)
      else DecodePdu(pdu)
  }

  /** The message that `pdu` starts with is all there. */
  predicate Arrived(pdu: seq<byte>)
  {
    && |pdu| >= 1
    && |pdu| >= 1 + MetaLength(pdu[0], Indication)
    && |pdu| >= 1 + MetaLength(pdu[0], Indication) + DataLength(pdu, Indication)
  }

  function DecodePdu(pdu: seq<byte>): (q: Request)
    requires Arrived(pdu)
    ensures q.Code() == pdu[0]
  {
    var f := pdu[0];
    if f == FC_READ_COILS || f == FC_READ_DISCRETE_INPUTS then
      ReadBits(f == FC_READ_DISCRETE_INPUTS, Word(pdu[1], pdu[2]), Word(pdu[3], pdu[4]))
    else if f == FC_READ_HOLDING_REGISTERS || f == FC_READ_INPUT_REGISTERS then
      ReadRegisters(f == FC_READ_INPUT_REGISTERS, Word(pdu[1], pdu[2]), Word(pdu[3], pdu[4]))
    else if f == FC_WRITE_SINGLE_COIL then
      WriteCoil(Word(pdu[1], pdu[2]), Word(pdu[3], pdu[4]), |pdu| == 5)
    else if f == FC_WRITE_SINGLE_REGISTER then
      WriteRegister(Word(pdu[1], pdu[2]), Word(pdu[3], pdu[4]), |pdu| == 5)
    else if f == FC_WRITE_MULTIPLE_COILS then
      WriteCoils(Word(pdu[1], pdu[2]), Word(pdu[3], pdu[4]), pdu[6..6 + pdu[5]])
    else if f == FC_WRITE_MULTIPLE_REGISTERS then
      WriteRegisters(Word(pdu[1], pdu[2]), Word(pdu[3], pdu[4]), pdu[6..6 + pdu[5]])
    else if f == FC_REPORT_SLAVE_ID then ReportSlaveId
    else if f == FC_READ_EXCEPTION_STATUS then ReadExceptionStatus
    else if f == FC_MASK_WRITE_REGISTER then
      MaskWrite(Word(pdu[1], pdu[2]), Word(pdu[3], pdu[4]), Word(pdu[5], pdu[6]), |pdu| == 7)
    else if f == FC_WRITE_AND_READ_REGISTERS then
      WriteRead(Word(pdu[1], pdu[2]), Word(pdu[3], pdu[4]), Word(pdu[5], pdu[6]), Word(pdu[7], pdu[8]),
                pdu[10..10 + pdu[9]])
    else Unknown(f)
  }

  /** "LMB", which starts the text of a slave identifier; the version follows. */
  const LMB: seq<byte> := [0x4C, 0x4D, 0x42]
  const REPORT_SLAVE_ID: byte := 180

  /** The longest version text for which the slave identifier still fits in an RTU frame. */
  const MAX_VERSION := 246

  /** The bytes of a slave identifier behind their count: identifier, run indicator (on), and the text. */
  function Identifier(version: seq<byte>): (s: seq<byte>)
    ensures |s| == 5 + |version| && s[..5] == [180, 0xFF, 0x4C, 0x4D, 0x42] && s[5..] == version
  {
    [REPORT_SLAVE_ID, 0xFF] + LMB + version
  }

  /** The response PDU to a request whose PDU starts with `pdu`. */
  function ResponsePdu(pdu: seq<byte>, r: Response, version: seq<byte>): (p: seq<byte>)
    requires |pdu| >= 1 && (r.EchoRange? ==> |pdu| >= 5)
  {
    match r
    case Cells(bits) => [pdu[0], PackedLength(|bits|) % 0x100] + PackCells(bits)
    case Registers(words) => [pdu[0], 2 * |words| % 0x100] + WordBytes(words)
    case Echo => pdu
    case EchoRange => pdu[..5]
    case SlaveId => [pdu[0], (5 + |version|) % 0x100, REPORT_SLAVE_ID, 0xFF] + LMB + version
    case Exception(code) => [(pdu[0] as int + 0x80) % 0x100, code]
  }

  /** The PDU of a request, whole or cut short: what lies between the header and the checksum. */
  function PduOf(be: Backend, req: seq<byte>): (p: seq<byte>)
    requires |req| >= be.Header() + 1
    ensures |p| >= 1 && p[0] == req[be.Header()]
  {
    if |req| - be.Checksum() > be.Header() then req[be.Header()..|req| - be.Checksum()] else [req[be.Header()]]
  }

  /** The identifiers of the response: the transaction is the request's; the protocol identifier is
      zero, except that a request echoed as a whole brings its own along. */
  function ResponsePrefix(be: Backend, req: seq<byte>, r: Response): (p: seq<byte>)
    requires |req| >= be.Header() + 1
    ensures |p| == if be.Rtu? then 0 else 4
  {
    if be.Rtu? then [] else if r.Echo? then req[..4] else req[..2] + [0, 0]
  }

  /** `build_response_basis` takes its identifiers from the request. */
  lemma EchoIsWithinRequest(be: Backend, req: seq<byte>, m: Memory)
    requires |req| >= be.Header() + 1
    ensures var r := Execute(Decode(be, req), m).0;
      && (r.Echo? || r.EchoRange? ==> Arrived(PduOf(be, req)) && Decode(be, req) == DecodePdu(PduOf(be, req)))
      && (r.EchoRange? ==> |PduOf(be, req)| >= 5)
  {
  }

  /** `modbus_reply`: the memory afterwards and the frame sent, if any. An RTU broadcast is executed
      but not answered, unless the quirk `answerBroadcast` is set. */
  function Reply(be: Backend, answerBroadcast: bool, version: seq<byte>, m: Memory, req: seq<byte>)
    : (r: (Memory, seq<seq<byte>>))
    requires |req| >= be.Header() + 1 && |version| <= MAX_VERSION
    ensures |r.1| == if be.Rtu? && req[0] == BROADCAST_ADDRESS && !answerBroadcast then 0 else 1
  {
    var (response, m') := Execute(Decode(be, req), m);
    EchoIsWithinRequest(be, req, m);
    var pdu := PduOf(be, req);
    ResponseFits(be, req, m, version);
    (m', if be.Rtu? && req[0] == BROADCAST_ADDRESS && !answerBroadcast then []
         else [Seal(be, ResponsePrefix(be, req, response), req[be.Header() - 1], ResponsePdu(pdu, response, version))])
  }

  lemma AnswerSizes(q: Request, m: Memory)
    ensures var r := Execute(q, m).0;
      && (r.Cells? ==> 1 <= |r.bits| <= MAX_READ_BITS)
      && (r.Registers? ==> 1 <= |r.words| <= MAX_READ_REGISTERS)
      && (r.EchoRange? ==> q.WriteCoils? || q.WriteRegisters?)
      && (r.Echo? ==> (q.WriteCoil? && q.exact) || (q.WriteRegister? && q.exact) || (q.MaskWrite? && q.exact))
  {
  }

  lemma ResponseFits(be: Backend, req: seq<byte>, m: Memory, version: seq<byte>)
    requires |req| >= be.Header() + 1 && |version| <= MAX_VERSION
    ensures var r := Execute(Decode(be, req), m).0;
      (r.EchoRange? ==> |PduOf(be, req)| >= 5) && |ResponsePdu(PduOf(be, req), r, version)| <= MAX_PDU_LENGTH
  {
    EchoIsWithinRequest(be, req, m);
    AnswerSizes(Decode(be, req), m);
  }

  /** Every request that has a function code, whole or not, is executed; it gets exactly one answer, no
      longer than the framing allows and from the unit addressed, unless it is an RTU broadcast. */
  lemma ReplyTotal(be: Backend, answerBroadcast: bool, version: seq<byte>, m: Memory, req: seq<byte>)
    requires |req| >= be.Header() + 1 && |version| <= MAX_VERSION
    ensures var (after, sent) := Reply(be, answerBroadcast, version, m, req);
      && after == Execute(Decode(be, req), m).1
      && if be.Rtu? && req[0] == 0 && !answerBroadcast then sent == []
         else
           && |sent| == 1 && be.Header() + 2 + be.Checksum() <= |sent[0]| <= (if be.Rtu? then 256 else 260)
           && sent[0][be.Header() - 1] == req[be.Header() - 1]
           && (be.Tcp? ==> sent[0][..2] == req[..2])
  {
    EchoIsWithinRequest(be, req, m);
    AnswerSizes(Decode(be, req), m);
    ResponseFits(be, req, m, version);
  }

  /** The bound on the version text is exact. */
  lemma SlaveIdFitsIff(pdu: seq<byte>, version: seq<byte>)
    requires |pdu| >= 1
    ensures |ResponsePdu(pdu, SlaveId, version)| <= MAX_PDU_LENGTH <==> |version| <= MAX_VERSION
  {
  }
}
