/** A remote call is the local memory operation: encoding, framing, serving, framing back, judging and
    decoding put together. */
module EndToEnd {
  import opened Bytes
  import opened Bits
  import opened Crc
  import opened Protocol
  import opened Memory
  import opened Server
  import opened Client

  /** A request in its frame is decoded from its PDU. */
  lemma DecodeSeal(be: Backend, prefix: seq<byte>, slave: byte, pdu: seq<byte>)
    requires |prefix| == if be.Rtu? then 0 else 4
    requires Arrived(pdu) && |pdu| <= MAX_PDU_LENGTH
    ensures var req := Seal(be, prefix, slave, pdu); Decode(be, req) == DecodePdu(pdu) && PduOf(be, req) == pdu
  {
    var req := Seal(be, prefix, slave, pdu);
    assert req[be.Header()..|req| - be.Checksum()] == pdu;
  }

  /** The bytes of a client's frame decode, at the server, to the request itself. */
  lemma RequestArrives(be: Backend, tid: word, slave: byte, q: Request)
    requires ClientBuilt(q)
    ensures var req := ClientFrame(be, tid, slave, q); Decode(be, req) == q && PduOf(be, req) == EncodePdu(q)
  {
    EncodeDecode(q);
    EncodedComplete(q);
    DecodeSeal(be, Prefix(be, tid), slave, EncodePdu(q));
  }

  // ---- Every response is a complete message --------------------------------------

  /** The functions whose confirmation the framer reads with a longer or a counted body. */
  predicate Shaped(f: byte)
  {
    f <= FC_WRITE_SINGLE_REGISTER || f == FC_WRITE_MULTIPLE_COILS || f == FC_WRITE_MULTIPLE_REGISTERS
    || f == FC_REPORT_SLAVE_ID || f == FC_MASK_WRITE_REGISTER || f == FC_WRITE_AND_READ_REGISTERS
  }

  /** The length that the framer derives from a response is the length sent, for every request but those
      whose function code has the top bit set and answers, wrapped around, as a shaped function. */
  lemma ReplyCompleteIff(be: Backend, req: seq<byte>, m: Memory, version: seq<byte>)
    requires |req| >= be.Header() + 1 && |version| <= MAX_VERSION
    ensures var r := Execute(Decode(be, req), m).0;
      && (r.EchoRange? ==> |PduOf(be, req)| >= 5)
      && (Complete(ResponsePdu(PduOf(be, req), r, version), Confirmation)
          <==> !(req[be.Header()] >= 0x80 && Shaped(req[be.Header()] - 0x80)))
  {
    var q := Decode(be, req);
    var r := Execute(q, m).0;
    AnswerFits(be, req, m);
    if r.Exception? {
      ExceptionCodes(q, m);
      ExceptionComplete(PduOf(be, req), r.code, version);
    } else {
      NormalComplete(PduOf(be, req), r, version);
    }
  }

  lemma ExceptionCodes(q: Request, m: Memory)
    ensures var r := Execute(q, m).0; r.Exception? ==> 1 <= r.code <= 3
  {
  }

  lemma ExceptionComplete(pdu: seq<byte>, code: byte, version: seq<byte>)
    requires |pdu| >= 1 && 1 <= code <= 3
    ensures Complete(ResponsePdu(pdu, Exception(code), version), Confirmation)
       <==> !(pdu[0] >= 0x80 && Shaped(pdu[0] - 0x80))
  {
  }

  /** The response is in the form that belongs to the function of the request. */
  predicate Fitting(r: Response, f: byte, size: nat)
  {
    && (r.Cells? ==> |r.bits| <= MAX_READ_BITS && f in {FC_READ_COILS, FC_READ_DISCRETE_INPUTS})
    && (r.Registers? ==>
          && |r.words| <= MAX_READ_REGISTERS
          && f in {FC_READ_HOLDING_REGISTERS, FC_READ_INPUT_REGISTERS, FC_WRITE_AND_READ_REGISTERS})
    && (r.Echo? ==>
          || (size == 5 && f in {FC_WRITE_SINGLE_COIL, FC_WRITE_SINGLE_REGISTER})
          || (size == 7 && f == FC_MASK_WRITE_REGISTER))
    && (r.EchoRange? ==> size >= 5 && f in {FC_WRITE_MULTIPLE_COILS, FC_WRITE_MULTIPLE_REGISTERS})
    && (r.SlaveId? ==> f == FC_REPORT_SLAVE_ID)
  }

  lemma NormalComplete(pdu: seq<byte>, r: Response, version: seq<byte>)
    requires |pdu| >= 1 && |version| <= MAX_VERSION
    requires !r.Exception? && Fitting(r, pdu[0], |pdu|)
    ensures Complete(ResponsePdu(pdu, r, version), Confirmation)
    ensures pdu[0] < 0x80
  {
  }

  /** Only a request of its own function is answered normally. */
  lemma AnswerFits(be: Backend, req: seq<byte>, m: Memory)
    requires |req| >= be.Header() + 1
    ensures Fitting(Execute(Decode(be, req), m).0, req[be.Header()], |PduOf(be, req)|)
  {
    AnswerSizes(Decode(be, req), m);
  }

  // ---- The answer to a client's request --------------------------------------------

  /** What `check_confirmation` makes of the genuine answer. */
  function Expected(q: Request, r: Response, version: seq<byte>): Verdict
    requires r.EchoRange? ==> q.WriteCoils? || q.WriteRegisters?
  {
    match r
    case Exception(code) => Reject(ENOBASE + code)
    case Cells(bits) => Accept(PackedLength(|bits|))
    case Registers(words) => Accept(|words|)
    case Echo => Accept(1)
    case EchoRange => Accept(q.nb)
    case SlaveId => Accept(5 + |version|)
  }

  predicate HasCount(q: Request)
  {
    q.ReadBits? || q.ReadRegisters? || q.WriteCoils? || q.WriteRegisters? || q.WriteRead?
  }

  /** `p` carries the function code and, where there is one, the quantity of `q`. */
  predicate Carries(p: seq<byte>, q: Request)
  {
    && |p| >= 1 && p[0] == q.Code()
    && (HasCount(q) ==> |p| >= 5 && Word(p[3], p[4]) == q.nb)
    && (q.WriteCoil? || q.WriteRegister? ==> |p| == 5)
    && (q.MaskWrite? ==> |p| == 7)
  }

  lemma DecodedCarries(p: seq<byte>)
    requires Arrived(p)
    ensures var q := DecodePdu(p);
      (q.WriteCoil? || q.WriteRegister? || q.MaskWrite? ==> q.exact) ==> Carries(p, q)
  {
  }

  lemma EncodedCarries(q: Request)
    requires ClientBuilt(q)
    ensures Carries(EncodePdu(q), q)
  {
    EncodeDecode(q);
    DecodedCarries(EncodePdu(q));
  }

  /** `r` is an answer that `q` can have. */
  predicate Answers(r: Response, q: Request)
  {
    && (r.Cells? ==> q.ReadBits? && |r.bits| == q.nb <= MAX_READ_BITS)
    && (r.Registers? ==> (q.ReadRegisters? || q.WriteRead?) && |r.words| == q.nb <= MAX_READ_REGISTERS)
    && (r.Echo? ==> q.WriteCoil? || q.WriteRegister? || q.MaskWrite?)
    && (r.EchoRange? ==> q.WriteCoils? || q.WriteRegisters?)
    && (r.SlaveId? ==> q.ReportSlaveId?)
    && (r.Exception? ==> 1 <= r.code <= 3)
  }

  lemma ExecuteAnswers(q: Request, m: Memory)
    ensures Answers(Execute(q, m).0, q)
  {
  }

  lemma LengthOfAnswer(p: seq<byte>, q: Request, r: Response, version: seq<byte>)
    requires Carries(p, q) && Answers(r, q) && !r.Exception? && !r.SlaveId?
    ensures |ResponsePdu(p, r, version)| == ResponseLength(p)
  {
  }

  /** Length agreement: a normal answer has the length that the client computed from its request. */
  lemma LengthAgrees(q: Request, m: Memory, version: seq<byte>)
    requires ClientBuilt(q)
    ensures var r := Execute(q, m).0;
      && (r.EchoRange? ==> |EncodePdu(q)| >= 5)
      && (!r.Exception? && !r.SlaveId? ==>
            |ResponsePdu(EncodePdu(q), r, version)| == ResponseLength(EncodePdu(q)))
  {
    EncodedCarries(q);
    ExecuteAnswers(q, m);
    if !Execute(q, m).0.Exception? && !Execute(q, m).0.SlaveId? {
      LengthOfAnswer(EncodePdu(q), q, Execute(q, m).0, version);
    }
  }

  lemma JudgeException(p: seq<byte>, code: byte, version: seq<byte>)
    requires |p| >= 1 && p[0] < 0x80 && code < EXCEPTION_MAX
    ensures var s := ResponsePdu(p, Exception(code), version); Judge(p, s, |s|) == Reject(ENOBASE + code)
  {
  }

  lemma JudgeCells(p: seq<byte>, q: Request, r: Response, version: seq<byte>)
    requires Carries(p, q) && Answers(r, q) && r.Cells?
    ensures var s := ResponsePdu(p, r, version); Judge(p, s, |s|) == Expected(q, r, version)
  {
    LengthOfAnswer(p, q, r, version);
  }

  lemma JudgeRegisters(p: seq<byte>, q: Request, r: Response, version: seq<byte>)
    requires Carries(p, q) && Answers(r, q) && r.Registers?
    ensures var s := ResponsePdu(p, r, version); Judge(p, s, |s|) == Expected(q, r, version)
  {
    LengthOfAnswer(p, q, r, version);
  }

  lemma JudgeWrite(p: seq<byte>, q: Request, r: Response, version: seq<byte>)
    requires Carries(p, q) && Answers(r, q) && (r.Echo? || r.EchoRange?)
    ensures var s := ResponsePdu(p, r, version); Judge(p, s, |s|) == Expected(q, r, version)
  {
    LengthOfAnswer(p, q, r, version);
  }

  lemma JudgeAnswer(p: seq<byte>, q: Request, r: Response, version: seq<byte>)
    requires ClientBuilt(q) && Carries(p, q) && Answers(r, q) && |version| <= MAX_VERSION
    ensures var s := ResponsePdu(p, r, version); Judge(p, s, |s|) == Expected(q, r, version)
  {
    match r
    case Exception(code) => JudgeException(p, code, version);
    case Cells(_) => JudgeCells(p, q, r, version);
    case Registers(_) => JudgeRegisters(p, q, r, version);
    case Echo => JudgeWrite(p, q, r, version);
    case EchoRange => JudgeWrite(p, q, r, version);
    case SlaveId =>
  }

  /** The genuine answer is accepted with the right count, and an exception arrives as its own error number. */
  lemma AnswerJudged(q: Request, m: Memory, version: seq<byte>)
    requires ClientBuilt(q) && |version| <= MAX_VERSION
    ensures var (p, r) := (EncodePdu(q), Execute(q, m).0);
      && (r.EchoRange? ==> |p| >= 5 && (q.WriteCoils? || q.WriteRegisters?))
      && var s := ResponsePdu(p, r, version); Judge(p, s, |s|) == Expected(q, r, version)
  {
    EncodedCarries(q);
    ExecuteAnswers(q, m);
    JudgeAnswer(EncodePdu(q), q, Execute(q, m).0, version);
  }

  lemma BitsDecoded(s: seq<byte>, bits: seq<byte>)
    requires AllBits(bits) && |s| >= 2 && s[2..] == PackCells(bits)
    ensures AnsweredBits(s, |bits|) == bits
  {
    forall i | 0 <= i < |bits|
      ensures AnsweredBits(s, |bits|)[i] == bits[i]
    {
      assert s[2 + i / 8] == PackCells(bits)[i / 8];
      PackedCellBit(bits, i / 8, i % 8);
    }
  }

  lemma WordDecoded(s: seq<byte>, words: seq<word>, i: nat)
    requires |s| >= 2 && i < |words| && BytesWords(s[2..]) == words
    ensures AnsweredWords(s, |words|)[i] == words[i]
  {
    assert s[2..][2 * i] == s[2 + 2 * i] && s[2..][2 * i + 1] == s[3 + 2 * i];
  }

  lemma WordsDecoded(s: seq<byte>, words: seq<word>)
    requires |s| >= 2 && s[2..] == WordBytes(words)
    ensures AnsweredWords(s, |words|) == words
  {
    WordsRoundTrip(words);
    forall i | 0 <= i < |words|
      ensures AnsweredWords(s, |words|)[i] == words[i]
    {
      WordDecoded(s, words, i);
    }
  }

  /** The decoders recover the values read. */
  lemma AnswerDecoded(pdu: seq<byte>, r: Response, version: seq<byte>)
    requires |pdu| >= 1
    ensures r.Cells? && AllBits(r.bits) ==> AnsweredBits(ResponsePdu(pdu, r, version), |r.bits|) == r.bits
    ensures r.Registers? ==> AnsweredWords(ResponsePdu(pdu, r, version), |r.words|) == r.words
  {
    if r.Cells? && AllBits(r.bits) {
      BitsDecoded(ResponsePdu(pdu, r, version), r.bits);
    } else if r.Registers? {
      WordsDecoded(ResponsePdu(pdu, r, version), r.words);
    }
  }

  // ---- Whole frames ----------------------------------------------------------------

  /** `check_confirmation` on two frames is the pre-check of their headers and the judgement of their PDUs; a
      negative `length` stands for an ignored frame. */
  lemma CheckSealed(be: Backend, prefix: seq<byte>, slave: byte, p: seq<byte>,
                    prefix': seq<byte>, slave': byte, r: seq<byte>, length: int)
    requires |prefix| == |prefix'| == if be.Rtu? then 0 else 4
    requires Complete(p, Indication) && |p| <= MAX_PDU_LENGTH
    requires Complete(r, Confirmation) && |r| <= MAX_PDU_LENGTH
    requires length == |r| || length < 0
    ensures var (req, rsp) := (Seal(be, prefix, slave, p), Seal(be, prefix', slave', r));
      CheckConfirmation(be, req, rsp, be.Header() + length + be.Checksum())
      == (if PreCheck(be, req, rsp) != 0 then Reject(PreCheck(be, req, rsp)) else Judge(p, r, length))
  {
    var req, rsp := Seal(be, prefix, slave, p), Seal(be, prefix', slave', r);
    var x, y := req[be.Header() + |p|..], rsp[be.Header() + |r|..];
    assert req[be.Header()..] == p + x by {
      assert req[be.Header()..][..|p|] == req[be.Header()..be.Header() + |p|];
    }
    assert rsp[be.Header()..] == r + y by {
      assert rsp[be.Header()..][..|r|] == rsp[be.Header()..be.Header() + |r|];
    }
    JudgeLocal(p, x, r, y, length);
  }

  /** A frame that answers with the identifiers of the request passes the pre-check. */
  lemma PreCheckPasses(be: Backend, tid: word, slave: byte, p: seq<byte>, r: seq<byte>)
    requires |p| <= MAX_PDU_LENGTH && |r| <= MAX_PDU_LENGTH
    ensures PreCheck(be, Seal(be, Prefix(be, tid), slave, p), Seal(be, Prefix(be, tid), slave, r)) == 0
  {
    if be.Tcp? {
      var req, rsp := Seal(be, Prefix(be, tid), slave, p), Seal(be, Prefix(be, tid), slave, r);
      assert req[..4][0] == rsp[..4][0] && req[..4][1] == rsp[..4][1] && rsp[..4][2] == 0 && rsp[..4][3] == 0;
    }
  }

  /** The outcome that the judgement of a response PDU leads to; `trailer` is the checksum behind it. */
  function Concluded(v: Verdict, r: seq<byte>, trailer: seq<byte>): Outcome
  {
    match v
    case Reject(errno) => Failed(errno)
    case Accept(nb) => Done(nb, r + trailer)
  }

  function Trailer(be: Backend, slave: byte, r: seq<byte>): seq<byte>
  {
    if be.Rtu? then CrcBytes([slave] + r) else []
  }

  lemma SealBody(be: Backend, prefix: seq<byte>, slave: byte, r: seq<byte>)
    requires |prefix| == if be.Rtu? then 0 else 4
    requires |r| <= MAX_PDU_LENGTH
    ensures Seal(be, prefix, slave, r)[be.Header()..] == r + Trailer(be, slave, r)
  {
  }

  lemma AwaitFramed(be: Backend, slave: int, req: seq<byte>, rsp: seq<byte>, later: seq<byte>, v: Verdict,
                    r: seq<byte>, trailer: seq<byte>)
    requires |req| >= be.Header()
    requires Frame(be, Confirmation, rsp + later) == Framed(|rsp|) && Integrity(be, slave, rsp) == |rsp| >= be.Header()
    requires CheckConfirmation(be, req, rsp, |rsp|) == v && rsp[be.Header()..] == r + trailer
    ensures Await(be, slave, req, rsp + later) == Concluded(v, r, trailer)
  {
    assert (rsp + later)[..|rsp|] == rsp;
  }

  /** What the client makes of a frame that carries `r` and the identifiers of its request. */
  lemma AwaitSealed(be: Backend, tid: word, slave: byte, p: seq<byte>, r: seq<byte>, later: seq<byte>)
    requires Complete(p, Indication) && |p| <= MAX_PDU_LENGTH
    requires Complete(r, Confirmation) && |r| <= MAX_PDU_LENGTH
    ensures var (req, rsp) := (Seal(be, Prefix(be, tid), slave, p), Seal(be, Prefix(be, tid), slave, r));
      Await(be, slave, req, rsp + later) == Concluded(Judge(p, r, |r|), r, Trailer(be, slave, r))
  {
    var rsp := Seal(be, Prefix(be, tid), slave, r);
    SealFramed(be, Confirmation, Prefix(be, tid), slave, r, later);
    SealIntact(be, Prefix(be, tid), slave, r);
    CheckSealed(be, Prefix(be, tid), slave, p, Prefix(be, tid), slave, r, |r|);
    PreCheckPasses(be, tid, slave, p, r);
    SealBody(be, Prefix(be, tid), slave, r);
    AwaitFramed(be, slave, Seal(be, Prefix(be, tid), slave, p), rsp, later, Judge(p, r, |r|), r, Trailer(be, slave, r));
  }

  /** The server finds the request in its stream, whatever follows; in RTU it must be the unit asked, or the
      request a broadcast. */
  lemma RequestFramed(be: Backend, tid: word, slave: byte, own: int, q: Request, rest: seq<byte>)
    requires ClientBuilt(q) && (be.Rtu? ==> own == slave || slave == BROADCAST_ADDRESS)
    ensures var req := ClientFrame(be, tid, slave, q);
      Frame(be, Indication, req + rest) == Framed(|req|) && Integrity(be, own, req) == |req|
  {
    EncodedComplete(q);
    SealFramed(be, Indication, Prefix(be, tid), slave, EncodePdu(q), rest);
    SealIntact(be, Prefix(be, tid), slave, EncodePdu(q));
  }

  /** It executes it and seals the answer with the identifiers of the request. */
  lemma RequestServed(be: Backend, answerBroadcast: bool, tid: word, slave: byte, q: Request, m: Memory,
                      version: seq<byte>)
    requires ClientBuilt(q) && |version| <= MAX_VERSION
    requires be.Rtu? && !answerBroadcast ==> slave != BROADCAST_ADDRESS
    ensures var req := ClientFrame(be, tid, slave, q);
      && (Execute(q, m).0.EchoRange? ==> |EncodePdu(q)| >= 5)
      && var r := ResponsePdu(EncodePdu(q), Execute(q, m).0, version);
      && Complete(r, Confirmation) && |r| <= MAX_PDU_LENGTH
      && Reply(be, answerBroadcast, version, m, req) == (Execute(q, m).1, [Seal(be, Prefix(be, tid), slave, r)])
  {
    var req := ClientFrame(be, tid, slave, q);
    EncodedComplete(q);
    RequestArrives(be, tid, slave, q);
    ResponseFits(be, req, m, version);
    ReplyCompleteIff(be, req, m, version);
    CodeBelow(q);
    assert ResponsePrefix(be, req, Execute(q, m).0) == Prefix(be, tid);
  }

  lemma CodeBelow(q: Request)
    requires ClientBuilt(q)
    ensures q.Code() < 0x80
  {
  }

  /** The values that an answer brings to the caller. */
  predicate Delivers(o: Outcome, r: Response, n: nat, version: seq<byte>)
  {
    && o.Done?
    && (r.Cells? && AllBits(r.bits) ==> |r.bits| == n && AnsweredBits(o.pdu, n) == r.bits)
    && (r.Registers? ==> |r.words| == n && AnsweredWords(o.pdu, n) == r.words)
    && (r.SlaveId? ==> Identifies(o.pdu, version))
  }

  /** A response PDU brings the slave identifier, behind function code and count. */
  predicate Identifies(pdu: seq<byte>, version: seq<byte>)
  {
    |pdu| >= 7 + |version| && pdu[2..7 + |version|] == Identifier(version)
  }

  lemma AnswerIdentifies(p: seq<byte>, version: seq<byte>, trailer: seq<byte>)
    requires |p| >= 1
    ensures Identifies(ResponsePdu(p, SlaveId, version) + trailer, version)
  {
    var s := ResponsePdu(p, SlaveId, version);
    assert s[2..] == Identifier(version);
    assert (s + trailer)[2..7 + |version|] == s[2..];
  }

  /** `o` is what the caller should see of the answer `r` to `q`. */
  predicate Reported(o: Outcome, q: Request, r: Response, version: seq<byte>)
    requires r.EchoRange? ==> q.WriteCoils? || q.WriteRegisters?
  {
    match Expected(q, r, version)
    case Reject(errno) => o == Failed(errno)
    case Accept(nb) => Delivers(o, r, if HasCount(q) then q.nb else 0, version) && o.nb == nb
  }

  lemma AnswerReported(p: seq<byte>, q: Request, r: Response, version: seq<byte>, trailer: seq<byte>)
    requires ClientBuilt(q) && Carries(p, q) && Answers(r, q) && |version| <= MAX_VERSION
    ensures var s := ResponsePdu(p, r, version);
      Reported(Concluded(Judge(p, s, |s|), s, trailer), q, r, version)
  {
    JudgeAnswer(p, q, r, version);
    AnswerDecoded(p, r, version);
    DecodeLocal(ResponsePdu(p, r, version), trailer, r);
    if r.SlaveId? {
      AnswerIdentifies(p, version, trailer);
    }
  }

  /** The frame that brings the client the answer `r` to its request is reported to it. */
  lemma AnswerArrives(be: Backend, tid: word, slave: byte, q: Request, r: Response, version: seq<byte>,
                      rsp: seq<byte>, later: seq<byte>)
    requires ClientBuilt(q) && Carries(EncodePdu(q), q) && Answers(r, q) && |version| <= MAX_VERSION
    requires var s := ResponsePdu(EncodePdu(q), r, version);
      && Complete(s, Confirmation) && |s| <= MAX_PDU_LENGTH && rsp == Seal(be, Prefix(be, tid), slave, s)
    ensures Reported(Await(be, slave, ClientFrame(be, tid, slave, q), rsp + later), q, r, version)
  {
    var s := ResponsePdu(EncodePdu(q), r, version);
    EncodedComplete(q);
    AwaitSealed(be, tid, slave, EncodePdu(q), s, later);
    AnswerReported(EncodePdu(q), q, r, version, Trailer(be, slave, s));
  }

  lemma CallAnswered(be: Backend, answerBroadcast: bool, tid: word, slave: byte, q: Request, m: Memory,
                     version: seq<byte>, later: seq<byte>)
    requires ClientBuilt(q) && |version| <= MAX_VERSION
    requires be.Rtu? && !answerBroadcast ==> slave != BROADCAST_ADDRESS
    ensures var req := ClientFrame(be, tid, slave, q);
      var (r, after) := Execute(q, m);
      var (served, sent) := Reply(be, answerBroadcast, version, m, req);
      && served == after && |sent| == 1
      && (r.EchoRange? ==> q.WriteCoils? || q.WriteRegisters?)
      && Reported(Await(be, slave, req, sent[0] + later), q, r, version)
  {
    EncodedCarries(q);
    ExecuteAnswers(q, m);
    RequestServed(be, answerBroadcast, tid, slave, q, m, version);
    var r := Execute(q, m).0;
    var s := ResponsePdu(EncodePdu(q), r, version);
    AnswerArrives(be, tid, slave, q, r, version, Seal(be, Prefix(be, tid), slave, s), later);
  }

  /** A server of unit `own` takes the request to unit `slave` for its own, and answers it. TCP has no
      such filter; in RTU a broadcast is answered with the quirk only. */
  predicate ServerAnswers(be: Backend, answerBroadcast: bool, own: int, slave: byte)
  {
    be.Rtu? ==> if slave == BROADCAST_ADDRESS then answerBroadcast else own == slave
  }

  /** A remote call is the local operation: whatever follows on the line in either direction, the server's
      memory becomes that of executing the request, and the client gets the count and the values of the
      execution, or the number of its exception. */
  lemma RemoteCall(be: Backend, answerBroadcast: bool, tid: word, slave: byte, own: int, q: Request, m: Memory,
                   version: seq<byte>, rest: seq<byte>, later: seq<byte>)
    requires ClientBuilt(q) && |version| <= MAX_VERSION && ServerAnswers(be, answerBroadcast, own, slave)
    ensures var req := ClientFrame(be, tid, slave, q);
      var (r, after) := Execute(q, m);
      var (served, sent) := Reply(be, answerBroadcast, version, m, req);
      && Frame(be, Indication, req + rest) == Framed(|req|) && Integrity(be, own, req) == |req|
      && served == after && |sent| == 1
      && (r.EchoRange? ==> q.WriteCoils? || q.WriteRegisters?)
      && Reported(Await(be, slave, req, sent[0] + later), q, r, version)
  {
    RequestFramed(be, tid, slave, own, q, rest);
    CallAnswered(be, answerBroadcast, tid, slave, q, m, version, later);
  }

  lemma DecodeLocal(s: seq<byte>, y: seq<byte>, r: Response)
    requires r.Cells? ==> |s| == 2 + PackedLength(|r.bits|)
    requires r.Registers? ==> |s| == 2 + 2 * |r.words|
    ensures r.Cells? ==> AnsweredBits(s + y, |r.bits|) == AnsweredBits(s, |r.bits|)
    ensures r.Registers? ==> AnsweredWords(s + y, |r.words|) == AnsweredWords(s, |r.words|)
  {
  }

  // ---- Answers that are none ---------------------------------------------------------------

  /** A TCP client rejects a frame of another transaction or another protocol. */
  lemma StrangeTcpAnswer(slave: int, req: seq<byte>, s: seq<byte>)
    requires |req| >= 7 && Frame(Tcp, Confirmation, s).Framed?
    requires s[0] != req[0] || s[1] != req[1] || s[2] != 0 || s[3] != 0
    ensures Await(Tcp, slave, req, s) == Failed(112345691)
  {
  }

  /** An RTU client that asked a unit rejects the intact answer of another. */
  lemma StrangeRtuAnswer(slave: int, req: seq<byte>, s: seq<byte>)
    requires |req| >= 1 && req[0] != 0 && Frame(Rtu, Confirmation, s).Framed?
    requires CrcValid(s[..Frame(Rtu, Confirmation, s).length]) && s[0] != req[0]
    ensures Await(Rtu, slave, req, s) == Failed(112345695)
  {
  }
}
