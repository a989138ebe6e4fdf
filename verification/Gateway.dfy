/** The gateway as a function of the frames it relays. */
module Gateway {
  import opened Bytes
  import opened Crc
  import opened Protocol
  import opened Memory
  import opened Server
  import opened Client
  import opened EndToEnd
  import opened Acceptance

  /** The identifiers that answer `req`: its own transaction, protocol zero. */
  function AnswerPrefix(be: Backend, req: seq<byte>): (p: seq<byte>)
    requires |req| >= be.Header() + 1
    ensures |p| == if be.Rtu? then 0 else 4
  {
    if be.Rtu? then [] else req[..2] + [0, 0]
  }

  /** What a frame carries between header and checksum. */
  function Body(be: Backend, f: seq<byte>): (p: seq<byte>)
    requires |f| >= be.Header() + be.Checksum()
    ensures |p| == |f| - be.Header() - be.Checksum()
  {
    f[be.Header()..|f| - be.Checksum()]
  }

  /** The backend's response as the frontend's client gets it. */
  function Relayed(front: Backend, req: seq<byte>, back: Backend, rsp: seq<byte>): seq<byte>
    requires |req| >= front.Header() + 1
    requires back.Header() + back.Checksum() <= |rsp| <= back.MaxAdu()
  {
    Seal(front, AnswerPrefix(front, req), rsp[back.Header() - 1], Body(back, rsp))
  }

  /** The gateway's own answer: `modbus_reply_exception`. */
  function Refusal(front: Backend, req: seq<byte>, code: byte): seq<byte>
    requires |req| >= front.Header() + 1
  {
    Seal(front, AnswerPrefix(front, req), req[front.Header() - 1], [(req[front.Header()] as int + 0x80) % 0x100, code])
  }

  lemma BodyOfSeal(be: Backend, prefix: seq<byte>, slave: byte, p: seq<byte>)
    requires |prefix| == if be.Rtu? then 0 else 4
    requires |p| <= MAX_PDU_LENGTH
    ensures Body(be, Seal(be, prefix, slave, p)) == p
  {
  }

  /** The request that the gateway passes on: the same unit and PDU, transaction identifier zero. */
  function Forwarded(back: Backend, slave: byte, p: seq<byte>): seq<byte>
    requires |p| <= MAX_PDU_LENGTH
  {
    Seal(back, Prefix(back, 0), slave, p)
  }

  /** The other link's stream brings a confirmation of the unit asked, intact: the gateway relays it. */
  predicate Relays(back: Backend, slave: byte, p: seq<byte>, s: seq<byte>)
    requires |p| <= MAX_PDU_LENGTH
  {
    && Frame(back, Confirmation, s).Framed?
    && var f := s[..Frame(back, Confirmation, s).length];
    && Integrity(back, slave, f) > 0
    && PreCheck(back, Forwarded(back, slave, p), f) == 0
  }

  /** For every pairing of framings, a relayed response carries the backend's unit and PDU under the
      client's own transaction; its length is found by the client's framer, whatever follows. */
  lemma RelayedFrame(front: Backend, back: Backend, tid: word, slave: byte, p: seq<byte>, f: seq<byte>,
                     later: seq<byte>)
    requires 1 <= |p| <= MAX_PDU_LENGTH
    requires Frame(back, Confirmation, f) == Framed(|f|)
    ensures |f| >= back.Header() + back.Checksum()
    ensures var (unit, r) := (f[back.Header() - 1], Body(back, f));
      var out := Relayed(front, Seal(front, Prefix(front, tid), slave, p), back, f);
      && Complete(r, Confirmation) && |r| <= MAX_PDU_LENGTH
      && out == Seal(front, Prefix(front, tid), unit, r)
      && Frame(front, Confirmation, out + later) == Framed(|out|)
      && Integrity(front, unit, out) == |out| && (front.Rtu? ==> CrcValid(out))
  {
    FramedComplete(back, f);
    var req, r := Seal(front, Prefix(front, tid), slave, p), Body(back, f);
    OwnPrefix(front, tid, slave, p);
    SealFramed(front, Confirmation, Prefix(front, tid), f[back.Header() - 1], r, later);
    SealIntact(front, Prefix(front, tid), f[back.Header() - 1], r);
  }

  lemma PreCheckRelayed(front: Backend, tid: word, slave: byte, p: seq<byte>, slave': byte, r: seq<byte>)
    requires |p| <= MAX_PDU_LENGTH && |r| <= MAX_PDU_LENGTH
    ensures PreCheck(front, Seal(front, Prefix(front, tid), slave, p), Seal(front, Prefix(front, tid), slave', r))
         == if front.Rtu? && slave' != slave && slave != BROADCAST_ADDRESS then EMBBADSLAVE else 0
  {
    var req, rsp := Seal(front, Prefix(front, tid), slave, p), Seal(front, Prefix(front, tid), slave', r);
    if front.Tcp? {
      assert req[0] == req[..4][0] && req[1] == req[..4][1];
      assert rsp[0] == rsp[..4][0] && rsp[1] == rsp[..4][1] && rsp[2] == rsp[..4][2] && rsp[3] == rsp[..4][3];
    }
  }

  // ---- Transparency ---------------------------------------------------------------------

  /** A frame taken from a stream is found again by itself. */
  lemma FrameAlone(be: Backend, s: seq<byte>)
    requires Frame(be, Confirmation, s).Framed?
    ensures var f := s[..Frame(be, Confirmation, s).length]; Frame(be, Confirmation, f) == Framed(|f|)
  {
    var f := s[..Frame(be, Confirmation, s).length];
    FrameIgnoresRest(be, Confirmation, s, []);
    assert f + [] == f;
  }

  /** What a client makes of a frame it takes from its stream, when it carries `r` and the code of the
      integrity check is `rc`. */
  lemma AwaitBody(be: Backend, slave: int, req: seq<byte>, p: seq<byte>, s: seq<byte>)
    requires |req| >= be.Header() + |p| && req[be.Header()..be.Header() + |p|] == p && Complete(p, Indication)
    requires Frame(be, Confirmation, s).Framed?
    ensures var f := s[..Frame(be, Confirmation, s).length];
      var rc := Integrity(be, slave, f);
      && |f| >= be.Header() + be.Checksum()
      && Await(be, slave, req, s)
         == if rc == -1 then Failed(EMBBADCRC)
            else if PreCheck(be, req, f) != 0 then Failed(PreCheck(be, req, f))
            else
              Concluded(Judge(p, Body(be, f), rc - be.Header() - be.Checksum()), Body(be, f), f[|f| - be.Checksum()..])
  {
    var h, f := be.Header(), s[..Frame(be, Confirmation, s).length];
    FrameAlone(be, s);
    FramedComplete(be, f);
    var r := Body(be, f);
    Suffix(req, req, h, p);
    Suffix(f, f, h, r);
    var length := Integrity(be, slave, f) - h - be.Checksum();
    if Integrity(be, slave, f) != -1 {
      JudgeLocal(p, req[h + |p|..], r, f[h + |r|..], length);
    }
  }

  /** The outcome of a call without the checksum behind the PDU of an accepted answer. */
  function Plain(be: Backend, o: Outcome): Outcome
  {
    if o.Done? && |o.pdu| >= be.Checksum() then Done(o.nb, o.pdu[..|o.pdu| - be.Checksum()]) else o
  }

  /** The client's own outcome at the other link, had it been there. */
  lemma DirectOutcome(back: Backend, slave: byte, p: seq<byte>, s: seq<byte>)
    requires Complete(p, Indication) && |p| <= MAX_PDU_LENGTH && Relays(back, slave, p, s)
    ensures var f := s[..Frame(back, Confirmation, s).length];
      && |f| >= back.Header() + back.Checksum()
      && Plain(back, Await(back, slave, Forwarded(back, slave, p), s))
         == Concluded(Judge(p, Body(back, f), |Body(back, f)|), Body(back, f), [])
  {
    AwaitBody(back, slave, Forwarded(back, slave, p), p, s);
    var f := s[..Frame(back, Confirmation, s).length];
    var (r, x) := (Body(back, f), f[|f| - back.Checksum()..]);
    PlainConcluded(back, Judge(p, r, |r|), r, x);
  }

  /** What `check_confirmation` makes of a frame that was ignored for its unit. */
  function Ignored(p: seq<byte>, r: seq<byte>): Verdict
  {
    if Peek(r, 0) >= 0x80 then Reject(EMBBADEXC)
    else if Peek(p, 0) == FC_REPORT_SLAVE_ID && Peek(r, 0) == FC_REPORT_SLAVE_ID then Accept(Peek(r, 1))
    else Reject(EMBBADDATA)
  }

  lemma JudgeIgnored(p: seq<byte>, r: seq<byte>, length: int)
    requires length < 0
    ensures Judge(p, r, length) == Ignored(p, r)
  {
  }

  /** The verdict on an answer of `unit` to a request to `slave`: an RTU client rejects the answer of another
      unit, and if it asked unit 0, where the unit is not compared, still has it ignored. */
  function UnitVerdict(front: Backend, slave: byte, p: seq<byte>, unit: byte, r: seq<byte>): Verdict
  {
    if front.Tcp? || unit == slave then Judge(p, r, |r|)
    else if slave != BROADCAST_ADDRESS then Reject(EMBBADSLAVE)
    else Ignored(p, r)
  }

  lemma UnitOutcome(front: Backend, slave: byte, req: seq<byte>, p: seq<byte>, out: seq<byte>, unit: byte, r: seq<byte>,
                    later: seq<byte>)
    requires |req| >= front.Header() + |p| && req[front.Header()..front.Header() + |p|] == p && Complete(p, Indication)
    requires Frame(front, Confirmation, out + later) == Framed(|out|)
    requires |out| >= front.Header() + front.Checksum() && out[front.Header() - 1] == unit && Body(front, out) == r
    requires front.Rtu? ==> CrcValid(out)
    requires PreCheck(front, req, out)
          == if front.Rtu? && unit != slave && slave != BROADCAST_ADDRESS then EMBBADSLAVE else 0
    ensures Plain(front, Await(front, slave, req, out + later))
         == Concluded(UnitVerdict(front, slave, p, unit, r), r, [])
  {
    assert (out + later)[..|out|] == out;
    AwaitBody(front, slave, req, p, out + later);
    PlainConcluded(front, Judge(p, r, |r|), r, out[|out| - front.Checksum()..]);
    PlainConcluded(front, Ignored(p, r), r, out[|out| - front.Checksum()..]);
    JudgeIgnored(p, r, 0 - front.Header() - front.Checksum());
  }

  lemma SealedOutcome(front: Backend, tid: word, slave: byte, p: seq<byte>, unit: byte, r: seq<byte>, later: seq<byte>)
    requires Complete(p, Indication) && |p| <= MAX_PDU_LENGTH
    requires Complete(r, Confirmation) && |r| <= MAX_PDU_LENGTH
    ensures var (req, out) := (Seal(front, Prefix(front, tid), slave, p), Seal(front, Prefix(front, tid), unit, r));
      Plain(front, Await(front, slave, req, out + later)) == Concluded(UnitVerdict(front, slave, p, unit, r), r, [])
  {
    var req, out := Seal(front, Prefix(front, tid), slave, p), Seal(front, Prefix(front, tid), unit, r);
    SealFramed(front, Confirmation, Prefix(front, tid), unit, r, later);
    SealIntact(front, Prefix(front, tid), unit, r);
    BodyOfSeal(front, Prefix(front, tid), unit, r);
    PreCheckRelayed(front, tid, slave, p, unit, r);
    UnitOutcome(front, slave, req, p, out, unit, r, later);
  }

  lemma PlainConcluded(be: Backend, v: Verdict, r: seq<byte>, x: seq<byte>)
    requires |x| == be.Checksum()
    ensures Plain(be, Concluded(v, r, x)) == Concluded(v, r, [])
  {
    assert (r + x)[..|r|] == r && r + [] == r;
  }

  /** The client's outcome behind the gateway, whatever follows. */
  lemma RelayedOutcome(front: Backend, back: Backend, tid: word, slave: byte, p: seq<byte>, s: seq<byte>,
                       later: seq<byte>)
    requires Complete(p, Indication) && |p| <= MAX_PDU_LENGTH && Relays(back, slave, p, s)
    ensures var f := s[..Frame(back, Confirmation, s).length];
      && |f| >= back.Header() + back.Checksum()
      && var (unit, r) := (f[back.Header() - 1], Body(back, f));
      var req := Seal(front, Prefix(front, tid), slave, p);
      Plain(front, Await(front, slave, req, Relayed(front, req, back, f) + later))
      == Concluded(UnitVerdict(front, slave, p, unit, r), r, [])
  {
    var f := s[..Frame(back, Confirmation, s).length];
    FrameAlone(back, s);
    RelayedFrame(front, back, tid, slave, p, f, later);
    SealedOutcome(front, tid, slave, p, f[back.Header() - 1], Body(back, f), later);
  }

  /** The gateway is transparent: a response that it relays has the same outcome for the client as at the other
      link, exactly unless an RTU client gets the answer of a unit it did not ask. Even then the outcome is
      the same if the client asked unit 0 and the answer is refused anyway, or is a slave identifier. */
  lemma SameOutcomeIff(front: Backend, back: Backend, tid: word, slave: byte, p: seq<byte>, s: seq<byte>,
                       later: seq<byte>)
    requires Complete(p, Indication) && |p| <= MAX_PDU_LENGTH && Relays(back, slave, p, s)
    ensures var f := s[..Frame(back, Confirmation, s).length];
      && |f| >= back.Header() + back.Checksum()
      && var (unit, r) := (f[back.Header() - 1], Body(back, f));
      var req := Seal(front, Prefix(front, tid), slave, p);
      Plain(front, Await(front, slave, req, Relayed(front, req, back, f) + later))
      == Plain(back, Await(back, slave, Forwarded(back, slave, p), s))
      <==> !(front.Rtu? && unit != slave) || (slave == BROADCAST_ADDRESS && RefusedOrIdentifier(p, r))
  {
    RelayedOutcome(front, back, tid, slave, p, s, later);
    DirectOutcome(back, slave, p, s);
    var f := s[..Frame(back, Confirmation, s).length];
    IgnoredIff(p, Body(back, f));
  }

  /** The bytes `r` are an exception of the request `p` with a known code. */
  predicate KnownException(p: seq<byte>, r: seq<byte>)
  {
    |r| == 2 && r[0] >= 0x80 && Peek(p, 0) == r[0] as int - 0x80 && r[1] < 12
  }

  /** The length of a normal answer, by function code and quantity. */
  function AnswerLength(p: seq<byte>): nat
  {
    var (f, nb) := (Peek(p, 0), 0x100 * Peek(p, 3) as int + Peek(p, 4) as int);
    if f in {1, 2} then 2 + (nb + 7) / 8
    else if f in {3, 4, 23} then 2 + 2 * nb
    else if f == 7 then 3
    else if f == 22 then 7
    else 5
  }

  /** The bytes `r` are a normal answer to the request `p`: the length and the function code agree, and so does
      what the answer repeats of the request or counts. */
  predicate NormalAnswer(p: seq<byte>, r: seq<byte>)
  {
    var (f, nb) := (Peek(p, 0), 0x100 * Peek(p, 3) as int + Peek(p, 4) as int);
    && |r| == AnswerLength(p) && Peek(r, 0) == f && f < 0x80
    && (f in {1, 2} ==> Peek(r, 1) == (nb + 7) / 8)
    && (f in {3, 4, 23} ==> Peek(r, 1) / 2 == nb)
    && (f in {5, 6, 15, 16} ==> forall i :: 1 <= i < 5 ==> Peek(r, i) == Peek(p, i))
  }

  /** `check_confirmation` in bytes and numbers: which answers are accepted, and with which error each of the others
      is rejected. */
  lemma VerdictInBytes(p: seq<byte>, r: seq<byte>)
    requires Peek(p, 0) != 17
    ensures Judge(p, r, |r|).Accept? <==> NormalAnswer(p, r)
    ensures KnownException(p, r) ==> Judge(p, r, |r|) == Reject(112345678 + r[1] as int)
    ensures !KnownException(p, r) && Peek(r, 0) >= 0x80 ==> Judge(p, r, |r|) == Reject(112345692)
    ensures !NormalAnswer(p, r) && Peek(r, 0) < 0x80 ==> Judge(p, r, |r|) == Reject(112345691)
    ensures NormalAnswer(p, r) ==> Judge(p, r, |r|) == Accept(Confirmed(p))
  {
  }

  /** What an accepted answer confirms: bytes of bits, registers, cells written, or one. */
  function Confirmed(p: seq<byte>): nat
  {
    var (f, nb) := (Peek(p, 0), 0x100 * Peek(p, 3) as int + Peek(p, 4) as int);
    if f in {1, 2} then (nb + 7) / 8 else if f in {3, 4, 15, 16, 23} then nb else 1
  }

  /** The verdict on an answer to a request for the slave identifier, whose length is not known before. */
  lemma IdentifierVerdict(p: seq<byte>, r: seq<byte>)
    requires Peek(p, 0) == 17
    ensures Peek(r, 0) == 17 ==> Judge(p, r, |r|) == Accept(Peek(r, 1))
    ensures KnownException(p, r) ==> Judge(p, r, |r|) == Reject(112345678 + r[1] as int)
    ensures !KnownException(p, r) && Peek(r, 0) >= 0x80 ==> Judge(p, r, |r|) == Reject(112345692)
    ensures Peek(r, 0) != 17 && Peek(r, 0) < 0x80 ==> Judge(p, r, |r|) == Reject(112345691)
  {
  }

  /** The answers to a request that a client refuses, for their form alone, whether their unit is asked or not; and
      slave identifiers, which it accepts in either case. */
  predicate RefusedOrIdentifier(p: seq<byte>, r: seq<byte>)
  {
    || (Peek(p, 0) == 17 && Peek(r, 0) < 0x80)
    || (!KnownException(p, r) && !NormalAnswer(p, r))
  }

  lemma IgnoredIff(p: seq<byte>, r: seq<byte>)
    ensures Ignored(p, r) == Judge(p, r, |r|) <==> RefusedOrIdentifier(p, r)
    ensures Judge(p, r, |r|) != Reject(EMBBADSLAVE)
  {
  }

  /** The exception does happen: any answer of another unit that the gateway relays and a TCP client would accept
      fails for an RTU client, for the unit or, if it asked unit 0, as no answer to its request. */
  lemma ForeignUnit(tid: word, slave: byte, p: seq<byte>, s: seq<byte>, later: seq<byte>)
    requires Complete(p, Indication) && |p| <= MAX_PDU_LENGTH && p[0] != FC_REPORT_SLAVE_ID
    requires Relays(Tcp, slave, p, s) && s[6] != slave
    requires Await(Tcp, slave, Forwarded(Tcp, slave, p), s).Done?
    ensures var f := s[..Frame(Tcp, Confirmation, s).length];
      var req := Seal(Rtu, Prefix(Rtu, tid), slave, p);
      Await(Rtu, slave, req, Relayed(Rtu, req, Tcp, f) + later)
      == Failed(if slave == BROADCAST_ADDRESS then EMBBADDATA else EMBBADSLAVE)
  {
    DirectOutcome(Tcp, slave, p, s);
    RelayedOutcome(Rtu, Tcp, tid, slave, p, s, later);
  }

  /** A TCP link whose gateway lets the unit pass relays any answer under its transaction. */
  lemma SealRelaysAny(slave: byte, p: seq<byte>, unit: byte, r: seq<byte>)
    requires |p| <= MAX_PDU_LENGTH && Complete(r, Confirmation) && |r| <= MAX_PDU_LENGTH
    ensures var rsp := Seal(Tcp, Prefix(Tcp, 0), unit, r);
      && Relays(Tcp, slave, p, rsp) && Frame(Tcp, Confirmation, rsp) == Framed(|rsp|)
      && rsp[6] == unit && Body(Tcp, rsp) == r
  {
    var rsp := Seal(Tcp, Prefix(Tcp, 0), unit, r);
    SealFramed(Tcp, Confirmation, Prefix(Tcp, 0), unit, r, []);
    assert rsp + [] == rsp && rsp[..|rsp|] == rsp;
    PreCheckRelayed(Tcp, 0, slave, p, unit, r);
    BodyOfSeal(Tcp, Prefix(Tcp, 0), unit, r);
  }

  lemma AcceptedDone(slave: byte, p: seq<byte>, s: seq<byte>, r: seq<byte>)
    requires Complete(p, Indication) && |p| <= MAX_PDU_LENGTH
    requires Relays(Tcp, slave, p, s) && Frame(Tcp, Confirmation, s) == Framed(|s|) && Body(Tcp, s) == r
    requires Judge(p, r, |r|).Accept?
    ensures Await(Tcp, slave, Forwarded(Tcp, slave, p), s).Done?
  {
    assert s[..|s|] == s;
    DirectOutcome(Tcp, slave, p, s);
  }

  const ONE_REGISTER: seq<byte> := [FC_READ_HOLDING_REGISTERS, 0, 0, 0, 1]
  const NINE: seq<byte> := [FC_READ_HOLDING_REGISTERS, 2, 0, 9]

  lemma NineAnswers()
    ensures Complete(ONE_REGISTER, Indication) && Complete(NINE, Confirmation)
    ensures Judge(ONE_REGISTER, NINE, |NINE|).Accept?
  {
    AcceptedIff(ONE_REGISTER, ReadRegisters(false, 0, 1), NINE);
  }

  /** Unit 0 is asked for one register and unit 5 answers: 9. */
  lemma UnitZero(tid: word)
    ensures var (req, rsp) := (Seal(Rtu, Prefix(Rtu, tid), 0, ONE_REGISTER), Seal(Tcp, Prefix(Tcp, 0), 5, NINE));
      && Await(Tcp, 0, Forwarded(Tcp, 0, ONE_REGISTER), rsp).Done?
      && Await(Rtu, 0, req, Relayed(Rtu, req, Tcp, rsp)) == Failed(EMBBADDATA)
  {
    NineAnswers();
    UnitZeroFails(tid, ONE_REGISTER, 5, NINE, Seal(Tcp, Prefix(Tcp, 0), 5, NINE),
                  Seal(Rtu, Prefix(Rtu, tid), 0, ONE_REGISTER));
  }

  lemma UnitZeroFails(tid: word, p: seq<byte>, unit: byte, r: seq<byte>, rsp: seq<byte>, req: seq<byte>)
    requires Complete(p, Indication) && |p| <= MAX_PDU_LENGTH && p[0] != FC_REPORT_SLAVE_ID && unit != 0
    requires Complete(r, Confirmation) && |r| <= MAX_PDU_LENGTH && Judge(p, r, |r|).Accept?
    requires rsp == Seal(Tcp, Prefix(Tcp, 0), unit, r) && req == Seal(Rtu, Prefix(Rtu, tid), 0, p)
    ensures Await(Tcp, 0, Forwarded(Tcp, 0, p), rsp).Done?
    ensures Await(Rtu, 0, req, Relayed(Rtu, req, Tcp, rsp)) == Failed(EMBBADDATA)
  {
    SealRelaysAny(0, p, unit, r);
    AcceptedDone(0, p, rsp, r);
    assert rsp[..|rsp|] == rsp;
    ForeignUnit(tid, 0, p, rsp, []);
    assert Relayed(Rtu, req, Tcp, rsp) + [] == Relayed(Rtu, req, Tcp, rsp);
  }

  /** The gateway's own answer reaches the client as an exception, whatever follows: 10 for a path that is not
      available, 11 for a target that does not answer. */
  lemma RefusalReported(front: Backend, tid: word, slave: byte, q: Request, code: byte, later: seq<byte>)
    requires ClientBuilt(q) && code < 12
    ensures var req := ClientFrame(front, tid, slave, q);
      Await(front, slave, req, Refusal(front, req, code) + later) == Failed(112345678 + code as int)
  {
    var (p, r) := (EncodePdu(q), [q.Code() + 0x80, code]);
    EncodedComplete(q);
    CodeBelow(q);
    JudgeException(p, code, []);
    RefusalOf(front, tid, slave, p, code, ClientFrame(front, tid, slave, q));
    AwaitSealed(front, tid, slave, p, r, later);
  }

  lemma OwnPrefix(be: Backend, tid: word, slave: byte, p: seq<byte>)
    requires 1 <= |p| <= MAX_PDU_LENGTH
    ensures var req := Seal(be, Prefix(be, tid), slave, p);
      && AnswerPrefix(be, req) == Prefix(be, tid)
      && req[be.Header() - 1] == slave && req[be.Header()] == p[0]
  {
    var req := Seal(be, Prefix(be, tid), slave, p);
    assert req[be.Header()] == req[be.Header()..be.Header() + |p|][0];
    if be.Tcp? {
      assert req[..2] == req[..4][..2];
    }
  }

  lemma RefusalOf(front: Backend, tid: word, slave: byte, p: seq<byte>, code: byte, req: seq<byte>)
    requires 1 <= |p| <= MAX_PDU_LENGTH && p[0] < 0x80 && req == Seal(front, Prefix(front, tid), slave, p)
    ensures Refusal(front, req, code) == Seal(front, Prefix(front, tid), slave, [p[0] + 0x80, code])
  {
    OwnPrefix(front, tid, slave, p);
  }

  /** An answer that comes back through the gateway is reported to the client like any other. */
  lemma RelayReported(front: Backend, back: Backend, tid: word, slave: byte, q: Request, r: Response,
                      version: seq<byte>, rsp: seq<byte>, later: seq<byte>)
    requires ClientBuilt(q) && Answers(r, q) && |version| <= MAX_VERSION
    requires Carries(EncodePdu(q), q)
    requires var s := ResponsePdu(EncodePdu(q), r, version);
      && Complete(s, Confirmation) && |s| <= MAX_PDU_LENGTH && rsp == Seal(back, Prefix(back, 0), slave, s)
    ensures var req := ClientFrame(front, tid, slave, q);
      Reported(Await(front, slave, req, Relayed(front, req, back, rsp) + later), q, r, version)
  {
    var s := ResponsePdu(EncodePdu(q), r, version);
    EncodedComplete(q);
    SealFramed(back, Confirmation, Prefix(back, 0), slave, s, []);
    assert rsp + [] == rsp;
    BodyOfSeal(back, Prefix(back, 0), slave, s);
    RelayedFrame(front, back, tid, slave, EncodePdu(q), rsp, later);
    AnswerArrives(front, tid, slave, q, r, version, Seal(front, Prefix(front, tid), slave, s), later);
  }

  lemma SealRelays(back: Backend, slave: byte, p: seq<byte>, r: seq<byte>, more: seq<byte>)
    requires |p| <= MAX_PDU_LENGTH && Complete(r, Confirmation) && |r| <= MAX_PDU_LENGTH
    ensures Relays(back, slave, p, Seal(back, Prefix(back, 0), slave, r) + more)
  {
    var f := Seal(back, Prefix(back, 0), slave, r);
    SealFramed(back, Confirmation, Prefix(back, 0), slave, r, more);
    SealIntact(back, Prefix(back, 0), slave, r);
    PreCheckPasses(back, 0, slave, p, r);
    assert (f + more)[..|f|] == f;
  }

  /** Client, gateway and server of this library together: the server's answer is relayed, and reported to
      the client like that of its own server. */
  lemma CallThroughGateway(front: Backend, back: Backend, answerBroadcast: bool, tid: word, slave: byte, q: Request,
                           m: Memory, version: seq<byte>, more: seq<byte>, later: seq<byte>)
    requires ClientBuilt(q) && |version| <= MAX_VERSION
    requires back.Rtu? && !answerBroadcast ==> slave != BROADCAST_ADDRESS
    ensures |EncodePdu(q)| <= MAX_PDU_LENGTH
    ensures var (req, passed) := (ClientFrame(front, tid, slave, q), Forwarded(back, slave, EncodePdu(q)));
      var (r, after) := Execute(q, m);
      var (served, sent) := Reply(back, answerBroadcast, version, m, passed);
      && served == after && |sent| == 1
      && back.Header() + back.Checksum() <= |sent[0]| <= back.MaxAdu()
      && Relays(back, slave, EncodePdu(q), sent[0] + more)
      && (r.EchoRange? ==> q.WriteCoils? || q.WriteRegisters?)
      && Reported(Await(front, slave, req, Relayed(front, req, back, sent[0]) + later), q, r, version)
  {
    EncodedComplete(q);
    EncodedCarries(q);
    ExecuteAnswers(q, m);
    RequestServed(back, answerBroadcast, 0, slave, q, m, version);
    var r := Execute(q, m).0;
    var s := ResponsePdu(EncodePdu(q), r, version);
    SealRelays(back, slave, EncodePdu(q), s, more);
    RelayReported(front, back, tid, slave, q, r, version, Seal(back, Prefix(back, 0), slave, s), later);
  }
}
