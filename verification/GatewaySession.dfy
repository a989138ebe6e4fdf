/** A client, a gateway and a server: the code of all three on two links. */
module GatewaySession {
  import opened Bytes
  import opened Protocol
  import opened Memory
  import opened Server
  import opened Client
  import opened EndToEnd
  import opened Context
  import opened MappingTables
  import opened Calls
  import opened ClientHalf
  import opened Commands
  import opened Session
  import opened Gateway
  import opened ProxyCode

  /** The messages of one call: the client's request, the request passed on, the server's answer to it, and what
      the client gets. */
  datatype Messages = Messages(request: seq<byte>, passed: seq<byte>, answer: seq<byte>, relayed: seq<byte>)

  predicate Genuine(x: Messages, front: Backend, back: Backend, answerBroadcast: bool, tid: word, slave: byte,
                    q: Request, m: Memory, version: seq<byte>)
    requires ClientBuilt(q) && |version| <= MAX_VERSION && |EncodePdu(q)| <= MAX_PDU_LENGTH
  {
    && x.request == ClientFrame(front, tid, slave, q)
    && x.passed == Forwarded(back, slave, EncodePdu(q))
    && Reply(back, answerBroadcast, version, m, x.passed) == (Execute(q, m).1, [x.answer])
    && back.Header() + back.Checksum() <= |x.answer| <= back.MaxAdu()
    && x.relayed == Relayed(front, x.request, back, x.answer)
  }

  /** The server takes the request that the gateway passes on. */
  lemma PassedServed(back: Backend, answerBroadcast: bool, slave: byte, own: int, q: Request, m: Memory,
                     version: seq<byte>, passed: seq<byte>, rest: seq<byte>)
    requires ClientBuilt(q) && |version| <= MAX_VERSION && |EncodePdu(q)| <= MAX_PDU_LENGTH
    requires ServerAnswers(back, answerBroadcast, own, slave) && passed == Forwarded(back, slave, EncodePdu(q))
    ensures Frame(back, Indication, passed + rest) == Framed(|passed|)
    ensures ReceiveCode(back, own, Indication, passed + rest) > 0
    ensures (passed + rest)[..|passed|] == passed && (passed + rest)[|passed|..] == rest
  {
    assert passed == ClientFrame(back, 0, slave, q);
    RequestFramed(back, 0, slave, own, q, rest);
    assert (passed + rest)[..|passed|] == passed;
  }

  /** The gateway takes the client's request, and finds its unit and PDU. */
  lemma RequestTaken(front: Backend, tid: word, slave: byte, own: int, q: Request, request: seq<byte>, rest: seq<byte>)
    requires ClientBuilt(q) && (front.Rtu? ==> own == slave || slave == BROADCAST_ADDRESS)
    requires request == ClientFrame(front, tid, slave, q)
    ensures Frame(front, Indication, request + rest) == Framed(|request|)
    ensures ReceiveCode(front, own, Indication, request + rest) == |request| > front.Header() + front.Checksum()
    ensures (request + rest)[..|request|] == request
    ensures request[front.Header() - 1] == slave && Body(front, request) == EncodePdu(q)
    ensures 1 <= |EncodePdu(q)| <= MAX_PDU_LENGTH
  {
    EncodedComplete(q);
    RequestFramed(front, tid, slave, own, q, rest);
    assert (request + rest)[..|request|] == request;
    BodyOfSeal(front, Prefix(front, tid), slave, EncodePdu(q));
  }

  /** The gateway relays the server's answer. */
  lemma AnswerRelayed(back: Backend, answerBroadcast: bool, slave: byte, q: Request, m: Memory, version: seq<byte>,
                      passed: seq<byte>, answer: seq<byte>, more: seq<byte>)
    requires ClientBuilt(q) && |version| <= MAX_VERSION && |EncodePdu(q)| <= MAX_PDU_LENGTH
    requires back.Rtu? && !answerBroadcast ==> slave != BROADCAST_ADDRESS
    requires passed == Forwarded(back, slave, EncodePdu(q))
    requires Reply(back, answerBroadcast, version, m, passed).1 == [answer]
    ensures Frame(back, Confirmation, answer + more) == Framed(|answer|)
    ensures Relays(back, slave, EncodePdu(q), answer + more) && (answer + more)[..|answer|] == answer
  {
    RequestServed(back, answerBroadcast, 0, slave, q, m, version);
    var r := ResponsePdu(EncodePdu(q), Execute(q, m).0, version);
    assert passed == ClientFrame(back, 0, slave, q);
    SealRelays(back, slave, EncodePdu(q), r, more);
    SealFramed(back, Confirmation, Prefix(back, 0), slave, r, more);
  }

  /** The relayed answer tells the client of the operation. */
  lemma RelayedTells(x: Messages, front: Backend, back: Backend, answerBroadcast: bool, tid: word, slave: byte,
                     q: Request, m: Memory, version: seq<byte>, later: seq<byte>)
    requires ClientBuilt(q) && |version| <= MAX_VERSION && |EncodePdu(q)| <= MAX_PDU_LENGTH
    requires back.Rtu? && !answerBroadcast ==> slave != BROADCAST_ADDRESS
    requires Genuine(x, front, back, answerBroadcast, tid, slave, q, m, version)
    ensures Told(Await(front, slave, x.request, x.relayed + later), q, Execute(q, m).0, version)
  {
    CallThroughGateway(front, back, answerBroadcast, tid, slave, q, m, version, [], later);
    ExecuteAnswers(q, m);
    ReportTells(Await(front, slave, x.request, x.relayed + later), q, m, version);
  }

  /** `modbus_proxy`, when the answer that it waits for is one that it relays. */
  method ProxyRelays(front: Modbus, back: Modbus, request: seq<byte>, ghost x: Messages, ghost slave: byte,
                     ghost p: seq<byte>)
    requires front != back && front.reliable && back.reliable && request == x.request
    requires |x.request| > front.be.Header() + front.be.Checksum() && x.request[front.be.Header() - 1] == slave
    requires Body(front.be, x.request) == p && 1 <= |p| <= MAX_PDU_LENGTH
    requires SlaveAllowed(back.be, back.maxSlaveQuirk, slave) && x.passed == Forwarded(back.be, slave, p)
    requires Frame(back.be, Confirmation, back.incoming) == Framed(|x.answer|)
    requires Relays(back.be, slave, p, back.incoming) && back.incoming[..|x.answer|] == x.answer
    requires back.be.Header() + back.be.Checksum() <= |x.answer| <= back.be.MaxAdu()
    requires x.relayed == Relayed(front.be, x.request, back.be, x.answer)
    modifies front`sends, front`lastSend, front`errno
    modifies back`sends, back`lastSend, back`slave, back`incoming, back`errno
    ensures back.sends == old(back.sends) + [x.passed] && front.sends == old(front.sends) + [x.relayed]
  {
    var _ := ModbusProxy(front, back, request);
  }

  /** The gateway has a request before it, and the answer that it will relay. */
  ghost predicate CanPassOn(front: Modbus, back: Modbus, x: Messages, slave: byte, p: seq<byte>, rest: seq<byte>)
    reads front, back
  {
    && front != back && front.reliable && back.reliable
    && Awaited(front.be, front.confirmationToIgnore).Indication? && front.incoming == x.request + rest
    && Frame(front.be, Indication, front.incoming) == Framed(|x.request|)
    && ReceiveCode(front.be, front.slave, Indication, front.incoming) == |x.request|
    && |x.request| > front.be.Header() + front.be.Checksum() && x.request[front.be.Header() - 1] == slave
    && Body(front.be, x.request) == p && 1 <= |p| <= MAX_PDU_LENGTH
    && SlaveAllowed(back.be, back.maxSlaveQuirk, slave) && x.passed == Forwarded(back.be, slave, p)
    && Frame(back.be, Confirmation, back.incoming) == Framed(|x.answer|) && Relays(back.be, slave, p, back.incoming)
    && back.incoming[..|x.answer|] == x.answer
    && back.be.Header() + back.be.Checksum() <= |x.answer| <= back.be.MaxAdu()
    && x.relayed == Relayed(front.be, x.request, back.be, x.answer)
  }

  /** The gateway's turn: `modbus_receive` and `modbus_proxy`. */
  method PassOn(front: Modbus, back: Modbus, ghost x: Messages, ghost slave: byte, ghost p: seq<byte>,
                ghost rest: seq<byte>)
    requires CanPassOn(front, back, x, slave, p, rest)
    modifies front`incoming, front`errno, front`confirmationToIgnore, front`sends, front`lastSend
    modifies back`sends, back`lastSend, back`slave, back`incoming, back`errno
    ensures back.sends == old(back.sends) + [x.passed] && front.sends == old(front.sends) + [x.relayed]
  {
    ghost var s := front.incoming;
    var query := new byte[MAX_MESSAGE_LENGTH];
    var rc := Receive(front, query);
    if 0 < rc <= query.Length {
      assert s[..|x.request|] == x.request && query[..rc] == x.request;
      ProxyRelays(front, back, query[..rc], x, slave, p);
    }
  }

  /** Client, gateway and server before a call: every message of it is the next that its receiver gets. */
  ghost predicate Chained(client: Modbus, front: Modbus, back: Modbus, server: Modbus, mapping: Mapping,
                          version: seq<byte>, q: Request, x: Messages, rests: seq<seq<byte>>)
    requires ClientBuilt(q) && |version| <= MAX_VERSION && |EncodePdu(q)| <= MAX_PDU_LENGTH && |rests| == 4
    reads client, front, back, server
    reads mapping.tabBits, mapping.tabInputBits, mapping.tabRegisters, mapping.tabInputRegisters
  {
    && client !in {front, back, server} && front !in {back, server} && back != server
    && client.be == front.be && back.be == server.be && mapping.Valid() && 0 <= client.slave <= 255
    && client.reliable && front.reliable && back.reliable && server.reliable
    && Awaited(front.be, front.confirmationToIgnore).Indication?
    && Awaited(server.be, server.confirmationToIgnore).Indication?
    && (front.be.Rtu? ==> front.slave == client.slave || client.slave == BROADCAST_ADDRESS)
    && SlaveAllowed(back.be, back.maxSlaveQuirk, client.slave)
    && ServerAnswers(server.be, server.answerBroadcast, server.slave, client.slave)
    && Genuine(x, client.be, server.be, server.answerBroadcast, Advanced(client.be, client.tid), client.slave, q,
               mapping.Tables(), version)
    && front.incoming == x.request + rests[0] && server.incoming == x.passed + rests[1]
    && back.incoming == x.answer + rests[2] && client.incoming == x.relayed + rests[3]
  }

  /** The server has the request before it, and will answer it. */
  ghost predicate CanServe(server: Modbus, mapping: Mapping, version: seq<byte>, x: Messages, after: Memory)
    requires |version| <= MAX_VERSION
    reads server, mapping.tabBits, mapping.tabInputBits, mapping.tabRegisters, mapping.tabInputRegisters
  {
    && server.reliable && mapping.Valid() && Awaited(server.be, server.confirmationToIgnore).Indication?
    && Frame(server.be, Indication, server.incoming) == Framed(|x.passed|)
    && ReceiveCode(server.be, server.slave, Indication, server.incoming) > 0
    && Reply(server.be, server.answerBroadcast, version, mapping.Tables(), server.incoming[..|x.passed|])
       == (after, [x.answer])
  }

  lemma ChainServes(client: Modbus, front: Modbus, back: Modbus, server: Modbus, mapping: Mapping,
                    version: seq<byte>, q: Request, x: Messages, rests: seq<seq<byte>>)
    requires ClientBuilt(q) && |version| <= MAX_VERSION && |EncodePdu(q)| <= MAX_PDU_LENGTH && |rests| == 4
    requires Chained(client, front, back, server, mapping, version, q, x, rests)
    ensures CanServe(server, mapping, version, x, Execute(q, mapping.Tables()).1)
  {
    var (slave, m) := (client.slave, mapping.Tables());
    PassedServed(server.be, server.answerBroadcast, slave, server.slave, q, m, version, x.passed, rests[1]);
  }

  lemma ChainPassesOn(client: Modbus, front: Modbus, back: Modbus, server: Modbus, mapping: Mapping,
                      version: seq<byte>, q: Request, x: Messages, rests: seq<seq<byte>>)
    requires ClientBuilt(q) && |version| <= MAX_VERSION && |EncodePdu(q)| <= MAX_PDU_LENGTH && |rests| == 4
    requires Chained(client, front, back, server, mapping, version, q, x, rests)
    ensures CanPassOn(front, back, x, client.slave, EncodePdu(q), rests[0])
  {
    var (slave, tid, m) := (client.slave, Advanced(client.be, client.tid), mapping.Tables());
    AnswerRelayed(server.be, server.answerBroadcast, slave, q, m, version, x.passed, x.answer, rests[2]);
    RequestTaken(front.be, tid, slave, front.slave, q, x.request, rests[0]);
  }

  lemma ChainExpects(client: Modbus, front: Modbus, back: Modbus, server: Modbus, mapping: Mapping,
                     version: seq<byte>, q: Request, x: Messages, rests: seq<seq<byte>>)
    requires ClientBuilt(q) && |version| <= MAX_VERSION && |EncodePdu(q)| <= MAX_PDU_LENGTH && |rests| == 4
    requires Chained(client, front, back, server, mapping, version, q, x, rests)
    ensures Expecting(client, q, mapping.Tables(), version)
    ensures x.request == ClientFrame(client.be, Advanced(client.be, client.tid), client.slave, q)
  {
    var (slave, tid, m) := (client.slave, Advanced(client.be, client.tid), mapping.Tables());
    RelayedTells(x, client.be, server.be, server.answerBroadcast, tid, slave, q, m, version, rests[3]);
  }

  /** The call, when all that it needs is there. */
  method CallConveyed(client: Modbus, front: Modbus, back: Modbus, server: Modbus, mapping: Mapping,
                      version: seq<byte>, c: Command, ghost q: Request, ghost x: Messages, ghost slave: byte,
                      ghost p: seq<byte>, ghost rest: seq<byte>, ghost after: Memory)
    returns (res: Result)
    requires client !in {front, back, server} && front !in {back, server} && back != server
    requires InRange(c) && q == RequestOf(c) && |version| <= MAX_VERSION && BitsIn(mapping.Tables())
    requires CanPassOn(front, back, x, slave, p, rest) && CanServe(server, mapping, version, x, after)
    requires Expecting(client, q, mapping.Tables(), version)
    requires x.request == ClientFrame(client.be, Advanced(client.be, client.tid), client.slave, q)
    modifies client`sends, client`lastSend, client`incoming, client`errno, client`tid
    modifies front`incoming, front`errno, front`confirmationToIgnore, front`sends, front`lastSend
    modifies back`sends, back`lastSend, back`slave, back`incoming, back`errno
    modifies server`incoming, server`errno, server`confirmationToIgnore, server`sends, server`lastSend
    modifies mapping.tabBits, mapping.tabRegisters
    ensures mapping.Tables() == after && Agrees(res, q, Execute(q, old(mapping.Tables())).0, version)
    ensures client.sends == old(client.sends) + [x.request] && back.sends == old(back.sends) + [x.passed]
    ensures server.sends == old(server.sends) + [x.answer] && front.sends == old(front.sends) + [x.relayed]
  {
    ghost var m := mapping.Tables();
    ServePending(server, mapping, version, |x.passed|, (after, [x.answer]));
    PassOn(front, back, x, slave, p, rest);
    res := Perform(client, c, q, m, version);
  }

  /** A call through a gateway, the code of all three together: for any pairing of framings the server's memory
      becomes that of the operation, the client gets its result, and what each has sent is what the next one had. */
  method CallThrough(client: Modbus, front: Modbus, back: Modbus, server: Modbus, mapping: Mapping,
                     version: seq<byte>, c: Command, ghost q: Request, ghost x: Messages, ghost rests: seq<seq<byte>>)
    returns (res: Result)
    requires InRange(c) && q == RequestOf(c) && |version| <= MAX_VERSION && |EncodePdu(q)| <= MAX_PDU_LENGTH
    requires |rests| == 4 && Chained(client, front, back, server, mapping, version, q, x, rests)
    requires BitsIn(mapping.Tables())
    modifies client`sends, client`lastSend, client`incoming, client`errno, client`tid
    modifies front`incoming, front`errno, front`confirmationToIgnore, front`sends, front`lastSend
    modifies back`sends, back`lastSend, back`slave, back`incoming, back`errno
    modifies server`incoming, server`errno, server`confirmationToIgnore, server`sends, server`lastSend
    modifies mapping.tabBits, mapping.tabRegisters
    ensures mapping.Tables() == Execute(q, old(mapping.Tables())).1
    ensures Agrees(res, q, Execute(q, old(mapping.Tables())).0, version)
    ensures client.sends == old(client.sends) + [x.request] && back.sends == old(back.sends) + [x.passed]
    ensures server.sends == old(server.sends) + [x.answer] && front.sends == old(front.sends) + [x.relayed]
  {
    ChainServes(client, front, back, server, mapping, version, q, x, rests);
    ChainPassesOn(client, front, back, server, mapping, version, q, x, rests);
    ChainExpects(client, front, back, server, mapping, version, q, x, rests);
    res := CallConveyed(client, front, back, server, mapping, version, c, q, x, client.slave, EncodePdu(q), rests[0],
                        Execute(q, mapping.Tables()).1);
  }

  // ---- A gateway that cannot relay ----------------------------------------------------

  /** A request that the gateway receives and for which the other link brings no response to relay. */
  ghost predicate CannotRelay(front: Modbus, back: Modbus, request: seq<byte>, slave: byte, p: seq<byte>,
                              rest: seq<byte>)
    reads front, back
  {
    && front != back && front.reliable
    && Awaited(front.be, front.confirmationToIgnore).Indication? && front.incoming == request + rest
    && Frame(front.be, Indication, front.incoming) == Framed(|request|)
    && ReceiveCode(front.be, front.slave, Indication, front.incoming) == |request|
    && |request| > front.be.Header() + front.be.Checksum() && request[front.be.Header() - 1] == slave
    && Body(front.be, request) == p && 1 <= |p| <= MAX_PDU_LENGTH
    && !Relays(back.be, slave, p, back.incoming)
  }

  /** `modbus_proxy` answers with one of its own exceptions, whatever has gone wrong on the other link. */
  method ProxyRefuses(front: Modbus, back: Modbus, request: seq<byte>, ghost slave: byte, ghost p: seq<byte>)
    returns (ghost code: byte)
    requires front != back && |request| > front.be.Header() + front.be.Checksum()
    requires request[front.be.Header() - 1] == slave && Body(front.be, request) == p && 1 <= |p| <= MAX_PDU_LENGTH
    requires !Relays(back.be, slave, p, back.incoming)
    modifies front`sends, front`lastSend, front`errno
    modifies back`sends, back`lastSend, back`slave, back`incoming, back`errno
    ensures (code == 10 || code == 11) && front.sends == old(front.sends) + [Refusal(front.be, request, code)]
  {
    ghost var sends := front.sends;
    var _ := ModbusProxy(front, back, request);
    if front.sends == sends + [Refusal(front.be, request, 10)] {
      code := 10;
    } else {
      code := 11;
    }
  }

  /** The gateway's turn. */
  method Refuse(front: Modbus, back: Modbus, ghost request: seq<byte>, ghost slave: byte, ghost p: seq<byte>,
                ghost rest: seq<byte>)
    returns (ghost code: byte)
    requires CannotRelay(front, back, request, slave, p, rest)
    modifies front`incoming, front`errno, front`confirmationToIgnore, front`sends, front`lastSend
    modifies back`sends, back`lastSend, back`slave, back`incoming, back`errno
    ensures (code == 10 || code == 11) && front.sends == old(front.sends) + [Refusal(front.be, request, code)]
  {
    ghost var s := front.incoming;
    var query := new byte[MAX_MESSAGE_LENGTH];
    var rc := Receive(front, query);
    if 0 < rc <= query.Length {
      assert s[..|request|] == request && query[..rc] == request;
      code := ProxyRefuses(front, back, query[..rc], slave, p);
    }
  }

  /** A call through a gateway that cannot relay, the code of both: the gateway sends exactly one answer, an
      exception of its own, 10 or 11. If that is what comes to the client, its call, whichever it is, returns -1
      with the error of that exception. */
  method CallRefused(client: Modbus, front: Modbus, back: Modbus, c: Command, ghost q: Request,
                     ghost request: seq<byte>, ghost p: seq<byte>, ghost rest: seq<byte>, ghost later: seq<byte>)
    returns (rc: int, ghost code: byte)
    requires client !in {front, back} && client.be == front.be && client.reliable && 0 <= client.slave <= 255
    requires InRange(c) && q == RequestOf(c)
    requires request == ClientFrame(client.be, Advanced(client.be, client.tid), client.slave, q)
    requires CannotRelay(front, back, request, client.slave, p, rest)
    modifies client`sends, client`lastSend, client`incoming, client`errno, client`tid
    modifies front`incoming, front`errno, front`confirmationToIgnore, front`sends, front`lastSend
    modifies back`sends, back`lastSend, back`slave, back`incoming, back`errno
    ensures (code == 10 || code == 11) && front.sends == old(front.sends) + [Refusal(front.be, request, code)]
    ensures old(client.incoming) == Refusal(front.be, request, code) + later ==>
      rc == -1 && client.errno == 112345678 + code
  {
    code := Refuse(front, back, request, client.slave, p, rest);
    RefusalReported(client.be, Advanced(client.be, client.tid), client.slave, q, code, later);
    rc := Issue(client, c, q);
  }
}
