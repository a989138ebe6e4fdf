/** A client and a server of this library on the two ends of a link. The bytes that will arrive at either
    end are part of its state, so the order in which the two ends run does not matter. */
module Session {
  import opened Bytes
  import opened Bits
  import opened Protocol
  import opened Memory
  import opened Server
  import opened Client
  import opened EndToEnd
  import opened Context
  import opened MappingTables
  import opened ReplyCode
  import opened Data
  import opened Calls
  import opened ClientHalf
  import opened Bus
  import opened Wire

  /** What a server waits for: a request, or in RTU the response to a foreign one. */
  function Awaited(be: Backend, ignoring: bool): MsgType { if be.Rtu? && ignoring then Confirmation else Indication }

  /** A whole request for this server has been received from the stream `s`, and `left` is left of it. */
  predicate Requested(be: Backend, slave: int, ignoring: bool, s: seq<byte>, left: seq<byte>)
  {
    && Awaited(be, ignoring).Indication? && Whole(be, Indication, s, left)
    && ReceiveCode(be, slave, Indication, s) > 0
  }

  lemma WholeRequest(be: Backend, slave: int, s: seq<byte>, left: seq<byte>)
    requires Whole(be, Indication, s, left) && ReceiveCode(be, slave, Indication, s) > 0
    ensures ReceiveCode(be, slave, Indication, s) == |s| - |left| >= be.Header() + 1
    ensures Frame(be, Indication, s) == Framed(|s| - |left|)
  {
  }

  /** `modbus_receive` of either backend: a positive code tells of a whole request for this server. */
  method Receive(ctx: Modbus, req: array<byte>) returns (rc: int)
    requires req.Length >= MAX_MESSAGE_LENGTH
    modifies ctx`incoming, ctx`errno, ctx`confirmationToIgnore, req
    ensures |ctx.incoming| <= |old(ctx.incoming)|
    ensures var (s, taken) := (old(ctx.incoming), |old(ctx.incoming)| - |ctx.incoming|);
      var (mt, ignoring) := (Awaited(ctx.be, old(ctx.confirmationToIgnore)), old(ctx.confirmationToIgnore));
      && ctx.incoming == s[taken..] && s[..taken] <= req[..]
      && (rc > 0 <==> Requested(ctx.be, ctx.slave, ignoring, s, ctx.incoming))
      && (rc > 0 ==> rc == taken >= ctx.be.Header() + 1 && Awaited(ctx.be, ctx.confirmationToIgnore).Indication?)
      && (ctx.reliable && !Frame(ctx.be, mt, s).Incomplete? ==> Whole(ctx.be, mt, s, ctx.incoming))
      && (rc <= 0 ==>
            rc == if mt.Confirmation? then 0
                  else if Whole(ctx.be, mt, s, ctx.incoming) then ReceiveCode(ctx.be, ctx.slave, mt, s) else -1)
  {
    ghost var s, m := ctx.incoming, req[..];
    if ctx.be.Tcp? {
      rc := ReceiveMsg(ctx, req, Indication);
    } else {
      rc := RtuReceive(ctx, req);
    }
    StillTaken(s, ctx.incoming, m, req[..], ctx.be);
    if Whole(ctx.be, Indication, s, ctx.incoming) && ReceiveCode(ctx.be, ctx.slave, Indication, s) > 0 {
      WholeRequest(ctx.be, ctx.slave, s, ctx.incoming);
    }
  }

  /** `modbus_reply` to the request `f`, which is in the buffer. */
  method ReplyTo(ctx: Modbus, query: array<byte>, length: nat, mapping: Mapping, version: seq<byte>, ghost f: seq<byte>)
    returns (rc: int)
    requires mapping.Valid() && |version| <= MAX_VERSION && length <= query.Length
    requires f <= query[..] && length == |f| >= ctx.be.Header() + 1
    modifies ctx`errno, ctx`sends, ctx`lastSend, mapping.tabBits, mapping.tabRegisters
    ensures var (after, sent) := Reply(ctx.be, ctx.answerBroadcast, version, old(mapping.Tables()), f);
      && mapping.Tables() == after && ctx.sends == old(ctx.sends) + sent
      && (if sent == [] then rc == 0 else SendCode(rc, ctx.lastSend, |sent[0]|, ctx.errno, ctx.reliable))
  {
    assert query[..length] == f;
    rc := ModbusReply(ctx, query[..length], mapping, version);
  }

  /** One turn of a server, on any link: if what it receives is a whole request for it, it answers it, and if
      not it does nothing; while the link holds it receives what has arrived whole. */
  method ServeOne(ctx: Modbus, mapping: Mapping, version: seq<byte>) returns (rc: int)
    requires mapping.Valid() && |version| <= MAX_VERSION
    modifies ctx`incoming, ctx`errno, ctx`confirmationToIgnore, ctx`sends, ctx`lastSend
    modifies mapping.tabBits, mapping.tabRegisters
    ensures |ctx.incoming| <= |old(ctx.incoming)|
    ensures var (s, taken) := (old(ctx.incoming), |old(ctx.incoming)| - |ctx.incoming|);
      var mt := Awaited(ctx.be, old(ctx.confirmationToIgnore));
      && ctx.incoming == s[taken..]
      && (ctx.reliable && !Frame(ctx.be, mt, s).Incomplete? ==> Whole(ctx.be, mt, s, ctx.incoming))
      && if Requested(ctx.be, ctx.slave, old(ctx.confirmationToIgnore), s, ctx.incoming) then
           var (after, sent) := Reply(ctx.be, ctx.answerBroadcast, version, old(mapping.Tables()), s[..taken]);
           && mapping.Tables() == after && ctx.sends == old(ctx.sends) + sent
           && Awaited(ctx.be, ctx.confirmationToIgnore).Indication?
           && (if sent == [] then rc == 0 else SendCode(rc, ctx.lastSend, |sent[0]|, ctx.errno, ctx.reliable))
         else
           && mapping.Tables() == old(mapping.Tables()) && ctx.sends == old(ctx.sends)
           && rc == if mt.Confirmation? then 0
                    else if Whole(ctx.be, mt, s, ctx.incoming) then ReceiveCode(ctx.be, ctx.slave, mt, s) else -1
  {
    ghost var s := ctx.incoming;
    var query := new byte[MAX_MESSAGE_LENGTH];
    rc := Receive(ctx, query);
    if rc > 0 {
      rc := ReplyTo(ctx, query, rc, mapping, version, s[..|s| - |ctx.incoming|]);
    }
  }

  /** A corrupt frame is no request. */
  lemma CorruptNotRequested(slave: int, ignoring: bool, s: seq<byte>, left: seq<byte>)
    requires Corrupt(Awaited(Rtu, ignoring), s)
    ensures !Requested(Rtu, slave, ignoring, s, left)
  {
    RefusedIffCorrupt(slave, Awaited(Rtu, ignoring), s);
  }

  /** A server is left as it was by a corrupt frame: it executes nothing and sends nothing. */
  method ServeCorrupt(ctx: Modbus, mapping: Mapping, version: seq<byte>) returns (rc: int)
    requires mapping.Valid() && |version| <= MAX_VERSION
    requires ctx.be.Rtu? && Corrupt(Awaited(Rtu, ctx.confirmationToIgnore), ctx.incoming)
    modifies ctx`incoming, ctx`errno, ctx`confirmationToIgnore, ctx`sends, ctx`lastSend
    modifies mapping.tabBits, mapping.tabRegisters
    ensures mapping.Tables() == old(mapping.Tables()) && ctx.sends == old(ctx.sends)
    ensures rc == if old(ctx.confirmationToIgnore) then 0 else -1
  {
    ghost var s, ignoring := ctx.incoming, ctx.confirmationToIgnore;
    rc := ServeOne(ctx, mapping, version);
    CorruptNotRequested(ctx.slave, ignoring, s, ctx.incoming);
    RefusedIffCorrupt(ctx.slave, Awaited(Rtu, ignoring), s);
  }

  // ---- Calls that are served -------------------------------------------------------------

  /** The two ends of a link: the request that the client is about to send is the next that the server
      receives, and the server's answer is the next that the client receives. */
  ghost predicate Linked(client: Modbus, server: Modbus, mapping: Mapping, version: seq<byte>, q: Request,
                         rest: seq<byte>, later: seq<byte>)
    requires ClientBuilt(q) && |version| <= MAX_VERSION
    reads client, server, mapping.tabBits, mapping.tabInputBits, mapping.tabRegisters, mapping.tabInputRegisters
  {
    && client != server && client.be == server.be && client.reliable && server.reliable
    && 0 <= client.slave <= 255 && mapping.Valid() && (client.be.Rtu? ==> !server.confirmationToIgnore)
    && ServerAnswers(server.be, server.answerBroadcast, server.slave, client.slave)
    && var req := ClientFrame(client.be, Advanced(client.be, client.tid), client.slave, q);
    && server.incoming == req + rest
    && var sent := Reply(server.be, server.answerBroadcast, version, mapping.Tables(), req).1;
    && |sent| == 1 && client.incoming == sent[0] + later
  }

  lemma CallTells(be: Backend, answerBroadcast: bool, tid: word, slave: byte, own: int, q: Request, m: Memory,
                  version: seq<byte>, rest: seq<byte>, later: seq<byte>)
    requires ClientBuilt(q) && |version| <= MAX_VERSION && ServerAnswers(be, answerBroadcast, own, slave)
    ensures var req := ClientFrame(be, tid, slave, q);
      var (served, sent) := Reply(be, answerBroadcast, version, m, req);
      && Frame(be, Indication, req + rest) == Framed(|req|)
      && (req + rest)[..|req|] == req && (req + rest)[|req|..] == rest
      && Integrity(be, own, req) == |req|
      && served == Execute(q, m).1 && |sent| == 1
      && Told(Await(be, slave, req, sent[0] + later), q, Execute(q, m).0, version)
  {
    RemoteCall(be, answerBroadcast, tid, slave, own, q, m, version, rest, later);
    ExecuteAnswers(q, m);
    var req := ClientFrame(be, tid, slave, q);
    ReportTells(Await(be, slave, req, Reply(be, answerBroadcast, version, m, req).1[0] + later), q, m, version);
  }

  /** What either end has sent is what the other end had before it. */
  twostate predicate Carried(client: Modbus, server: Modbus, rest: seq<byte>, later: seq<byte>)
    reads client, server
  {
    && |client.sends| == |old(client.sends)| + 1
    && old(server.incoming) == client.sends[|old(client.sends)|] + rest
    && |server.sends| == |old(server.sends)| + 1
    && old(client.incoming) == server.sends[|old(server.sends)|] + later
  }

  /** What the two ends of a link have before them. */
  lemma LinkTells(client: Modbus, server: Modbus, mapping: Mapping, version: seq<byte>, q: Request,
                  rest: seq<byte>, later: seq<byte>)
    requires ClientBuilt(q) && |version| <= MAX_VERSION && Linked(client, server, mapping, version, q, rest, later)
    ensures Frame(server.be, Indication, server.incoming).Framed?
    ensures Awaited(server.be, server.confirmationToIgnore) == Indication && server.reliable
    ensures var (s, n) := (server.incoming, Frame(server.be, Indication, server.incoming).length);
      && s[n..] == rest && ReceiveCode(server.be, server.slave, Indication, s) > 0
      && var (after, sent) := Reply(server.be, server.answerBroadcast, version, mapping.Tables(), s[..n]);
      && after == Execute(q, mapping.Tables()).1 && |sent| == 1 && client.incoming == sent[0] + later
    ensures Told(Ahead(client, q), q, Execute(q, mapping.Tables()).0, version)
  {
    CallTells(server.be, server.answerBroadcast, Advanced(client.be, client.tid), client.slave, server.slave, q,
              mapping.Tables(), version, rest, later);
  }

  /** The server's half of a call. */
  method Served(client: Modbus, server: Modbus, mapping: Mapping, version: seq<byte>, ghost q: Request,
                ghost rest: seq<byte>, ghost later: seq<byte>)
    requires ClientBuilt(q) && |version| <= MAX_VERSION && Linked(client, server, mapping, version, q, rest, later)
    modifies server`incoming, server`errno, server`confirmationToIgnore, server`sends, server`lastSend
    modifies mapping.tabBits, mapping.tabRegisters
    ensures server.incoming == rest && mapping.Tables() == Execute(q, old(mapping.Tables())).1
    ensures Awaited(server.be, server.confirmationToIgnore).Indication? && old(server.sends) <= server.sends
    ensures |server.sends| == |old(server.sends)| + 1 && client.incoming == server.sends[|old(server.sends)|] + later
    ensures Expecting(client, q, old(mapping.Tables()), version)
  {
    LinkTells(client, server, mapping, version, q, rest, later);
    ghost var (s, n) := (server.incoming, Frame(server.be, Indication, server.incoming).length);
    ghost var answer := Reply(server.be, server.answerBroadcast, version, mapping.Tables(), s[..n]);
    ServePending(server, mapping, version, n, answer);
  }

  /** A turn of the server when a request of length `n` for it is pending. */
  method ServePending(ctx: Modbus, mapping: Mapping, version: seq<byte>, ghost n: nat,
                      ghost answer: (Memory, seq<seq<byte>>))
    requires mapping.Valid() && |version| <= MAX_VERSION && ctx.reliable
    requires Awaited(ctx.be, ctx.confirmationToIgnore) == Indication
    requires Frame(ctx.be, Indication, ctx.incoming) == Framed(n)
    requires ReceiveCode(ctx.be, ctx.slave, Indication, ctx.incoming) > 0
    requires answer == Reply(ctx.be, ctx.answerBroadcast, version, mapping.Tables(), ctx.incoming[..n])
    modifies ctx`incoming, ctx`errno, ctx`confirmationToIgnore, ctx`sends, ctx`lastSend
    modifies mapping.tabBits, mapping.tabRegisters
    ensures ctx.incoming == old(ctx.incoming)[n..]
    ensures mapping.Tables() == answer.0 && ctx.sends == old(ctx.sends) + answer.1
    ensures Awaited(ctx.be, ctx.confirmationToIgnore).Indication?
  {
    ghost var s := ctx.incoming;
    var _ := ServeOne(ctx, mapping, version);
    assert |s| - |ctx.incoming| == n;
  }

  /** Reading registers remotely is reading them: the values, the count or the error, and nothing changed. */
  method RemoteReadRegisters(client: Modbus, server: Modbus, mapping: Mapping, version: seq<byte>, input: bool,
                             addr: word, nb: word, dest: array<word>, ghost q: Request, ghost rest: seq<byte>,
                             ghost later: seq<byte>)
    returns (rc: int)
    requires |version| <= MAX_VERSION && 1 <= nb <= MAX_READ_REGISTERS && nb <= dest.Length
    requires dest != mapping.tabRegisters && dest != mapping.tabInputRegisters
    requires q == ReadRegisters(input, addr, nb)
    requires Linked(client, server, mapping, version, q, rest, later)
    modifies client`sends, client`lastSend, client`incoming, client`errno, client`tid, dest
    modifies server`incoming, server`errno, server`confirmationToIgnore, server`sends, server`lastSend
    modifies mapping.tabBits, mapping.tabRegisters
    ensures Carried(client, server, rest, later)
    ensures AsLocal(q, old(mapping.Tables()), mapping.Tables(), version, rc, client.errno)
    ensures var r := Execute(q, old(mapping.Tables())).0;
      dest[..] == (if r.Registers? then r.words + old(dest[nb..]) else old(dest[..]))
  {
    ghost var m := mapping.Tables();
    Served(client, server, mapping, version, q, rest, later);
    rc := GetRegisters(client, input, addr, nb, dest, q, m, version);
  }

  /** Reading bits remotely is reading them; the call returns their number, not that of the bytes. */
  method RemoteReadBits(client: Modbus, server: Modbus, mapping: Mapping, version: seq<byte>, input: bool, addr: word,
                        nb: word, dest: array<byte>, ghost rest: seq<byte>, ghost later: seq<byte>)
    returns (rc: int)
    requires |version| <= MAX_VERSION && 1 <= nb <= MAX_READ_BITS && nb <= dest.Length
    requires dest != mapping.tabBits && dest != mapping.tabInputBits
    requires AllBits(if input then mapping.tabInputBits[..] else mapping.tabBits[..])
    requires Linked(client, server, mapping, version, ReadBits(input, addr, nb), rest, later)
    modifies client`sends, client`lastSend, client`incoming, client`errno, client`tid, dest
    modifies server`incoming, server`errno, server`confirmationToIgnore, server`sends, server`lastSend
    modifies mapping.tabBits, mapping.tabRegisters
    ensures Carried(client, server, rest, later)
    ensures var (r, after) := Execute(ReadBits(input, addr, nb), old(mapping.Tables()));
      && mapping.Tables() == after
      && rc == (if r.Cells? then nb else -1)
      && (r.Exception? ==> client.errno == ENOBASE + r.code)
      && dest[..] == (if r.Cells? then r.bits + old(dest[nb..]) else old(dest[..]))
  {
    ghost var q := ReadBits(input, addr, nb);
    ghost var m := mapping.Tables();
    Served(client, server, mapping, version, q, rest, later);
    rc := GetBits(client, input, addr, nb, dest, q, m, version);
  }

  /** Writing registers remotely is writing them. */
  method RemoteWriteRegisters(client: Modbus, server: Modbus, mapping: Mapping, version: seq<byte>, addr: word,
                              nb: word, src: seq<word>, ghost q: Request, ghost rest: seq<byte>,
                              ghost later: seq<byte>)
    returns (rc: int)
    requires |version| <= MAX_VERSION && 1 <= nb <= MAX_WRITE_REGISTERS && nb <= |src|
    requires q == WriteRegisters(addr, nb, WordBytes(src[..nb]))
    requires Linked(client, server, mapping, version, q, rest, later)
    modifies client`sends, client`lastSend, client`incoming, client`errno, client`tid
    modifies server`incoming, server`errno, server`confirmationToIgnore, server`sends, server`lastSend
    modifies mapping.tabBits, mapping.tabRegisters
    ensures Carried(client, server, rest, later)
    ensures AsLocal(q, old(mapping.Tables()), mapping.Tables(), version, rc, client.errno)
  {
    ghost var m := mapping.Tables();
    Served(client, server, mapping, version, q, rest, later);
    rc := SendRegisters(client, addr, nb, src, q, m, version);
  }

  /** Writing coils remotely is writing them. */
  method RemoteWriteBits(client: Modbus, server: Modbus, mapping: Mapping, version: seq<byte>, addr: word, nb: word,
                         src: seq<byte>, ghost q: Request, ghost rest: seq<byte>, ghost later: seq<byte>)
    returns (rc: int)
    requires |version| <= MAX_VERSION && 1 <= nb <= MAX_WRITE_BITS && nb <= |src|
    requires q == WriteCoils(addr, nb, PackCells(Normal(src[..nb])))
    requires Linked(client, server, mapping, version, q, rest, later)
    modifies client`sends, client`lastSend, client`incoming, client`errno, client`tid
    modifies server`incoming, server`errno, server`confirmationToIgnore, server`sends, server`lastSend
    modifies mapping.tabBits, mapping.tabRegisters
    ensures Carried(client, server, rest, later)
    ensures AsLocal(q, old(mapping.Tables()), mapping.Tables(), version, rc, client.errno)
  {
    ghost var m := mapping.Tables();
    Served(client, server, mapping, version, q, rest, later);
    rc := SendBits(client, addr, nb, src, q, m, version);
  }

  /** Writing and reading remotely is doing both, in this order. */
  method RemoteWriteAndRead(client: Modbus, server: Modbus, mapping: Mapping, version: seq<byte>, writeAddr: word,
                            writeNb: word, src: seq<word>, readAddr: word, readNb: word, dest: array<word>,
                            ghost q: Request, ghost rest: seq<byte>, ghost later: seq<byte>)
    returns (rc: int)
    requires |version| <= MAX_VERSION && 1 <= writeNb <= MAX_WR_WRITE_REGISTERS && writeNb <= |src|
    requires 1 <= readNb <= MAX_WR_READ_REGISTERS && readNb <= dest.Length
    requires dest != mapping.tabRegisters && dest != mapping.tabInputRegisters
    requires q == WriteRead(readAddr, readNb, writeAddr, writeNb, WordBytes(src[..writeNb]))
    requires Linked(client, server, mapping, version, q, rest, later)
    modifies client`sends, client`lastSend, client`incoming, client`errno, client`tid, dest
    modifies server`incoming, server`errno, server`confirmationToIgnore, server`sends, server`lastSend
    modifies mapping.tabBits, mapping.tabRegisters
    ensures Carried(client, server, rest, later)
    ensures AsLocal(q, old(mapping.Tables()), mapping.Tables(), version, rc, client.errno)
    ensures var r := Execute(q, old(mapping.Tables())).0;
      dest[..] == (if r.Registers? then r.words + old(dest[readNb..]) else old(dest[..]))
  {
    ghost var m := mapping.Tables();
    Served(client, server, mapping, version, q, rest, later);
    rc := SendAndGetRegisters(client, writeAddr, writeNb, src, readAddr, readNb, dest, q, m, version);
  }

  /** A remote mask write is a local one. */
  method RemoteMaskWrite(client: Modbus, server: Modbus, mapping: Mapping, version: seq<byte>, addr: word,
                         andMask: word, orMask: word, ghost q: Request, ghost rest: seq<byte>, ghost later: seq<byte>)
    returns (rc: int)
    requires |version| <= MAX_VERSION
    requires q == MaskWrite(addr, andMask, orMask, true) && Linked(client, server, mapping, version, q, rest, later)
    modifies client`sends, client`lastSend, client`incoming, client`errno, client`tid
    modifies server`incoming, server`errno, server`confirmationToIgnore, server`sends, server`lastSend
    modifies mapping.tabBits, mapping.tabRegisters
    ensures Carried(client, server, rest, later)
    ensures AsLocal(q, old(mapping.Tables()), mapping.Tables(), version, rc, client.errno)
  {
    ghost var m := mapping.Tables();
    Served(client, server, mapping, version, q, rest, later);
    rc := MaskRegister(client, addr, andMask, orMask, q, m, version);
  }

  /** Writing one coil remotely is writing it. */
  method RemoteWriteBit(client: Modbus, server: Modbus, mapping: Mapping, version: seq<byte>, addr: word,
                        status: bool, ghost q: Request, ghost rest: seq<byte>, ghost later: seq<byte>)
    returns (rc: int)
    requires |version| <= MAX_VERSION
    requires q == WriteCoil(addr, if status then 0xFF00 else 0, true)
    requires Linked(client, server, mapping, version, q, rest, later)
    modifies client`sends, client`lastSend, client`incoming, client`errno, client`tid
    modifies server`incoming, server`errno, server`confirmationToIgnore, server`sends, server`lastSend
    modifies mapping.tabBits, mapping.tabRegisters
    ensures Carried(client, server, rest, later)
    ensures AsLocal(q, old(mapping.Tables()), mapping.Tables(), version, rc, client.errno)
  {
    ghost var m := mapping.Tables();
    Served(client, server, mapping, version, q, rest, later);
    rc := SendBit(client, addr, status, q, m, version);
  }

  /** Writing one register remotely is writing it. */
  method RemoteWriteRegister(client: Modbus, server: Modbus, mapping: Mapping, version: seq<byte>, addr: word,
                             value: word, ghost q: Request, ghost rest: seq<byte>, ghost later: seq<byte>)
    returns (rc: int)
    requires |version| <= MAX_VERSION
    requires q == WriteRegister(addr, value, true) && Linked(client, server, mapping, version, q, rest, later)
    modifies client`sends, client`lastSend, client`incoming, client`errno, client`tid
    modifies server`incoming, server`errno, server`confirmationToIgnore, server`sends, server`lastSend
    modifies mapping.tabBits, mapping.tabRegisters
    ensures Carried(client, server, rest, later)
    ensures AsLocal(q, old(mapping.Tables()), mapping.Tables(), version, rc, client.errno)
  {
    ghost var m := mapping.Tables();
    Served(client, server, mapping, version, q, rest, later);
    rc := SendRegister(client, addr, value, q, m, version);
  }

  /** Asking for the slave identifier brings it, or as much of it as is asked for. */
  method RemoteReportSlaveId(client: Modbus, server: Modbus, mapping: Mapping, version: seq<byte>, maxDest: nat,
                             dest: array<byte>, ghost q: Request, ghost rest: seq<byte>, ghost later: seq<byte>)
    returns (rc: int)
    requires |version| <= MAX_VERSION && 0 < maxDest <= dest.Length
    requires dest != mapping.tabBits && dest != mapping.tabInputBits
    requires q == ReportSlaveId && Linked(client, server, mapping, version, q, rest, later)
    modifies client`sends, client`lastSend, client`incoming, client`errno, client`tid, dest
    modifies server`incoming, server`errno, server`confirmationToIgnore, server`sends, server`lastSend
    modifies mapping.tabBits, mapping.tabRegisters
    ensures Carried(client, server, rest, later)
    ensures AsLocal(q, old(mapping.Tables()), mapping.Tables(), version, rc, client.errno)
    ensures var n := if 5 + |version| < maxDest then 5 + |version| else maxDest;
      dest[..] == Identifier(version)[..n] + old(dest[n..])
  {
    ghost var m := mapping.Tables();
    Served(client, server, mapping, version, q, rest, later);
    rc := GetSlaveId(client, maxDest, dest, q, m, version);
  }
}
