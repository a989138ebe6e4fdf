/** Programs of client calls, one after another on one link. */
module Programs {
  import opened Bytes
  import opened Protocol
  import opened Memory
  import opened Server
  import opened Client
  import opened EndToEnd
  import opened Streams
  import opened Runs
  import opened Context
  import opened MappingTables
  import opened Calls
  import opened ClientHalf
  import opened Commands
  import opened Session

  /** The frames that the calls `cs` send when the transaction counter stands at `tid`. */
  function FramesOf(be: Backend, tid: word, slave: byte, cs: seq<Command>): (fs: seq<seq<byte>>)
    requires forall c :: c in cs ==> InRange(c)
    ensures forall f :: f in fs ==> |f| >= be.Header() + 1
    decreases |cs|
  {
    if cs == [] then []
    else
      [ClientFrame(be, Advanced(be, tid), slave, RequestOf(cs[0]))] + FramesOf(be, Advanced(be, tid), slave, cs[1..])
  }

  /** The memory after the operations that the calls stand for. */
  function AfterAll(cs: seq<Command>, m: Memory): Memory
    requires forall c :: c in cs ==> InRange(c)
  {
    if cs == [] then m else AfterAll(cs[1..], Execute(RequestOf(cs[0]), m).1)
  }

  /** Every result is that of its own operation, on the memory that the ones before it leave. */
  predicate AllAgree(cs: seq<Command>, m: Memory, results: seq<Result>, version: seq<byte>)
    requires forall c :: c in cs ==> InRange(c)
  {
    && |results| == |cs|
    && (cs != [] ==>
          var q := RequestOf(cs[0]);
          && Agrees(results[0], q, Execute(q, m).0, version)
          && AllAgree(cs[1..], Execute(q, m).1, results[1..], version))
  }

  /** The answer to a call is one frame, found whatever follows it. */
  lemma AnswerFramed(be: Backend, answerBroadcast: bool, tid: word, slave: byte, q: Request, m: Memory,
                     version: seq<byte>, later: seq<byte>)
    requires ClientBuilt(q) && |version| <= MAX_VERSION
    requires be.Rtu? && !answerBroadcast ==> slave != BROADCAST_ADDRESS
    ensures var sent := Reply(be, answerBroadcast, version, m, ClientFrame(be, tid, slave, q)).1;
      |sent| == 1 && Frame(be, Confirmation, sent[0] + later) == Framed(|sent[0]|)
  {
    RequestServed(be, answerBroadcast, tid, slave, q, m, version);
    SealFramed(be, Confirmation, Prefix(be, tid), slave, ResponsePdu(EncodePdu(q), Execute(q, m).0, version), later);
  }

  /** A server that is sent these frames ends with the memory of the operations. */
  lemma {:induction false} ServeFrames(be: Backend, answerBroadcast: bool, tid: word, slave: byte, own: int,
                                       cs: seq<Command>, m: Memory, version: seq<byte>)
    requires forall c :: c in cs ==> InRange(c)
    requires |version| <= MAX_VERSION && ServerAnswers(be, answerBroadcast, own, slave)
    ensures Serve(be, answerBroadcast, version, m, FramesOf(be, tid, slave, cs)) == AfterAll(cs, m)
    decreases |cs|
  {
    if cs != [] {
      var q := RequestOf(cs[0]);
      CallTells(be, answerBroadcast, Advanced(be, tid), slave, own, q, m, version, [], []);
      ServeFrames(be, answerBroadcast, Advanced(be, tid), slave, own, cs[1..], Execute(q, m).1, version);
      assert FramesOf(be, tid, slave, cs)[1..] == FramesOf(be, Advanced(be, tid), slave, cs[1..]);
    }
  }

  /** The frames that such a server sends. */
  function RepliesTo(be: Backend, answerBroadcast: bool, tid: word, slave: byte, m: Memory, version: seq<byte>,
                     cs: seq<Command>): seq<seq<byte>>
    requires |version| <= MAX_VERSION && forall c :: c in cs ==> InRange(c)
  {
    Sent(be, answerBroadcast, version, m, FramesOf(be, tid, slave, cs))
  }

  /** The frames that the calls `cs` send, and those that answer them. */
  predicate Dialogue(be: Backend, answerBroadcast: bool, tid: word, slave: byte, m: Memory, version: seq<byte>,
                     cs: seq<Command>, frames: seq<seq<byte>>, replies: seq<seq<byte>>)
    requires |version| <= MAX_VERSION && forall c :: c in cs ==> InRange(c)
  {
    && frames == FramesOf(be, tid, slave, cs)
    && replies == RepliesTo(be, answerBroadcast, tid, slave, m, version, cs)
  }

  /** A dialogue begins with the first call and its answer, and goes on with that of the others. */
  lemma FirstOfDialogue(be: Backend, answerBroadcast: bool, tid: word, slave: byte, m: Memory, version: seq<byte>,
                        cs: seq<Command>, frames: seq<seq<byte>>, replies: seq<seq<byte>>, q: Request)
    requires |version| <= MAX_VERSION && cs != [] && (forall c :: c in cs ==> InRange(c)) && q == RequestOf(cs[0])
    requires be.Rtu? && !answerBroadcast ==> slave != BROADCAST_ADDRESS
    requires Dialogue(be, answerBroadcast, tid, slave, m, version, cs, frames, replies)
    ensures frames != [] && replies != []
    ensures frames[0] == ClientFrame(be, Advanced(be, tid), slave, q)
    ensures Reply(be, answerBroadcast, version, m, frames[0]) == (Execute(q, m).1, [replies[0]])
    ensures Dialogue(be, answerBroadcast, Advanced(be, tid), slave, Execute(q, m).1, version, cs[1..],
                     frames[1..], replies[1..])
  {
    CallAnswered(be, answerBroadcast, Advanced(be, tid), slave, q, m, version, []);
  }

  lemma RestOfDialogue(be: Backend, answerBroadcast: bool, tid: word, slave: byte, m: Memory, version: seq<byte>,
                       cs: seq<Command>, frames: seq<seq<byte>>, replies: seq<seq<byte>>, q: Request)
    requires |version| <= MAX_VERSION && cs != [] && (forall c :: c in cs ==> InRange(c)) && q == RequestOf(cs[0])
    requires be.Rtu? && !answerBroadcast ==> slave != BROADCAST_ADDRESS
    requires Dialogue(be, answerBroadcast, tid, slave, m, version, cs, frames, replies)
    ensures frames != [] && replies != []
    ensures Dialogue(be, answerBroadcast, Advanced(be, tid), slave, Execute(q, m).1, version, cs[1..],
                     frames[1..], replies[1..])
  {
    FirstOfDialogue(be, answerBroadcast, tid, slave, m, version, cs, frames, replies, q);
  }

  lemma FirstOfStream(fs: seq<seq<byte>>, rest: seq<byte>)
    requires fs != []
    ensures Concat(fs) + rest == fs[0] + (Concat(fs[1..]) + rest)
  {
    ConcatStep(fs, rest);
  }

  /** The two ends of a link before a dialogue: the frames are the next that the server receives, and the answers
      are the next that the client receives. */
  ghost predicate Ready(client: Modbus, server: Modbus, mapping: Mapping, version: seq<byte>, cs: seq<Command>,
                        frames: seq<seq<byte>>, replies: seq<seq<byte>>, rest: seq<byte>, later: seq<byte>)
    requires |version| <= MAX_VERSION && forall c :: c in cs ==> InRange(c)
    reads client, server, mapping.tabBits, mapping.tabInputBits, mapping.tabRegisters, mapping.tabInputRegisters
  {
    && Paired(client, server, mapping) && BitsIn(mapping.Tables())
    && server.incoming == Concat(frames) + rest && client.incoming == Concat(replies) + later
    && Dialogue(client.be, server.answerBroadcast, client.tid, client.slave, mapping.Tables(), version, cs,
                frames, replies)
  }

  ghost predicate Paired(client: Modbus, server: Modbus, mapping: Mapping)
    reads client, server
  {
    && client != server && client.be == server.be && client.reliable && server.reliable
    && 0 <= client.slave <= 255 && mapping.Valid() && Awaited(server.be, server.confirmationToIgnore).Indication?
    && ServerAnswers(server.be, server.answerBroadcast, server.slave, client.slave)
  }

  /** One call of a program: either end has sent what the other end has received. */
  method RunOne(client: Modbus, server: Modbus, mapping: Mapping, version: seq<byte>, c: Command, ghost q: Request,
                ghost rest: seq<byte>, ghost later: seq<byte>, ghost frame: seq<byte>, ghost answer: seq<byte>)
    returns (res: Result)
    requires |version| <= MAX_VERSION && InRange(c) && q == RequestOf(c) && BitsIn(mapping.Tables())
    requires Linked(client, server, mapping, version, q, rest, later)
    requires client.incoming == answer + later && Frame(client.be, Confirmation, client.incoming) == Framed(|answer|)
    requires frame == ClientFrame(client.be, Advanced(client.be, client.tid), client.slave, q)
    modifies client`sends, client`lastSend, client`incoming, client`errno, client`tid
    modifies server`incoming, server`errno, server`confirmationToIgnore, server`sends, server`lastSend
    modifies mapping.tabBits, mapping.tabRegisters
    ensures client.tid == Advanced(client.be, old(client.tid)) && client.sends == old(client.sends) + [frame]
    ensures client.incoming == later
    ensures server.incoming == rest && server.sends == old(server.sends) + [answer]
    ensures Paired(client, server, mapping)
    ensures mapping.Tables() == Execute(q, old(mapping.Tables())).1 && BitsIn(mapping.Tables())
    ensures Agrees(res, q, Execute(q, old(mapping.Tables())).0, version)
  {
    ghost var m, sends := mapping.Tables(), server.sends;
    Served(client, server, mapping, version, q, rest, later);
    OneMore(sends, server.sends, answer, later);
    ExecuteKeeps(q, m);
    res := PerformNext(client, c, q, m, version, later, frame, answer);
  }

  /** The client's part of it. */
  method PerformNext(client: Modbus, c: Command, ghost q: Request, ghost m: Memory, ghost version: seq<byte>,
                     ghost later: seq<byte>, ghost frame: seq<byte>, ghost answer: seq<byte>)
    returns (res: Result)
    requires InRange(c) && q == RequestOf(c) && Expecting(client, q, m, version) && BitsIn(m)
    requires |version| <= MAX_VERSION
    requires client.incoming == answer + later && Frame(client.be, Confirmation, client.incoming) == Framed(|answer|)
    requires frame == ClientFrame(client.be, Advanced(client.be, client.tid), client.slave, q)
    modifies client`sends, client`lastSend, client`incoming, client`errno, client`tid
    ensures client.tid == Advanced(client.be, old(client.tid)) && client.sends == old(client.sends) + [frame]
    ensures client.incoming == later && Agrees(res, q, Execute(q, m).0, version)
  {
    ghost var s := client.incoming;
    res := Perform(client, c, q, m, version);
    AnswerTaken(client.be, s, client.incoming, answer, later);
  }

  lemma OneMore(sends: seq<seq<byte>>, sends': seq<seq<byte>>, answer: seq<byte>, later: seq<byte>)
    requires sends <= sends' && |sends'| == |sends| + 1 && answer + later == sends'[|sends|] + later
    ensures sends' == sends + [answer]
  {
    var b := sends'[|sends|];
    assert (answer + later)[..|answer|] == answer && (b + later)[..|b|] == b;
  }

  lemma AnswerTaken(be: Backend, s: seq<byte>, left: seq<byte>, answer: seq<byte>, later: seq<byte>)
    requires s == answer + later && Frame(be, Confirmation, s) == Framed(|answer|)
    requires Left(s, left) && Whole(be, Confirmation, s, left)
    ensures left == later
  {
  }

  lemma Joined<T>(xs: seq<T>, y: T, ys: seq<T>, all: seq<T>)
    requires all == [y] + ys
    ensures xs + [y] + ys == xs + all
  {
  }

  lemma AgreesFirst(cs: seq<Command>, m: Memory, first: Result, others: seq<Result>, version: seq<byte>)
    requires cs != [] && forall c :: c in cs ==> InRange(c)
    requires var q := RequestOf(cs[0]);
      Agrees(first, q, Execute(q, m).0, version) && AllAgree(cs[1..], Execute(q, m).1, others, version)
    ensures AllAgree(cs, m, [first] + others, version)
  {
    assert ([first] + others)[1..] == others;
  }

  /** The first of the calls is linked, and its answer is one frame. */
  lemma FirstLinked(client: Modbus, server: Modbus, mapping: Mapping, version: seq<byte>, cs: seq<Command>,
                    q: Request, frames: seq<seq<byte>>, replies: seq<seq<byte>>, rest: seq<byte>, later: seq<byte>)
    requires |version| <= MAX_VERSION && cs != [] && (forall c :: c in cs ==> InRange(c)) && q == RequestOf(cs[0])
    requires Ready(client, server, mapping, version, cs, frames, replies, rest, later)
    ensures frames != [] && replies != []
    ensures var s', t' := Concat(frames[1..]) + rest, Concat(replies[1..]) + later;
      && Linked(client, server, mapping, version, q, s', t')
      && client.incoming == replies[0] + t' && Frame(client.be, Confirmation, client.incoming) == Framed(|replies[0]|)
    ensures frames[0] == ClientFrame(client.be, Advanced(client.be, client.tid), client.slave, q)
  {
    var m := mapping.Tables();
    FirstOfDialogue(client.be, server.answerBroadcast, client.tid, client.slave, m, version, cs, frames, replies, q);
    FirstOfStream(frames, rest);
    FirstOfStream(replies, later);
    AnswerFramed(client.be, server.answerBroadcast, Advanced(client.be, client.tid), client.slave, q, m, version,
                 Concat(replies[1..]) + later);
  }

  /** The first call of a program. */
  method RunNext(client: Modbus, server: Modbus, mapping: Mapping, version: seq<byte>, cs: seq<Command>,
                 ghost q: Request, ghost frames: seq<seq<byte>>, ghost replies: seq<seq<byte>>,
                 ghost rest: seq<byte>, ghost later: seq<byte>)
    returns (res: Result)
    requires |version| <= MAX_VERSION && cs != [] && (forall c :: c in cs ==> InRange(c)) && q == RequestOf(cs[0])
    requires Ready(client, server, mapping, version, cs, frames, replies, rest, later)
    modifies client`sends, client`lastSend, client`incoming, client`errno, client`tid
    modifies server`incoming, server`errno, server`confirmationToIgnore, server`sends, server`lastSend
    modifies mapping.tabBits, mapping.tabRegisters
    ensures frames != [] && replies != [] && Paired(client, server, mapping) && BitsIn(mapping.Tables())
    ensures server.incoming == Concat(frames[1..]) + rest && client.incoming == Concat(replies[1..]) + later
    ensures client.tid == Advanced(client.be, old(client.tid))
    ensures client.sends == old(client.sends) + [frames[0]] && server.sends == old(server.sends) + [replies[0]]
    ensures mapping.Tables() == Execute(q, old(mapping.Tables())).1
    ensures Agrees(res, q, Execute(q, old(mapping.Tables())).0, version)
  {
    FirstLinked(client, server, mapping, version, cs, q, frames, replies, rest, later);
    res := RunOne(client, server, mapping, version, cs[0], q, Concat(frames[1..]) + rest, Concat(replies[1..]) + later,
                  frames[0], replies[0]);
  }

  /** The others are ready then. */
  method RunFirst(client: Modbus, server: Modbus, mapping: Mapping, version: seq<byte>, cs: seq<Command>,
                  ghost q: Request, ghost frames: seq<seq<byte>>, ghost replies: seq<seq<byte>>,
                  ghost rest: seq<byte>, ghost later: seq<byte>)
    returns (res: Result)
    requires |version| <= MAX_VERSION && cs != [] && (forall c :: c in cs ==> InRange(c)) && q == RequestOf(cs[0])
    requires Ready(client, server, mapping, version, cs, frames, replies, rest, later)
    modifies client`sends, client`lastSend, client`incoming, client`errno, client`tid
    modifies server`incoming, server`errno, server`confirmationToIgnore, server`sends, server`lastSend
    modifies mapping.tabBits, mapping.tabRegisters
    ensures frames != [] && replies != []
    ensures Ready(client, server, mapping, version, cs[1..], frames[1..], replies[1..], rest, later)
    ensures client.sends == old(client.sends) + [frames[0]] && server.sends == old(server.sends) + [replies[0]]
    ensures mapping.Tables() == Execute(q, old(mapping.Tables())).1
    ensures Agrees(res, q, Execute(q, old(mapping.Tables())).0, version)
  {
    ghost var tid', m' := Advanced(client.be, client.tid), Execute(q, mapping.Tables()).1;
    RestOfDialogue(client.be, server.answerBroadcast, client.tid, client.slave, mapping.Tables(), version, cs, frames,
                   replies, q);
    res := RunNext(client, server, mapping, version, cs, q, frames, replies, rest, later);
    assert client.tid == tid' && mapping.Tables() == m';
  }

  /** A program of calls, run against a server: the server's memory becomes that of the operations in order, every
      result is that of its own operation, and exactly the frames of the calls and of their answers are sent. */
  method RunProgram(client: Modbus, server: Modbus, mapping: Mapping, version: seq<byte>, cs: seq<Command>,
                    ghost frames: seq<seq<byte>>, ghost replies: seq<seq<byte>>,
                    ghost rest: seq<byte>, ghost later: seq<byte>)
    returns (results: seq<Result>)
    requires |version| <= MAX_VERSION && forall c :: c in cs ==> InRange(c)
    requires Ready(client, server, mapping, version, cs, frames, replies, rest, later)
    modifies client`sends, client`lastSend, client`incoming, client`errno, client`tid
    modifies server`incoming, server`errno, server`confirmationToIgnore, server`sends, server`lastSend
    modifies mapping.tabBits, mapping.tabRegisters
    ensures mapping.Tables() == AfterAll(cs, old(mapping.Tables()))
    ensures AllAgree(cs, old(mapping.Tables()), results, version)
    ensures client.sends == old(client.sends) + frames && server.sends == old(server.sends) + replies
    ensures server.incoming == rest && client.incoming == later
    decreases |cs|
  {
    if cs == [] {
      results := [];
    } else {
      ghost var m, sends, sends' := mapping.Tables(), client.sends, server.sends;
      var first := RunFirst(client, server, mapping, version, cs, RequestOf(cs[0]), frames, replies, rest, later);
      Joined(sends, frames[0], frames[1..], frames);
      Joined(sends', replies[0], replies[1..], replies);
      results := RunProgram(client, server, mapping, version, cs[1..], frames[1..], replies[1..], rest, later);
      AgreesFirst(cs, m, first, results, version);
      results := [first] + results;
    }
  }
}
