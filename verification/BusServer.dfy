/** The loop of a server on a shared serial line: receive, reply. */
module BusServer {
  import opened Bytes
  import opened Protocol
  import opened Memory
  import opened Server
  import opened Runs
  import opened Streams
  import opened Context
  import opened Bus
  import opened MappingTables
  import opened ReplyCode

  /** The stream brings the well-formed exchanges `xs` and nothing else; `response` comes before them when the
      slave waits for one. */
  predicate Upcoming(slave: byte, waiting: bool, s: seq<byte>, response: seq<byte>, xs: seq<Exchange>)
  {
    && (forall x :: x in xs ==> WellFormed(slave, x))
    && s == response + Line(xs)
    && (waiting <==> response != [])
    && (waiting ==> Frame(Rtu, Confirmation, response) == Framed(|response|))
  }

  ghost predicate OnTrack(ctx: Modbus, response: seq<byte>, xs: seq<Exchange>)
    reads ctx
  {
    && ctx.be.Rtu? && ctx.reliable && 0 <= ctx.slave <= 255
    && Upcoming(ctx.slave, ctx.confirmationToIgnore, ctx.incoming, response, xs)
  }

  /** What is heard first on such a line, and what is on the line then. */
  function Next(response: seq<byte>, xs: seq<Exchange>): (Heard, seq<byte>, seq<Exchange>)
    requires response != [] || xs != []
  {
    if response != [] then (Heard(Confirmation, response, 0), [], xs)
    else
      match xs[0]
      case ToMe(q) => (Heard(Indication, q, |q|), [], xs[1..])
      case ToOther(q, r) => (Heard(Indication, q, 0), r, xs[1..])
  }

  /** An exchange that comes next, and what is ahead when its request has been heard. */
  lemma ExchangeUpcoming(slave: byte, x: Exchange, xs: seq<Exchange>)
    requires WellFormed(slave, x) && forall x :: x in xs ==> WellFormed(slave, x)
    ensures var (h, response', xs') := Next([], [x] + xs);
      && xs' == xs && h.mt == Indication && h.bytes == x.request && h.rc == Integrity(Rtu, slave, x.request)
      && Frame(Rtu, Indication, h.bytes) == Framed(|h.bytes|)
      && Upcoming(slave, h.rc == 0, response' + Line(xs'), response', xs')
  {
    assert ([x] + xs)[1..] == xs;
  }

  lemma OnLineSplit(x: Exchange, xs: seq<Exchange>)
    ensures var response := if x.ToMe? then [] else x.response;
      Line([x] + xs) == x.request + (response + Line(xs))
  {
    assert ([x] + xs)[1..] == xs;
    Associate(x.request, if x.ToMe? then [] else x.response, Line(xs));
    assert x.request + [] == x.request;
  }

  /** The stream begins with what is heard first, and goes on with what is ahead then. */
  lemma HearNext(slave: byte, waiting: bool, s: seq<byte>, response: seq<byte>, xs: seq<Exchange>)
    requires Upcoming(slave, waiting, s, response, xs) && (response != [] || xs != [])
    ensures var (h, response', xs') := Next(response, xs);
      && s == h.bytes + (response' + Line(xs'))
      && h.mt == (if waiting then Confirmation else Indication)
      && Frame(Rtu, h.mt, h.bytes) == Framed(|h.bytes|)
      && h.rc == (if waiting then 0 else Integrity(Rtu, slave, h.bytes))
      && Upcoming(slave, !waiting && h.rc == 0, response' + Line(xs'), response', xs')
  {
    if waiting {
      assert [] + Line(xs) == Line(xs);
    } else {
      assert xs == [xs[0]] + xs[1..] && s == Line(xs);
      ExchangeUpcoming(slave, xs[0], xs[1..]);
      OnLineSplit(xs[0], xs[1..]);
    }
  }

  lemma TakenHeard(slave: int, h: Heard, s: seq<byte>, rest: seq<byte>)
    requires Frame(Rtu, h.mt, h.bytes) == Framed(|h.bytes|) && s == h.bytes + rest
    ensures Frame(Rtu, h.mt, s) == Framed(|h.bytes|)
    ensures s[..|h.bytes|] == h.bytes && s[|h.bytes|..] == rest
    ensures ReceiveCode(Rtu, slave, h.mt, s) == Integrity(Rtu, slave, h.bytes)
  {
    FrameAtHead(Rtu, h.mt, h.bytes, rest);
  }

  /** A reception on such a stream takes what comes first. */
  lemma HearStep(slave: byte, waiting: bool, s: seq<byte>, response: seq<byte>, xs: seq<Exchange>, left: seq<byte>,
                 rc: int)
    requires Upcoming(slave, waiting, s, response, xs) && (response != [] || xs != [])
    ensures !Frame(Rtu, if waiting then Confirmation else Indication, s).Incomplete?
    ensures var mt := if waiting then Confirmation else Indication;
      Whole(Rtu, mt, s, left) && left == s[|s| - |left|..]
      && rc == (if waiting then 0 else ReceiveCode(Rtu, slave, mt, s)) ==>
        var (h, response', xs') := Next(response, xs);
        && rc == h.rc && s[..|s| - |left|] == h.bytes && |left| < |s|
        && Upcoming(slave, !waiting && rc == 0, left, response', xs')
  {
    HearNext(slave, waiting, s, response, xs);
    var (h, response', xs') := Next(response, xs);
    TakenHeard(slave, h, s, response' + Line(xs'));
  }

  /** `_modbus_rtu_receive` on such a line. */
  method Hear(ctx: Modbus, query: array<byte>, ghost response: seq<byte>, ghost xs: seq<Exchange>) returns (rc: int)
    requires OnTrack(ctx, response, xs) && query.Length >= MAX_MESSAGE_LENGTH
    modifies ctx`incoming, ctx`errno, ctx`confirmationToIgnore, query
    ensures response == [] && xs == [] ==> rc == -1 && OnTrack(ctx, [], [])
    ensures response != [] || xs != [] ==>
      var (h, response', xs') := Next(response, xs);
      && rc == h.rc && h.bytes <= query[..] && OnTrack(ctx, response', xs')
      && |ctx.incoming| < |old(ctx.incoming)|
  {
    ghost var s, m, waiting := ctx.incoming, query[..], ctx.confirmationToIgnore;
    rc := RtuReceive(ctx, query);
    StillTaken(s, ctx.incoming, m, query[..], Rtu);
    if response != [] || xs != [] {
      HearStep(ctx.slave, waiting, s, response, xs, ctx.incoming, rc);
    }
  }

  // ---- The loop ------------------------------------------------------------------------

  /** What the requests still to come, `reqs`, make of the memory and of the frames sent, is `end` and `sent`. */
  predicate Remaining(answerBroadcast: bool, version: seq<byte>, m: Memory, sends: seq<seq<byte>>,
                      reqs: seq<seq<byte>>, end: Memory, sent: seq<seq<byte>>)
    requires |version| <= MAX_VERSION
  {
    && (forall f :: f in reqs ==> |f| >= 2)
    && Serve(Rtu, answerBroadcast, version, m, reqs) == end
    && sends + Sent(Rtu, answerBroadcast, version, m, reqs) == sent
  }

  lemma RemainingNext(answerBroadcast: bool, version: seq<byte>, m: Memory, sends: seq<seq<byte>>, q: seq<byte>,
                      reqs: seq<seq<byte>>, end: Memory, sent: seq<seq<byte>>)
    requires |version| <= MAX_VERSION && |q| >= 2
    requires Remaining(answerBroadcast, version, m, sends, [q] + reqs, end, sent)
    ensures var (after, answer) := Reply(Rtu, answerBroadcast, version, m, q);
      Remaining(answerBroadcast, version, after, sends + answer, reqs, end, sent)
  {
    assert ([q] + reqs)[1..] == reqs;
    forall f | f in reqs
      ensures |f| >= 2
    {
      assert f in [q] + reqs;
    }
    var (after, answer) := Reply(Rtu, answerBroadcast, version, m, q);
    Associate(sends, answer, Sent(Rtu, answerBroadcast, version, after, reqs));
  }

  /** What is heard is an addressed request, or nothing to answer. */
  lemma AddressedNext(slave: byte, waiting: bool, s: seq<byte>, response: seq<byte>, xs: seq<Exchange>)
    requires Upcoming(slave, waiting, s, response, xs) && (response != [] || xs != [])
    ensures var (h, response', xs') := Next(response, xs);
      && 0 <= h.rc && (h.rc > 0 ==> h.rc == |h.bytes| >= 2)
      && Addressed(xs) == (if h.rc > 0 then [h.bytes] else []) + Addressed(xs')
  {
    if response == [] {
      assert WellFormed(slave, xs[0]);
    }
  }

  /** The reply to what was heard, if it is to be answered. */
  method Answer(ctx: Modbus, mapping: Mapping, version: seq<byte>, query: array<byte>, rc: int, ghost h: Heard,
                ghost reqs: seq<seq<byte>>, ghost end: Memory, ghost sent: seq<seq<byte>>)
    requires ctx.be.Rtu? && mapping.Valid() && |version| <= MAX_VERSION
    requires rc == h.rc && 0 <= rc <= query.Length && h.bytes <= query[..] && (rc > 0 ==> rc == |h.bytes| >= 2)
    requires Remaining(ctx.answerBroadcast, version, mapping.Tables(), ctx.sends,
                       (if rc > 0 then [h.bytes] else []) + reqs, end, sent)
    modifies ctx`sends, ctx`lastSend, ctx`errno, mapping.tabBits, mapping.tabRegisters
    ensures Remaining(ctx.answerBroadcast, version, mapping.Tables(), ctx.sends, reqs, end, sent)
  {
    if rc > 0 {
      RemainingNext(ctx.answerBroadcast, version, mapping.Tables(), ctx.sends, h.bytes, reqs, end, sent);
      assert query[..rc] == h.bytes;
      var _ := ModbusReply(ctx, query[..rc], mapping, version);
    } else {
      assert [] + reqs == reqs;
    }
  }

  /** One turn of the loop; the line is at its end if there is nothing to receive. */
  method ServeTurn(ctx: Modbus, mapping: Mapping, version: seq<byte>, query: array<byte>,
                   ghost response: seq<byte>, ghost xs: seq<Exchange>, ghost end: Memory, ghost sent: seq<seq<byte>>)
    returns (ok: bool, ghost response': seq<byte>, ghost xs': seq<Exchange>)
    requires OnTrack(ctx, response, xs) && mapping.Valid() && |version| <= MAX_VERSION
    requires query.Length >= MAX_MESSAGE_LENGTH && query != mapping.tabBits && query != mapping.tabInputBits
    requires Remaining(ctx.answerBroadcast, version, mapping.Tables(), ctx.sends, Addressed(xs), end, sent)
    modifies ctx`incoming, ctx`errno, ctx`confirmationToIgnore, ctx`sends, ctx`lastSend, query
    modifies mapping.tabBits, mapping.tabRegisters
    ensures OnTrack(ctx, response', xs')
    ensures Remaining(ctx.answerBroadcast, version, mapping.Tables(), ctx.sends, Addressed(xs'), end, sent)
    ensures if ok then |ctx.incoming| < |old(ctx.incoming)| else ctx.incoming == [] && xs' == []
  {
    if response != [] || xs != [] {
      AddressedNext(ctx.slave, ctx.confirmationToIgnore, ctx.incoming, response, xs);
    }
    ok, response', xs' := true, response, xs;
    var rc := Hear(ctx, query, response, xs);
    if rc == -1 {
      ok := false;
      return;
    }
    ghost var h;
    h, response', xs' := Next(response, xs).0, Next(response, xs).1, Next(response, xs).2;
    Answer(ctx, mapping, version, query, rc, h, Addressed(xs'), end, sent);
  }

  /** A server on a line of well-formed exchanges: over the whole run its memory becomes that of serving exactly
      the requests addressed to it, in order, and exactly their answers are sent. */
  method ServeLine(ctx: Modbus, mapping: Mapping, version: seq<byte>, ghost xs: seq<Exchange>)
    requires OnTrack(ctx, [], xs) && mapping.Valid() && |version| <= MAX_VERSION
    modifies ctx`incoming, ctx`errno, ctx`confirmationToIgnore, ctx`sends, ctx`lastSend
    modifies mapping.tabBits, mapping.tabRegisters
    ensures ctx.incoming == [] && forall f :: f in Addressed(xs) ==> |f| >= 2
    ensures mapping.Tables()
         == Serve(Rtu, ctx.answerBroadcast, version, old(mapping.Tables()), Addressed(xs))
    ensures ctx.sends
         == old(ctx.sends) + Sent(Rtu, ctx.answerBroadcast, version, old(mapping.Tables()), Addressed(xs))
  {
    AddressedLong(ctx.slave, xs);
    var query := new byte[MAX_MESSAGE_LENGTH];
    ghost var end := Serve(Rtu, ctx.answerBroadcast, version, mapping.Tables(), Addressed(xs));
    ghost var sent := ctx.sends + Sent(Rtu, ctx.answerBroadcast, version, mapping.Tables(), Addressed(xs));
    ghost var response, left := [], xs;
    var ok := true;
    while ok
      invariant OnTrack(ctx, response, left)
      invariant Remaining(ctx.answerBroadcast, version, mapping.Tables(), ctx.sends, Addressed(left), end, sent)
      invariant !ok ==> ctx.incoming == [] && left == []
      decreases |ctx.incoming|, ok
    {
      ok, response, left := ServeTurn(ctx, mapping, version, query, response, left, end, sent);
    }
    assert ctx.sends + [] == ctx.sends;
  }
}
