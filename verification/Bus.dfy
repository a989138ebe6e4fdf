/** A slave on a shared serial line: it hears the exchanges of the master with the other slaves as well. */
module Bus {
  import opened Bytes
  import opened Crc
  import opened Protocol
  import opened Memory
  import opened Server
  import opened Streams
  import opened EndToEnd
  import opened Runs
  import opened Context

  /** What one call of `_modbus_rtu_receive` took from the line, how it parsed it, and what it returned. */
  datatype Heard = Heard(mt: MsgType, bytes: seq<byte>, rc: int)

  /** The log of successive calls on the stream `s`; `ignoring` is the flag `confirmation_to_ignore`. A
      request for another slave (code 0) sets it; the confirmation read next resets it, whatever it holds. */
  function Listen(slave: int, ignoring: bool, s: seq<byte>): seq<Heard>
    decreases |s|
  {
    var mt := if ignoring then Confirmation else Indication;
    var f := Frame(Rtu, mt, s);
    if f.Incomplete? then []
    else
      var rc := ReceiveCode(Rtu, slave, mt, s);
      [Heard(mt, s[..Taken(f)], if ignoring then 0 else rc)]
      + Listen(slave, !ignoring && rc == 0, s[Taken(f)..])
  }

  /** A request to this slave or to all, or a request to another slave and that slave's response. */
  datatype Exchange = ToMe(request: seq<byte>) | ToOther(request: seq<byte>, response: seq<byte>)

  predicate IsRequest(f: seq<byte>)
  {
    Frame(Rtu, Indication, f) == Framed(|f|) && CrcValid(f)
  }

  predicate WellFormed(slave: byte, x: Exchange)
  {
    && IsRequest(x.request)
    && match x
       case ToMe(q) => q[0] == slave || q[0] == BROADCAST_ADDRESS
       case ToOther(q, r) => q[0] != slave && q[0] != BROADCAST_ADDRESS
                             && Frame(Rtu, Confirmation, r) == Framed(|r|)
  }

  function OnLine(x: Exchange): seq<byte>
  {
    match x
    case ToMe(q) => q
    case ToOther(q, r) => q + r
  }

  function Line(xs: seq<Exchange>): seq<byte>
  {
    if xs == [] then [] else OnLine(xs[0]) + Line(xs[1..])
  }

  /** An exchange as the slave should hear it. */
  function LogOf(x: Exchange): seq<Heard>
  {
    match x
    case ToMe(q) => [Heard(Indication, q, |q|)]
    case ToOther(q, r) => [Heard(Indication, q, 0), Heard(Confirmation, r, 0)]
  }

  function Log(xs: seq<Exchange>): seq<Heard>
  {
    if xs == [] then [] else LogOf(xs[0]) + Log(xs[1..])
  }

  lemma HearOne(slave: int, ignoring: bool, f: seq<byte>, tail: seq<byte>)
    requires Frame(Rtu, if ignoring then Confirmation else Indication, f) == Framed(|f|)
    ensures var mt := if ignoring then Confirmation else Indication;
      var rc := Integrity(Rtu, slave, f);
      Listen(slave, ignoring, f + tail)
      == [Heard(mt, f, if ignoring then 0 else rc)] + Listen(slave, !ignoring && rc == 0, tail)
  {
    FrameAtHead(Rtu, if ignoring then Confirmation else Indication, f, tail);
    assert (f + tail)[..|f|] == f && (f + tail)[|f|..] == tail;
  }

  lemma HearExchange(slave: byte, x: Exchange, tail: seq<byte>)
    requires WellFormed(slave, x)
    ensures Listen(slave, false, OnLine(x) + tail) == LogOf(x) + Listen(slave, false, tail)
  {
    match x
    case ToMe(q) =>
      HearOne(slave, false, q, tail);
    case ToOther(q, r) =>
      assert OnLine(x) + tail == q + (r + tail);
      HearOne(slave, false, q, r + tail);
      HearOne(slave, true, r, tail);
      Regroup(Heard(Indication, q, 0), [Heard(Confirmation, r, 0)], Listen(slave, false, tail));
  }

  lemma Associate<T>(xs: seq<T>, ys: seq<T>, zs: seq<T>)
    ensures xs + (ys + zs) == (xs + ys) + zs
  {
  }

  /** On any line of well-formed exchanges the slave stays in step: it parses every request as a request
      and every foreign response as a response, and returns exactly the requests meant for it, in order. */
  lemma {:induction false} StaysInStep(slave: byte, xs: seq<Exchange>, rest: seq<byte>)
    requires forall x :: x in xs ==> WellFormed(slave, x)
    ensures Listen(slave, false, Line(xs) + rest) == Log(xs) + Listen(slave, false, rest)
    decreases |xs|
  {
    if xs == [] {
      assert Line(xs) + rest == rest;
    } else {
      var tail := Line(xs[1..]) + rest;
      assert Line(xs) + rest == OnLine(xs[0]) + tail;
      HearExchange(slave, xs[0], tail);
      StaysInStep(slave, xs[1..], rest);
      Associate(LogOf(xs[0]), Log(xs[1..]), Listen(slave, false, rest));
    }
  }

  /** The requests that the slave's program gets to answer. */
  function Delivered(log: seq<Heard>): seq<seq<byte>>
  {
    if log == [] then []
    else (if log[0].rc > 0 then [log[0].bytes] else []) + Delivered(log[1..])
  }

  function Addressed(xs: seq<Exchange>): seq<seq<byte>>
  {
    if xs == [] then [] else (if xs[0].ToMe? then [xs[0].request] else []) + Addressed(xs[1..])
  }

  lemma {:induction false} DeliveredLog(slave: byte, xs: seq<Exchange>)
    requires forall x :: x in xs ==> WellFormed(slave, x)
    ensures Delivered(Log(xs)) == Addressed(xs)
  {
    if xs != [] {
      assert WellFormed(slave, xs[0]);
      DeliveredLog(slave, xs[1..]);
      match xs[0]
      case ToMe(q) =>
        assert Log(xs)[1..] == Log(xs[1..]);
      case ToOther(q, r) =>
        assert Log(xs)[1..][1..] == Log(xs[1..]);
    }
  }

  /** The memory of a slave after a whole run is that of serving the requests addressed to it alone. */
  lemma MemoryAfterRun(slave: byte, xs: seq<Exchange>, answerBroadcast: bool, version: seq<byte>, m: Memory)
    requires forall x :: x in xs ==> WellFormed(slave, x)
    requires |version| <= MAX_VERSION
    ensures forall f :: f in Delivered(Listen(slave, false, Line(xs))) ==> |f| >= 2
    ensures forall f :: f in Addressed(xs) ==> |f| >= 2
    ensures Serve(Rtu, answerBroadcast, version, m, Delivered(Listen(slave, false, Line(xs))))
         == Serve(Rtu, answerBroadcast, version, m, Addressed(xs))
  {
    StaysInStep(slave, xs, []);
    assert Line(xs) + [] == Line(xs);
    assert Listen(slave, false, []) == [];
    assert Log(xs) + [] == Log(xs);
    DeliveredLog(slave, xs);
    AddressedLong(slave, xs);
  }

  lemma {:induction false} AddressedLong(slave: byte, xs: seq<Exchange>)
    requires forall x :: x in xs ==> WellFormed(slave, x)
    ensures forall f :: f in Addressed(xs) ==> |f| >= 2
  {
    if xs != [] {
      assert WellFormed(slave, xs[0]);
      AddressedLong(slave, xs[1..]);
    }
  }

  // ---- A request that nobody answers -------------------------------------------------

  predicate IsForeign(slave: byte, f: seq<byte>)
  {
    IsRequest(f) && f[0] != slave && f[0] != BROADCAST_ADDRESS
  }

  /** After a request to another slave, whatever is on the line next is taken for its response, unless the wait
      for it ends first. */
  lemma NextIsConfirmation(slave: byte, q: seq<byte>, s: seq<byte>)
    requires IsForeign(slave, q) && !Frame(Rtu, Confirmation, s).Incomplete?
    ensures var n := Taken(Frame(Rtu, Confirmation, s));
      Listen(slave, false, q + s)
      == [Heard(Indication, q, 0), Heard(Confirmation, s[..n], 0)] + Listen(slave, false, s[n..])
  {
    HearOne(slave, false, q, s);
    var n := Taken(Frame(Rtu, Confirmation, s));
    assert Listen(slave, true, s) == [Heard(Confirmation, s[..n], 0)] + Listen(slave, false, s[n..]);
    Regroup(Heard(Indication, q, 0), [Heard(Confirmation, s[..n], 0)], Listen(slave, false, s[n..]));
  }

  /** A read of holding registers below address 256, taken for a response: it seems to have no data. */
  lemma ReadAsResponse(slave: byte, low: byte, nb: word)
    ensures var mine := Seal(Rtu, [], slave, [FC_READ_HOLDING_REGISTERS, 0, low, Hi(nb), Lo(nb)]);
      |mine| == 8 && IsRequest(mine) && Frame(Rtu, Confirmation, mine) == Framed(5)
  {
    var p := [FC_READ_HOLDING_REGISTERS, 0, low, Hi(nb), Lo(nb)];
    var mine := Seal(Rtu, [], slave, p);
    SealFramed(Rtu, Indication, [], slave, p, []);
    assert mine + [] == mine;
    SealIntact(Rtu, [], slave, p);
    assert mine[1] == mine[1..6][0] && mine[2] == mine[1..6][1] && mine[1..][1] == mine[2];
  }

  lemma TooShort(slave: int, s: seq<byte>)
    requires |s| <= 3
    ensures Listen(slave, false, s) == []
  {
  }

  /** One way to miss a request: the other slave does not answer, and the master reads holding registers below
      address 256 from this one. The first five bytes of the request pass for the response. */
  lemma SwallowedRequest(slave: byte, q: seq<byte>, low: byte, nb: word)
    requires IsForeign(slave, q)
    ensures var mine := Seal(Rtu, [], slave, [FC_READ_HOLDING_REGISTERS, 0, low, Hi(nb), Lo(nb)]);
      && |mine| == 8 && WellFormed(slave, ToMe(mine))
      && Listen(slave, false, q + mine) == [Heard(Indication, q, 0), Heard(Confirmation, mine[..5], 0)]
      && Delivered(Listen(slave, false, q + mine)) == []
  {
    var mine := Seal(Rtu, [], slave, [FC_READ_HOLDING_REGISTERS, 0, low, Hi(nb), Lo(nb)]);
    ReadAsResponse(slave, low, nb);
    NextIsConfirmation(slave, q, mine);
    TooShort(slave, mine[5..]);
    NothingDelivered(Heard(Indication, q, 0), Heard(Confirmation, mine[..5], 0));
  }

  lemma NothingDelivered(h: Heard, h': Heard)
    requires h.rc <= 0 && h'.rc <= 0
    ensures [h, h'] + [] == [h, h'] && Delivered([h, h']) == []
  {
    assert [h, h'][1..] == [h'] && [h'][1..] == [];
    assert Delivered([h']) == [];
  }

  function HeardBytes(log: seq<Heard>): nat
  {
    if log == [] then 0 else |log[0].bytes| + HeardBytes(log[1..])
  }

  lemma {:induction false} HeardBytesConcat(a: seq<Heard>, b: seq<Heard>)
    ensures HeardBytes(a + b) == HeardBytes(a) + HeardBytes(b)
  {
    if a == [] {
      assert a + b == b;
    } else {
      assert (a + b)[1..] == a[1..] + b;
      HeardBytesConcat(a[1..], b);
    }
  }

  lemma {:induction false} ListenTakes(slave: int, ignoring: bool, s: seq<byte>)
    ensures HeardBytes(Listen(slave, ignoring, s)) <= |s|
    decreases |s|
  {
    var mt := if ignoring then Confirmation else Indication;
    var f := Frame(Rtu, mt, s);
    if !f.Incomplete? {
      var rc := ReceiveCode(Rtu, slave, mt, s);
      ListenTakes(slave, !ignoring && rc == 0, s[Taken(f)..]);
      assert Listen(slave, ignoring, s)[1..] == Listen(slave, !ignoring && rc == 0, s[Taken(f)..]);
    }
  }

  lemma {:induction false} LogTakes(xs: seq<Exchange>)
    ensures HeardBytes(Log(xs)) == |Line(xs)|
  {
    if xs != [] {
      LogTakes(xs[1..]);
      HeardBytesConcat(LogOf(xs[0]), Log(xs[1..]));
      assert xs[0].ToOther? ==> LogOf(xs[0])[1..] == [Heard(Confirmation, xs[0].response, 0)];
      assert HeardBytes(LogOf(xs[0])) == |OnLine(xs[0])|;
    }
  }

  /** When a request has gone unanswered, the slave is in step with what follows exactly if its wait has ended,
      which only an error of the link or a timeout does, and has taken no byte of it. */
  lemma InStepAgainIff(slave: byte, xs: seq<Exchange>, waiting: bool, taken: nat)
    requires xs != [] && (forall x :: x in xs ==> WellFormed(slave, x)) && taken <= |Line(xs)|
    ensures Listen(slave, waiting, Line(xs)[taken..]) == Log(xs) <==> !waiting && taken == 0
  {
    var s := Line(xs)[taken..];
    ListenTakes(slave, waiting, s);
    LogTakes(xs);
    assert Log(xs)[0] == LogOf(xs[0])[0];
    if waiting {
      assert Listen(slave, true, s) != [] ==> Listen(slave, true, s)[0].mt == Confirmation;
    } else if taken == 0 {
      StaysInStep(slave, xs, []);
      assert Line(xs) + [] == Line(xs) == s && Log(xs) + [] == Log(xs);
      assert Listen(slave, false, []) == [];
    }
  }

  // ---- Other servers of this library are good neighbours ----------------------------

  lemma SealFramedIff(be: Backend, mt: MsgType, prefix: seq<byte>, slave: byte, pdu: seq<byte>)
    requires |prefix| == if be.Rtu? then 0 else 4
    requires 1 <= |pdu| <= MAX_PDU_LENGTH
    ensures Frame(be, mt, Seal(be, prefix, slave, pdu)) == Framed(|Seal(be, prefix, slave, pdu)|) <==> Complete(pdu, mt)
  {
    var f := Seal(be, prefix, slave, pdu);
    if Complete(pdu, mt) {
      SealFramed(be, mt, prefix, slave, pdu, []);
      assert f + [] == f;
    } else if |pdu| >= 1 + MetaLength(pdu[0], mt) {
      assert f[be.Header()] == pdu[0];
      forall i | 0 <= i < |pdu|
        ensures f[be.Header()..][i] == pdu[i]
      {
        assert f[be.Header() + i] == f[be.Header()..be.Header() + |pdu|][i];
      }
    } else {
      assert f[be.Header()] == pdu[0];
    }
  }

  /** A request to another server of this library and its answer make a well-formed exchange, unless the
      function code has its top bit set and comes back, wrapped around, as a function with a longer answer. */
  lemma NeighbourIff(slave: byte, req: seq<byte>, m: Memory, version: seq<byte>)
    requires IsRequest(req) && req[0] != slave && req[0] != BROADCAST_ADDRESS && |version| <= MAX_VERSION
    ensures WellFormed(slave, ToOther(req, Reply(Rtu, false, version, m, req).1[0]))
       <==> !(req[1] >= 0x80 && Shaped(req[1] - 0x80))
  {
    ReplyCompleteIff(Rtu, req, m, version);
    ResponseFits(Rtu, req, m, version);
    var r := Execute(Decode(Rtu, req), m).0;
    SealFramedIff(Rtu, Confirmation, [], req[0], ResponsePdu(PduOf(Rtu, req), r, version));
  }

  /** One such request, with function code 0x83, and its answer: the slave that hears them waits for a
      sixth byte of a five-byte response, and so for the first byte of the next request. */
  lemma WrappedNeighbour(m: Memory, version: seq<byte>)
    requires |version| <= MAX_VERSION
    ensures var req := Seal(Rtu, [], 7, [0x83]);
      && IsRequest(req)
      && !WellFormed(1, ToOther(req, Reply(Rtu, false, version, m, req).1[0]))
  {
    var req := Seal(Rtu, [], 7, [0x83]);
    SealFramedIff(Rtu, Indication, [], 7, [0x83]);
    SealIntact(Rtu, [], 7, [0x83]);
    assert req[1..2] == [0x83];
    NeighbourIff(1, req, m, version);
  }

  // ---- The code ------------------------------------------------------------------------

  /** An entry of the log says what is taken from the stream and what is returned, and the rest of the log is
      that of the rest of the stream. */
  lemma LogStep(slave: int, ignoring: bool, s: seq<byte>, left: seq<byte>)
    requires |left| <= |s| && left == s[|s| - |left|..]
    ensures var mt := if ignoring then Confirmation else Indication;
      && (Frame(Rtu, mt, s).Incomplete? ==> Listen(slave, ignoring, s) == [])
      && (Whole(Rtu, mt, s, left) ==>
            var rc := if ignoring then 0 else ReceiveCode(Rtu, slave, mt, s);
            Listen(slave, ignoring, s)
            == [Heard(mt, s[..|s| - |left|], rc)] + Listen(slave, !ignoring && rc == 0, left))
  {
  }

  /** `_modbus_rtu_receive`. While the link holds, one call is one entry of the log and leaves the rest of
      the log to the calls after it (LogStep); a link error ends the wait for a foreign confirmation as well. */
  method RtuReceive(ctx: Modbus, req: array<byte>) returns (rc: int)
    requires ctx.be.Rtu? && req.Length >= MAX_MESSAGE_LENGTH
    modifies ctx`incoming, ctx`errno, ctx`confirmationToIgnore, req
    ensures Taking(Rtu, old(ctx.incoming), ctx.incoming, old(req[..]), req[..])
    ensures ctx.confirmationToIgnore == (!old(ctx.confirmationToIgnore) && rc == 0)
    ensures var (s, ignoring) := (old(ctx.incoming), old(ctx.confirmationToIgnore));
      var mt := if ignoring then Confirmation else Indication;
      if Whole(Rtu, mt, s, ctx.incoming) then
        && rc == (if ignoring then 0 else ReceiveCode(Rtu, ctx.slave, mt, s))
        && ctx.errno == if ReceiveCode(Rtu, ctx.slave, mt, s) != -1 then old(ctx.errno)
                        else if Frame(Rtu, mt, s).TooMany? then EMBBADDATA else EMBBADCRC
      else
        && rc == (if ignoring then 0 else -1)
        && LinkError(ctx.errno) && Frame(Rtu, mt, s[..|s| - |ctx.incoming|]).Incomplete?
        && (ctx.reliable ==> Frame(Rtu, mt, s).Incomplete?)
  {
    if ctx.confirmationToIgnore {
      var _ := ReceiveMsg(ctx, req, Confirmation);
      ctx.confirmationToIgnore := false;
      rc := 0;
    } else {
      rc := ReceiveMsg(ctx, req, Indication);
      if rc == 0 {
        ctx.confirmationToIgnore := true;
      }
    }
  }
}
