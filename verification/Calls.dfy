/** The client calls: they fill a request buffer, send it, wait, judge the answer and decode it. */
module Calls {
  import opened Bytes
  import opened Bits
  import opened Protocol
  import opened Memory
  import opened Client
  import opened Data
  import opened Context
  import opened Transactions
  import opened Acceptance

  /** The transaction counter after one more request. */
  function Advanced(be: Backend, tid: word): word { if be.Tcp? then NextTid(tid) else tid }

  /** `build_request_basis` of either backend. */
  method BuildRequestBasis(ctx: Modbus, function_: byte, addr: word, nb: word, req: array<byte>) returns (n: nat)
    requires 0 <= ctx.slave <= 255 && req.Length >= 12
    modifies ctx`tid, req
    ensures n == ctx.be.Header() + 5
    ensures ctx.tid == Advanced(ctx.be, old(ctx.tid))
    ensures Laid(ctx.be, req[..n], Prefix(ctx.be, ctx.tid), ctx.slave, [function_, Hi(addr), Lo(addr), Hi(nb), Lo(nb)])
  {
    if ctx.be.Tcp? {
      ctx.tid := if ctx.tid < 0xFFFF then ctx.tid + 1 else 0;
      req[0], req[1], req[2], req[3] := Hi(ctx.tid), Lo(ctx.tid), 0, 0;
      assert req[..4] == Prefix(ctx.be, ctx.tid);
    }
    var h := ctx.be.Header();
    req[h - 1], req[h] := ctx.slave, function_;
    req[h + 1], req[h + 2], req[h + 3], req[h + 4] := Hi(addr), Lo(addr), Hi(nb), Lo(nb);
    n := h + 5;
    assert req[..n][h..] == [function_, Hi(addr), Lo(addr), Hi(nb), Lo(nb)];
    assert ctx.be.Tcp? ==> req[..n][..4] == req[..4];
  }

  // ---- The common part of all calls ------------------------------------------------------

  /** What the call returns for an outcome. */
  predicate Returns(o: Outcome, rc: int, errno: int)
  {
    match o
    case Waiting => false
    case Failed(e) => rc == -1 && errno == e
    case Done(nb, _) => rc == nb
  }

  /** What the call returns when the link failed; `taken` is what it took of the request. Zero is returned
      exactly if the link took nothing of the request and reported no error. */
  predicate LinkFailed(taken: int, rc: int, errno: int)
  {
    && rc == (if taken == 0 then 0 else -1)
    && (taken == -1 ==> LinkError(errno))
    && (taken > 0 ==> LinkError(errno) || errno == EMBBADDATA)
  }

  /** The outcome of sending `req` has been reached: the code and the error are those of `Await` on the stream
      `s`, and the buffer starts with the frame. */
  predicate Settled(be: Backend, slave: int, req: seq<byte>, s: seq<byte>, rsp: seq<byte>, rc: int, errno: int)
    requires |req| >= be.Header()
  {
    var f := Frame(be, Confirmation, s);
    && Returns(Await(be, slave, req, s), rc, errno)
    && !f.Incomplete? && (f.Framed? ==> s[..f.length] <= rsp)
  }

  /** A stream that the receiver refuses settles the call. */
  lemma AwaitRefused(be: Backend, slave: int, req: seq<byte>, s: seq<byte>)
    requires |req| >= be.Header() && !Frame(be, Confirmation, s).Incomplete?
    requires ReceiveCode(be, slave, Confirmation, s) == -1
    ensures Await(be, slave, req, s) == Failed(if Frame(be, Confirmation, s).TooMany? then EMBBADDATA else EMBBADCRC)
  {
  }

  /** A received frame settles the call as the check on the buffers says. */
  lemma AwaitReceived(be: Backend, slave: int, prefix: seq<byte>, unit: byte, p: seq<byte>, reqBuffer: seq<byte>,
                      s: seq<byte>, rspBuffer: seq<byte>, rc: int)
    requires |prefix| == if be.Rtu? then 0 else 4
    requires Complete(p, Indication) && |p| <= MAX_PDU_LENGTH
    requires Seal(be, prefix, unit, p) <= reqBuffer
    requires Frame(be, Confirmation, s).Framed? && s[..Frame(be, Confirmation, s).length] <= rspBuffer
    requires rc == ReceiveCode(be, slave, Confirmation, s) != -1
    ensures var o := Await(be, slave, Seal(be, prefix, unit, p), s);
      match CheckConfirmation(be, reqBuffer, rspBuffer, rc)
      case Reject(e) => o == Failed(e)
      case Accept(nb) => o.Done? && o.nb == nb
  {
    var f := s[..Frame(be, Confirmation, s).length];
    FrameIgnoresRest(be, Confirmation, s, []);
    assert f + [] == f;
    CheckLocal(be, Seal(be, prefix, unit, p), p, reqBuffer, f, rspBuffer, rc);
  }

  /** Waits for the answer to the request in `req` and judges it. */
  method AwaitAnswer(ctx: Modbus, req: array<byte>, rsp: array<byte>, ghost prefix: seq<byte>, ghost p: seq<byte>)
    returns (rc: int)
    requires 0 <= ctx.slave <= 255 && req != rsp && rsp.Length == MAX_MESSAGE_LENGTH
    requires |prefix| == if ctx.be.Rtu? then 0 else 4
    requires Complete(p, Indication) && |p| <= MAX_PDU_LENGTH
    requires Seal(ctx.be, prefix, ctx.slave, p) <= req[..]
    modifies ctx`incoming, ctx`errno, rsp
    ensures var frame := Seal(ctx.be, prefix, ctx.slave, p);
      && Left(old(ctx.incoming), ctx.incoming)
      && if Whole(ctx.be, Confirmation, old(ctx.incoming), ctx.incoming) then
           Settled(ctx.be, ctx.slave, frame, old(ctx.incoming), rsp[..], rc, ctx.errno)
         else
           && rc == -1 && LinkError(ctx.errno)
           && (ctx.reliable ==> Frame(ctx.be, Confirmation, old(ctx.incoming)).Incomplete?)
  {
    ghost var s := ctx.incoming;
    rc := ReceiveMsg(ctx, rsp, Confirmation);
    if rc == -1 {
      if !Frame(ctx.be, Confirmation, s).Incomplete? && ReceiveCode(ctx.be, ctx.slave, Confirmation, s) == -1 {
        AwaitRefused(ctx.be, ctx.slave, Seal(ctx.be, prefix, ctx.slave, p), s);
      }
      return;
    }
    AwaitReceived(ctx.be, ctx.slave, prefix, ctx.slave, p, req[..], s, rsp[..], rc);
    match CheckConfirmation(ctx.be, req[..], rsp[..], rc)
    case Accept(nb) =>
      rc := nb;
    case Reject(e) =>
      ctx.errno := e;
      rc := -1;
  }

  /** Sends the message laid out in `req`, waits for the answer and judges it: the common part of all calls. */
  method Transact(ctx: Modbus, req: array<byte>, length: nat, rsp: array<byte>, ghost p: seq<byte>) returns (rc: int)
    requires 0 <= ctx.slave <= 255 && req != rsp && rsp.Length == MAX_MESSAGE_LENGTH
    requires Complete(p, Indication) && |p| <= MAX_PDU_LENGTH
    requires length + ctx.be.Checksum() <= req.Length
    requires Laid(ctx.be, req[..length], Prefix(ctx.be, ctx.tid), ctx.slave, p)
    modifies ctx`sends, ctx`lastSend, ctx`incoming, ctx`errno, req, rsp
    ensures var frame := Seal(ctx.be, Prefix(ctx.be, ctx.tid), ctx.slave, p);
      && ctx.sends == old(ctx.sends) + [frame]
      && Left(old(ctx.incoming), ctx.incoming)
      && if Whole(ctx.be, Confirmation, old(ctx.incoming), ctx.incoming) then
           Settled(ctx.be, ctx.slave, frame, old(ctx.incoming), rsp[..], rc, ctx.errno)
         else
           && LinkFailed(ctx.lastSend, rc, ctx.errno)
           && (rc == 0 ==> ctx.incoming == old(ctx.incoming))
           && (ctx.reliable ==> rc == -1 && Frame(ctx.be, Confirmation, old(ctx.incoming)).Incomplete?)
  {
    FinishLaid(ctx.be, req[..length], Prefix(ctx.be, ctx.tid), ctx.slave, p);
    rc := SendMsg(ctx, req, length);
    if rc > 0 {
      rc := AwaitAnswer(ctx, req, rsp, Prefix(ctx.be, ctx.tid), p);
    }
  }

  // ---- Reading -----------------------------------------------------------------------

  /** The decoding loops of `read_io_status`. */
  method DecodeBits(rsp: array<byte>, offset: nat, count: nat, nb: nat, dest: array<byte>)
    requires rsp != dest && offset + count <= rsp.Length && nb <= dest.Length && count == PackedLength(nb)
    modifies dest
    ensures nb <= 8 * count && dest[..nb] == UnpackBits(rsp[offset..offset + count], nb)
    ensures dest[nb..] == old(dest[nb..])
  {
    var pos: nat := 0;
    for i := offset to offset + count
      invariant pos == (if 8 * (i - offset) <= nb then 8 * (i - offset) else nb)
      invariant forall k :: 0 <= k < pos ==> dest[k] == Bit(rsp[offset + k / 8], k % 8)
      invariant forall k :: nb <= k < dest.Length ==> dest[k] == old(dest[k])
    {
      var temp: nat, bit: nat := rsp[i], 1;
      ghost var shift: nat := 0;
      while bit < 0x100 && pos < nb
        invariant shift <= 8 && bit == Shl(1, shift) && pos == 8 * (i - offset) + shift && pos <= nb
        invariant forall k :: 0 <= k < pos ==> dest[k] == Bit(rsp[offset + k / 8], k % 8)
        invariant forall k :: nb <= k < dest.Length ==> dest[k] == old(dest[k])
        decreases nb - pos
      {
        ByteShift(shift);
        MaskTest(temp, shift);
        assert pos / 8 == i - offset && pos % 8 == shift;
        dest[pos] := if And(temp, bit) != 0 then 1 else 0;
        pos, bit, shift := pos + 1, 2 * bit, shift + 1;
      }
      assert shift == 8 || pos == nb by {
        ByteShift(shift);
      }
    }
  }

  lemma AnsweredAsUnpacked(r: seq<byte>, n: nat)
    requires |r| >= 2 + PackedLength(n)
    ensures n <= 8 * PackedLength(n) && AnsweredBits(r, n) == UnpackBits(r[2..2 + PackedLength(n)], n)
  {
  }

  /** When the client has received all that it waits for, the call returns what the outcome says. Otherwise the
      link has failed, which a reliable one does only when there is nothing to receive; `taken` is what it took
      of the request. */
  predicate Judged(be: Backend, o: Outcome, s: seq<byte>, left: seq<byte>, taken: int, rc: int, errno: int,
                   reliable: bool)
  {
    && Left(s, left)
    && if Whole(be, Confirmation, s, left) then Returns(o, rc, errno)
       else
         && LinkFailed(taken, rc, errno)
         && (rc == 0 ==> left == s)
         && (reliable ==> rc == -1 && o.Waiting?)
  }

  predicate IsRead(q: Request) { q.ReadBits? || q.ReadRegisters? || q.WriteRead? || q.ReportSlaveId? }

  /** The data bytes of an answer that the client accepts with the value `rc`. */
  function DataBytes(q: Request, rc: nat): nat
    requires IsRead(q)
  {
    if q.ReportSlaveId? then rc else ReadSize(q)
  }

  /** The buffer holds the first `n` data bytes of the PDU, behind its count. */
  predicate DataHeld(be: Backend, pdu: seq<byte>, rsp: seq<byte>, n: nat)
  {
    var at := be.Header() + 2;
    2 + n <= |pdu| && at + n <= |rsp| && rsp[at..at + n] == pdu[2..2 + n]
  }

  lemma BufferHolds(be: Backend, rsp: seq<byte>, f: seq<byte>, n: nat)
    requires f <= rsp && be.Header() + 2 + n <= |f|
    ensures DataHeld(be, f[be.Header()..], rsp, n)
  {
  }

  lemma HeldByte(be: Backend, pdu: seq<byte>, rsp: seq<byte>, n: nat, k: nat)
    requires DataHeld(be, pdu, rsp, n) && k < n
    ensures rsp[be.Header() + 2 + k] == pdu[2 + k]
  {
    var at := be.Header() + 2;
    assert rsp[at..at + n][k] == pdu[2..2 + n][k];
  }

  /** The request laid out in `req`, as a whole: what is sent, what comes of it, and where the data are. */
  method Call(ctx: Modbus, req: array<byte>, length: nat, rsp: array<byte>, ghost q: Request) returns (rc: int)
    requires 0 <= ctx.slave <= 255 && req != rsp && rsp.Length == MAX_MESSAGE_LENGTH
    requires ClientBuilt(q) && length + ctx.be.Checksum() <= req.Length
    requires Laid(ctx.be, req[..length], Prefix(ctx.be, ctx.tid), ctx.slave, EncodePdu(q))
    modifies ctx`sends, ctx`lastSend, ctx`incoming, ctx`errno, req, rsp
    ensures ctx.sends == old(ctx.sends) + [ClientFrame(ctx.be, ctx.tid, ctx.slave, q)]
    ensures var o := Await(ctx.be, ctx.slave, ClientFrame(ctx.be, ctx.tid, ctx.slave, q), old(ctx.incoming));
      && Judged(ctx.be, o, old(ctx.incoming), ctx.incoming,
                ctx.lastSend, rc, ctx.errno, ctx.reliable)
      && (rc > 0 ==> o.Done? && o.nb == rc)
      && (rc > 0 && IsRead(q) && !q.ReportSlaveId? ==> rc == if q.ReadBits? then PackedLength(q.nb) else q.nb)
      && (rc > 0 && IsRead(q) ==> DataHeld(ctx.be, o.pdu, rsp[..], DataBytes(q, rc)))
  {
    ghost var s := ctx.incoming;
    EncodedComplete(q);
    rc := Transact(ctx, req, length, rsp, EncodePdu(q));
    if rc > 0 && IsRead(q) {
      if q.ReportSlaveId? {
        DoneSlaveId(ctx.be, ctx.tid, ctx.slave, ctx.slave, s);
      } else {
        DoneRead(ctx.be, ctx.tid, ctx.slave, q, ctx.slave, s);
      }
      BufferHolds(ctx.be, rsp[..], s[..Frame(ctx.be, Confirmation, s).length], DataBytes(q, rc));
    }
  }

  /** The bits of a response in the buffer, whose PDU is `pdu`. */
  method FillBits(be: Backend, rsp: array<byte>, count: nat, nb: nat, dest: array<byte>, ghost pdu: seq<byte>)
    requires rsp != dest && nb <= dest.Length && count == PackedLength(nb) && DataHeld(be, pdu, rsp[..], count)
    modifies dest
    ensures dest[..] == AnsweredBits(pdu, nb) + old(dest[nb..])
  {
    var at := be.Header() + 2;
    AnsweredAsUnpacked(pdu, nb);
    assert rsp[..][at..at + count] == rsp[at..at + count];
    DecodeBits(rsp, at, count, nb, dest);
    assert dest[..] == dest[..nb] + dest[nb..];
  }

  function BitsRequest(function_: byte, addr: word, nb: word): Request
  {
    ReadBits(function_ == FC_READ_DISCRETE_INPUTS, addr, nb)
  }

  /** `read_io_status`: the destination gets the bits of an accepted answer, and is untouched otherwise and
      beyond `nb`. */
  method ReadIoStatus(ctx: Modbus, function_: byte, addr: word, nb: word, dest: array<byte>) returns (rc: int)
    requires 0 <= ctx.slave <= 255 && 1 <= nb <= MAX_READ_BITS && nb <= dest.Length
    requires function_ == FC_READ_COILS || function_ == FC_READ_DISCRETE_INPUTS
    modifies ctx`sends, ctx`lastSend, ctx`incoming, ctx`errno, ctx`tid, dest
    ensures ctx.tid == Advanced(ctx.be, old(ctx.tid))
    ensures var req := ClientFrame(ctx.be, ctx.tid, ctx.slave, BitsRequest(function_, addr, nb));
      var o := Await(ctx.be, ctx.slave, req, old(ctx.incoming));
      && ctx.sends == old(ctx.sends) + [req]
      && Judged(ctx.be, o, old(ctx.incoming), ctx.incoming,
                ctx.lastSend, rc, ctx.errno, ctx.reliable)
      && (if rc > 0 then o.Done? && dest[..] == AnsweredBits(o.pdu, nb) + old(dest[nb..])
          else dest[..] == old(dest[..]))
  {
    ghost var q := BitsRequest(function_, addr, nb);
    ghost var s := ctx.incoming;
    var req := new byte[12];
    var rsp := new byte[MAX_MESSAGE_LENGTH];
    var n := BuildRequestBasis(ctx, function_, addr, nb, req);
    assert EncodePdu(q) == [function_, Hi(addr), Lo(addr), Hi(nb), Lo(nb)];
    rc := Call(ctx, req, n, rsp, q);
    if rc > 0 {
      FillBits(ctx.be, rsp, rc, nb, dest, Await(ctx.be, ctx.slave, ClientFrame(ctx.be, ctx.tid, ctx.slave, q), s).pdu);
    }
  }

  /** `modbus_read_bits` and `modbus_read_input_bits`. The count is the one asked for; it is also returned
      when the link took nothing of the request and reported no error. */
  method ReadBitsCall(ctx: Modbus, input: bool, addr: word, nb: int, dest: array<byte>) returns (rc: int)
    requires 0 <= ctx.slave <= 255 && nb <= dest.Length
    modifies ctx`sends, ctx`lastSend, ctx`incoming, ctx`errno, ctx`tid, dest
    ensures if 1 <= nb <= 2000 then
        var req := ClientFrame(ctx.be, ctx.tid, ctx.slave, ReadBits(input, addr, nb));
        var o := Await(ctx.be, ctx.slave, req, old(ctx.incoming));
        && ctx.tid == Advanced(ctx.be, old(ctx.tid))
        && ctx.sends == old(ctx.sends) + [req] && Left(old(ctx.incoming), ctx.incoming)
        && if Whole(ctx.be, Confirmation, old(ctx.incoming), ctx.incoming) then
             if o.Done? then rc == nb && dest[..] == AnsweredBits(o.pdu, nb) + old(dest[nb..])
             else o == Failed(ctx.errno) && rc == -1 && dest[..] == old(dest[..])
           else
             && rc in {-1, nb} && LinkFailed(ctx.lastSend, if rc == nb then 0 else rc, ctx.errno)
             && (rc == nb ==> ctx.incoming == old(ctx.incoming))
             && (ctx.reliable ==> rc == -1 && o.Waiting?) && dest[..] == old(dest[..])
      else
        rc == -1 && ctx.errno == 112345681 && ctx.sends == old(ctx.sends) && dest[..] == old(dest[..])
  {
    if nb < 1 || nb > MAX_READ_BITS {
      ctx.errno := EMBXILVAL;
      return -1;
    }
    ghost var s := ctx.incoming;
    rc := ReadIoStatus(ctx, if input then FC_READ_DISCRETE_INPUTS else FC_READ_COILS, addr, nb, dest);
    SomethingDone(ctx.be, ctx.tid, ctx.slave, ReadBits(input, addr, nb), ctx.slave, s);
    if rc != -1 {
      rc := nb;
    }
  }

  /** The decoding loop of `read_registers`, for a response in the buffer whose PDU is `pdu`. */
  method DecodeWords(be: Backend, rsp: array<byte>, nb: nat, dest: array<word>, ghost pdu: seq<byte>)
    requires nb <= dest.Length && DataHeld(be, pdu, rsp[..], 2 * nb)
    modifies dest
    ensures dest[..] == AnsweredWords(pdu, nb) + old(dest[nb..])
  {
    var offset := be.Header() + 2;
    for i := 0 to nb
      invariant forall k :: 0 <= k < i ==> dest[k] == AnsweredWords(pdu, nb)[k]
      invariant forall k :: i <= k < dest.Length ==> dest[k] == old(dest[k])
    {
      HeldByte(be, pdu, rsp[..], 2 * nb, 2 * i);
      HeldByte(be, pdu, rsp[..], 2 * nb, 2 * i + 1);
      dest[i] := Word(rsp[offset + 2 * i], rsp[offset + 2 * i + 1]);
    }
  }

  /** `read_registers`, for `modbus_read_registers` and `modbus_read_input_registers`. */
  method ReadRegistersCall(ctx: Modbus, input: bool, addr: word, nb: int, dest: array<word>) returns (rc: int)
    requires 0 <= ctx.slave <= 255 && nb <= dest.Length
    modifies ctx`sends, ctx`lastSend, ctx`incoming, ctx`errno, ctx`tid, dest
    ensures if 1 <= nb <= 125 then
        var req := ClientFrame(ctx.be, ctx.tid, ctx.slave, ReadRegisters(input, addr, nb));
        var o := Await(ctx.be, ctx.slave, req, old(ctx.incoming));
        && ctx.tid == Advanced(ctx.be, old(ctx.tid))
        && ctx.sends == old(ctx.sends) + [req]
        && Judged(ctx.be, o, old(ctx.incoming), ctx.incoming,
                  ctx.lastSend, rc, ctx.errno, ctx.reliable)
        && (if rc > 0 then rc == nb && o.Done? && dest[..] == AnsweredWords(o.pdu, nb) + old(dest[nb..])
            else dest[..] == old(dest[..]))
      else
        rc == -1 && ctx.errno == 112345681 && ctx.sends == old(ctx.sends) && dest[..] == old(dest[..])
  {
    if nb < 1 || nb > MAX_READ_REGISTERS {
      ctx.errno := EMBXILVAL;
      return -1;
    }
    ghost var q := ReadRegisters(input, addr, nb);
    ghost var s := ctx.incoming;
    var function_ := if input then FC_READ_INPUT_REGISTERS else FC_READ_HOLDING_REGISTERS;
    var req := new byte[12];
    var rsp := new byte[MAX_MESSAGE_LENGTH];
    var n := BuildRequestBasis(ctx, function_, addr, nb, req);
    assert EncodePdu(q) == [function_, Hi(addr), Lo(addr), Hi(nb), Lo(nb)];
    rc := Call(ctx, req, n, rsp, q);
    if rc > 0 {
      DecodeWords(ctx.be, rsp, rc, dest, Await(ctx.be, ctx.slave, ClientFrame(ctx.be, ctx.tid, ctx.slave, q), s).pdu);
    }
  }

  // ---- Writing -----------------------------------------------------------------------

  /** `write_single`, for `modbus_write_bit`. */
  method WriteBitCall(ctx: Modbus, addr: word, status: bool) returns (rc: int)
    requires 0 <= ctx.slave <= 255
    modifies ctx`sends, ctx`lastSend, ctx`incoming, ctx`errno, ctx`tid
    ensures ctx.tid == Advanced(ctx.be, old(ctx.tid))
    ensures var req := ClientFrame(ctx.be, ctx.tid, ctx.slave, WriteCoil(addr, if status then 0xFF00 else 0, true));
      && ctx.sends == old(ctx.sends) + [req]
      && Judged(ctx.be, Await(ctx.be, ctx.slave, req, old(ctx.incoming)), old(ctx.incoming), ctx.incoming,
                ctx.lastSend, rc, ctx.errno, ctx.reliable)
  {
    var value: word := if status then 0xFF00 else 0;
    var req := new byte[12];
    var rsp := new byte[MAX_MESSAGE_LENGTH];
    var n := BuildRequestBasis(ctx, FC_WRITE_SINGLE_COIL, addr, value, req);
    rc := Call(ctx, req, n, rsp, WriteCoil(addr, value, true));
  }

  /** `write_single`, for `modbus_write_register`. */
  method WriteRegisterCall(ctx: Modbus, addr: word, value: word) returns (rc: int)
    requires 0 <= ctx.slave <= 255
    modifies ctx`sends, ctx`lastSend, ctx`incoming, ctx`errno, ctx`tid
    ensures ctx.tid == Advanced(ctx.be, old(ctx.tid))
    ensures var req := ClientFrame(ctx.be, ctx.tid, ctx.slave, WriteRegister(addr, value, true));
      && ctx.sends == old(ctx.sends) + [req]
      && Judged(ctx.be, Await(ctx.be, ctx.slave, req, old(ctx.incoming)), old(ctx.incoming), ctx.incoming,
                ctx.lastSend, rc, ctx.errno, ctx.reliable)
  {
    var req := new byte[12];
    var rsp := new byte[MAX_MESSAGE_LENGTH];
    var n := BuildRequestBasis(ctx, FC_WRITE_SINGLE_REGISTER, addr, value, req);
    rc := Call(ctx, req, n, rsp, WriteRegister(addr, value, true));
  }

  /** A message that is laid out, with more bytes put behind it in two steps. */
  lemma LaidOn(be: Backend, prefix: seq<byte>, slave: byte, short: seq<byte>, base: seq<byte>,
               more: seq<byte>, grown: seq<byte>, payload: seq<byte>, whole: seq<byte>, p: seq<byte>)
    requires |prefix| == (if be.Rtu? then 0 else 4) && Laid(be, base, prefix, slave, short)
    requires grown == base + more && whole == grown + payload && p == short + more + payload
    ensures Laid(be, whole, prefix, slave, p)
  {
  }

  /** A message cut back to a shorter PDU. */
  lemma LaidBack(be: Backend, prefix: seq<byte>, slave: byte, pdu: seq<byte>, m: seq<byte>,
                 short: seq<byte>, cut: seq<byte>)
    requires |prefix| == (if be.Rtu? then 0 else 4) && Laid(be, m, prefix, slave, pdu)
    requires short <= pdu && cut == m[..be.Header() + |short|]
    ensures Laid(be, cut, prefix, slave, short)
  {
    assert be.Tcp? ==> cut[..4] == m[..4];
    assert cut[be.Header()..] == m[be.Header()..][..|short|];
  }

  /** `modbus_write_bits`. */
  method WriteBitsCall(ctx: Modbus, addr: word, nb: int, src: seq<byte>) returns (rc: int)
    requires 0 <= ctx.slave <= 255 && nb <= |src|
    modifies ctx`sends, ctx`lastSend, ctx`incoming, ctx`errno, ctx`tid
    ensures if 1 <= nb <= 1968 then
        var req := ClientFrame(ctx.be, ctx.tid, ctx.slave, WriteCoils(addr, nb, PackCells(Normal(src[..nb]))));
        && ctx.tid == Advanced(ctx.be, old(ctx.tid))
        && ctx.sends == old(ctx.sends) + [req]
        && Judged(ctx.be, Await(ctx.be, ctx.slave, req, old(ctx.incoming)), old(ctx.incoming), ctx.incoming,
                  ctx.lastSend, rc, ctx.errno, ctx.reliable)
      else
        rc == -1 && ctx.errno == 112345681 && ctx.sends == old(ctx.sends)
  {
    if nb < 1 || nb > MAX_WRITE_BITS {
      ctx.errno := EMBXILVAL;
      return -1;
    }
    var req := new byte[MAX_MESSAGE_LENGTH];
    var rsp := new byte[MAX_MESSAGE_LENGTH];
    var n := BuildWriteBits(ctx, addr, nb, src, req);
    rc := Call(ctx, req, n, rsp, WriteCoils(addr, nb, PackCells(Normal(src[..nb]))));
  }

  method BuildWriteBits(ctx: Modbus, addr: word, nb: word, src: seq<byte>, req: array<byte>) returns (n: nat)
    requires 0 <= ctx.slave <= 255 && 1 <= nb <= MAX_WRITE_BITS && nb <= |src| && req.Length == MAX_MESSAGE_LENGTH
    modifies ctx`tid, req
    ensures ctx.tid == Advanced(ctx.be, old(ctx.tid))
    ensures n + ctx.be.Checksum() <= req.Length
    ensures Laid(ctx.be, req[..n], Prefix(ctx.be, ctx.tid), ctx.slave,
                 EncodePdu(WriteCoils(addr, nb, PackCells(Normal(src[..nb])))))
  {
    n := BuildRequestBasis(ctx, FC_WRITE_MULTIPLE_COILS, addr, nb, req);
    ghost var base := req[..n];
    var count: byte := PackedLength(nb);
    req[n] := count;
    ghost var grown := req[..n + 1];
    assert grown == base + [count];
    n := PackSource(src, nb, req, n + 1);
    ghost var payload := PackCells(Normal(src[..nb]));
    LaidOn(ctx.be, Prefix(ctx.be, ctx.tid), ctx.slave,
           [FC_WRITE_MULTIPLE_COILS, Hi(addr), Lo(addr), Hi(nb), Lo(nb)], base, [count], grown, payload,
           req[..n], EncodePdu(WriteCoils(addr, nb, payload)));
  }

  /** The loop that puts the registers of the source into a request, high byte first. */
  method PutWords(src: seq<word>, nb: nat, req: array<byte>, offset: nat) returns (end: nat)
    requires nb <= |src| && offset + 2 * nb <= req.Length
    modifies req
    ensures end == offset + 2 * nb
    ensures req[..end] == old(req[..offset]) + WordBytes(src[..nb])
  {
    end := offset;
    for i := 0 to nb
      invariant end == offset + 2 * i
      invariant req[..end] == old(req[..offset]) + WordBytes(src[..i])
    {
      ghost var done := req[..end];
      req[end] := Hi(src[i]);
      req[end + 1] := Lo(src[i]);
      end := end + 2;
      assert req[..end] == done + [Hi(src[i]), Lo(src[i])];
      WordBytesAppend(src[..i], src[i]);
      assert src[..i + 1] == src[..i] + [src[i]];
    }
  }

  /** `modbus_write_registers`. */
  method WriteRegistersCall(ctx: Modbus, addr: word, nb: int, src: seq<word>) returns (rc: int)
    requires 0 <= ctx.slave <= 255 && nb <= |src|
    modifies ctx`sends, ctx`lastSend, ctx`incoming, ctx`errno, ctx`tid
    ensures if 1 <= nb <= 123 then
        var req := ClientFrame(ctx.be, ctx.tid, ctx.slave, WriteRegisters(addr, nb, WordBytes(src[..nb])));
        && ctx.tid == Advanced(ctx.be, old(ctx.tid))
        && ctx.sends == old(ctx.sends) + [req]
        && Judged(ctx.be, Await(ctx.be, ctx.slave, req, old(ctx.incoming)), old(ctx.incoming), ctx.incoming,
                  ctx.lastSend, rc, ctx.errno, ctx.reliable)
      else
        rc == -1 && ctx.errno == 112345681 && ctx.sends == old(ctx.sends)
  {
    if nb < 1 || nb > MAX_WRITE_REGISTERS {
      ctx.errno := EMBXILVAL;
      return -1;
    }
    var req := new byte[MAX_MESSAGE_LENGTH];
    var rsp := new byte[MAX_MESSAGE_LENGTH];
    var n := BuildWriteRegisters(ctx, addr, nb, src, req);
    rc := Call(ctx, req, n, rsp, WriteRegisters(addr, nb, WordBytes(src[..nb])));
  }

  method BuildWriteRegisters(ctx: Modbus, addr: word, nb: word, src: seq<word>, req: array<byte>) returns (n: nat)
    requires 0 <= ctx.slave <= 255 && 1 <= nb <= MAX_WRITE_REGISTERS && nb <= |src| && req.Length == MAX_MESSAGE_LENGTH
    modifies ctx`tid, req
    ensures ctx.tid == Advanced(ctx.be, old(ctx.tid))
    ensures n + ctx.be.Checksum() <= req.Length
    ensures Laid(ctx.be, req[..n], Prefix(ctx.be, ctx.tid), ctx.slave,
                 EncodePdu(WriteRegisters(addr, nb, WordBytes(src[..nb]))))
  {
    n := BuildRequestBasis(ctx, FC_WRITE_MULTIPLE_REGISTERS, addr, nb, req);
    ghost var base := req[..n];
    var count: byte := nb * 2;
    req[n] := count;
    ghost var grown := req[..n + 1];
    assert grown == base + [count];
    n := PutWords(src, nb, req, n + 1);
    ghost var payload := WordBytes(src[..nb]);
    LaidOn(ctx.be, Prefix(ctx.be, ctx.tid), ctx.slave,
           [FC_WRITE_MULTIPLE_REGISTERS, Hi(addr), Lo(addr), Hi(nb), Lo(nb)], base, [count], grown, payload,
           req[..n], EncodePdu(WriteRegisters(addr, nb, payload)));
  }

  /** `modbus_mask_write_register`: the quantity of the basis is overwritten by the masks. */
  method MaskWriteCall(ctx: Modbus, addr: word, andMask: word, orMask: word) returns (rc: int)
    requires 0 <= ctx.slave <= 255
    modifies ctx`sends, ctx`lastSend, ctx`incoming, ctx`errno, ctx`tid
    ensures ctx.tid == Advanced(ctx.be, old(ctx.tid))
    ensures var req := ClientFrame(ctx.be, ctx.tid, ctx.slave, MaskWrite(addr, andMask, orMask, true));
      && ctx.sends == old(ctx.sends) + [req]
      && Judged(ctx.be, Await(ctx.be, ctx.slave, req, old(ctx.incoming)), old(ctx.incoming), ctx.incoming,
                ctx.lastSend, rc, ctx.errno, ctx.reliable)
  {
    var req := new byte[14];
    var rsp := new byte[MAX_MESSAGE_LENGTH];
    var n := BuildMaskWrite(ctx, addr, andMask, orMask, req);
    rc := Call(ctx, req, n, rsp, MaskWrite(addr, andMask, orMask, true));
  }

  method BuildMaskWrite(ctx: Modbus, addr: word, andMask: word, orMask: word, req: array<byte>) returns (n: nat)
    requires 0 <= ctx.slave <= 255 && req.Length == 14
    modifies ctx`tid, req
    ensures ctx.tid == Advanced(ctx.be, old(ctx.tid))
    ensures n + ctx.be.Checksum() <= req.Length
    ensures Laid(ctx.be, req[..n], Prefix(ctx.be, ctx.tid), ctx.slave,
                 EncodePdu(MaskWrite(addr, andMask, orMask, true)))
  {
    n := BuildRequestBasis(ctx, FC_MASK_WRITE_REGISTER, addr, 0, req);
    ghost var base := req[..n];
    LaidBack(ctx.be, Prefix(ctx.be, ctx.tid), ctx.slave, [FC_MASK_WRITE_REGISTER, Hi(addr), Lo(addr), 0, 0], base,
             [FC_MASK_WRITE_REGISTER, Hi(addr), Lo(addr)], base[..n - 2]);
    n := n - 2;
    base := base[..n];
    ghost var masks := [Hi(andMask), Lo(andMask), Hi(orMask), Lo(orMask)];
    req[n], req[n + 1], req[n + 2], req[n + 3] := Hi(andMask), Lo(andMask), Hi(orMask), Lo(orMask);
    n := n + 4;
    LaidOn(ctx.be, Prefix(ctx.be, ctx.tid), ctx.slave, [FC_MASK_WRITE_REGISTER, Hi(addr), Lo(addr)], base,
           masks, base + masks, [], req[..n], EncodePdu(MaskWrite(addr, andMask, orMask, true)));
  }

  /** `modbus_write_and_read_registers`. */
  method WriteAndReadCall(ctx: Modbus, writeAddr: word, writeNb: int, src: seq<word>,
                          readAddr: word, readNb: int, dest: array<word>)
    returns (rc: int)
    requires 0 <= ctx.slave <= 255 && writeNb <= |src| && readNb <= dest.Length
    modifies ctx`sends, ctx`lastSend, ctx`incoming, ctx`errno, ctx`tid, dest
    ensures if 1 <= writeNb <= 121 && 1 <= readNb <= 125 then
        var req := ClientFrame(ctx.be, ctx.tid, ctx.slave,
                               WriteRead(readAddr, readNb, writeAddr, writeNb, WordBytes(src[..writeNb])));
        var o := Await(ctx.be, ctx.slave, req, old(ctx.incoming));
        && ctx.tid == Advanced(ctx.be, old(ctx.tid))
        && ctx.sends == old(ctx.sends) + [req]
        && Judged(ctx.be, o, old(ctx.incoming), ctx.incoming,
                  ctx.lastSend, rc, ctx.errno, ctx.reliable)
        && (if rc > 0 then rc == readNb && o.Done? && dest[..] == AnsweredWords(o.pdu, readNb) + old(dest[readNb..])
            else dest[..] == old(dest[..]))
      else
        && rc == -1 && ctx.sends == old(ctx.sends) && dest[..] == old(dest[..])
        && ctx.errno == if writeNb < 1 || readNb < 1 then 22 else 112345681
  {
    if writeNb < 1 || readNb < 1 {
      ctx.errno := EINVAL;
      return -1;
    }
    if writeNb > MAX_WR_WRITE_REGISTERS || readNb > MAX_WR_READ_REGISTERS {
      ctx.errno := EMBXILVAL;
      return -1;
    }
    ghost var s := ctx.incoming;
    var req := new byte[MAX_MESSAGE_LENGTH];
    var rsp := new byte[MAX_MESSAGE_LENGTH];
    ghost var q := WriteRead(readAddr, readNb, writeAddr, writeNb, WordBytes(src[..writeNb]));
    var n := BuildWriteAndRead(ctx, writeAddr, writeNb, src, readAddr, readNb, req);
    rc := Call(ctx, req, n, rsp, q);
    if rc > 0 {
      DecodeWords(ctx.be, rsp, rc, dest, Await(ctx.be, ctx.slave, ClientFrame(ctx.be, ctx.tid, ctx.slave, q), s).pdu);
    }
  }

  method BuildWriteAndRead(ctx: Modbus, writeAddr: word, writeNb: word, src: seq<word>,
                           readAddr: word, readNb: word, req: array<byte>)
    returns (n: nat)
    requires 0 <= ctx.slave <= 255 && writeNb <= |src| && req.Length == MAX_MESSAGE_LENGTH
    requires 1 <= writeNb <= MAX_WR_WRITE_REGISTERS && 1 <= readNb <= MAX_WR_READ_REGISTERS
    modifies ctx`tid, req
    ensures ctx.tid == Advanced(ctx.be, old(ctx.tid))
    ensures n + ctx.be.Checksum() <= req.Length
    ensures Laid(ctx.be, req[..n], Prefix(ctx.be, ctx.tid), ctx.slave,
                 EncodePdu(WriteRead(readAddr, readNb, writeAddr, writeNb, WordBytes(src[..writeNb]))))
  {
    n := BuildRequestBasis(ctx, FC_WRITE_AND_READ_REGISTERS, readAddr, readNb, req);
    ghost var base := req[..n];
    var count: byte := writeNb * 2;
    ghost var more := [Hi(writeAddr), Lo(writeAddr), Hi(writeNb), Lo(writeNb), count];
    req[n], req[n + 1], req[n + 2], req[n + 3] := Hi(writeAddr), Lo(writeAddr), Hi(writeNb), Lo(writeNb);
    req[n + 4] := count;
    ghost var grown := req[..n + 5];
    assert grown == base + more;
    n := PutWords(src, writeNb, req, n + 5);
    ghost var payload := WordBytes(src[..writeNb]);
    LaidOn(ctx.be, Prefix(ctx.be, ctx.tid), ctx.slave,
           [FC_WRITE_AND_READ_REGISTERS, Hi(readAddr), Lo(readAddr), Hi(readNb), Lo(readNb)], base, more, grown,
           payload, req[..n], EncodePdu(WriteRead(readAddr, readNb, writeAddr, writeNb, payload)));
  }

  /** `modbus_report_slave_id`: address and quantity of the basis are dropped; at most `maxDest` bytes of
      the answer are copied. */
  method ReportSlaveIdCall(ctx: Modbus, maxDest: nat, dest: array<byte>) returns (rc: int)
    requires 0 <= ctx.slave <= 255 && 0 < maxDest <= dest.Length
    modifies ctx`sends, ctx`lastSend, ctx`incoming, ctx`errno, ctx`tid, dest
    ensures ctx.tid == Advanced(ctx.be, old(ctx.tid))
    ensures var req := ClientFrame(ctx.be, ctx.tid, ctx.slave, ReportSlaveId);
      var o := Await(ctx.be, ctx.slave, req, old(ctx.incoming));
      && ctx.sends == old(ctx.sends) + [req]
      && Judged(ctx.be, o, old(ctx.incoming), ctx.incoming,
                ctx.lastSend, rc, ctx.errno, ctx.reliable)
      && if rc <= 0 then dest[..] == old(dest[..])
         else
           var n := if rc < maxDest then rc else maxDest;
           o.Done? && o.nb == rc && 2 + rc <= |o.pdu| && dest[..] == o.pdu[2..2 + n] + old(dest[n..])
  {
    ghost var s := ctx.incoming;
    var req := new byte[12];
    var rsp := new byte[MAX_MESSAGE_LENGTH];
    var n := BuildReportSlaveId(ctx, req);
    rc := Call(ctx, req, n, rsp, ReportSlaveId);
    if rc > 0 {
      CopySlaveId(ctx.be, rsp, rc, maxDest, dest,
                  Await(ctx.be, ctx.slave, ClientFrame(ctx.be, ctx.tid, ctx.slave, ReportSlaveId), s).pdu);
    }
  }

  method BuildReportSlaveId(ctx: Modbus, req: array<byte>) returns (n: nat)
    requires 0 <= ctx.slave <= 255 && req.Length == 12
    modifies ctx`tid, req
    ensures ctx.tid == Advanced(ctx.be, old(ctx.tid))
    ensures n + ctx.be.Checksum() <= req.Length
    ensures Laid(ctx.be, req[..n], Prefix(ctx.be, ctx.tid), ctx.slave, EncodePdu(ReportSlaveId))
  {
    n := BuildRequestBasis(ctx, FC_REPORT_SLAVE_ID, 0, 0, req);
    ghost var base := req[..n];
    n := n - 4;
    LaidBack(ctx.be, Prefix(ctx.be, ctx.tid), ctx.slave, [FC_REPORT_SLAVE_ID, 0, 0, 0, 0], base,
             [FC_REPORT_SLAVE_ID], req[..n]);
  }

  /** The copying loop of `modbus_report_slave_id`. */
  method CopySlaveId(be: Backend, rsp: array<byte>, rc: nat, maxDest: nat, dest: array<byte>, ghost pdu: seq<byte>)
    requires rsp != dest && maxDest <= dest.Length && DataHeld(be, pdu, rsp[..], rc)
    modifies dest
    ensures var n := if rc < maxDest then rc else maxDest;
      dest[..] == pdu[2..2 + n] + old(dest[n..])
  {
    var offset := be.Header() + 2;
    var i := 0;
    while i < rc && i < maxDest
      invariant 0 <= i <= rc && i <= maxDest
      invariant forall k :: 0 <= k < dest.Length ==> dest[k] == if k < i then pdu[2 + k] else old(dest[k])
    {
      HeldByte(be, pdu, rsp[..], rc, i);
      dest[i] := rsp[offset + i];
      i := i + 1;
    }
  }
}
