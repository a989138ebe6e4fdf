/** `modbus_proxy`: a request of one link is passed on to another, and its response back. */
module ProxyCode {
  import opened Bytes
  import opened Protocol
  import opened Client
  import opened Data
  import opened Context
  import opened Gateway
  import opened Wire
  import opened ReplyCode

  // ---- Messages in a buffer -----------------------------------------------------------

  lemma LaidBehind(be: Backend, m: seq<byte>, prefix: seq<byte>, slave: byte, code: byte, pdu: seq<byte>,
                   whole: seq<byte>)
    requires |prefix| == (if be.Rtu? then 0 else 4) && Laid(be, m, prefix, slave, [code])
    requires |pdu| >= 1 && pdu[0] == code && whole == m + pdu[1..]
    ensures Laid(be, whole, prefix, slave, pdu)
  {
    assert [code] + pdu[1..] == pdu;
  }

  /** A header for the PDU, and the PDU behind it: `build_response_basis` and a copy. */
  method Wrap(be: Backend, slave: byte, tid: word, pdu: seq<byte>, buffer: array<byte>) returns (n: nat)
    requires 1 <= |pdu| <= MAX_PDU_LENGTH && buffer.Length == MAX_MESSAGE_LENGTH
    modifies buffer
    ensures n == be.Header() + |pdu|
    ensures Laid(be, buffer[..n], Prefix(be, tid), slave, pdu)
  {
    n := BuildResponseBasis(be, Sft(slave, pdu[0], tid), buffer);
    ghost var basis := buffer[..n];
    Copy(buffer, n, pdu[1..]);
    n := n + |pdu| - 1;
    LaidBehind(be, basis, Prefix(be, tid), slave, pdu[0], pdu, buffer[..n]);
  }

  /** Sends the PDU under a header of its own. */
  method SendPdu(ctx: Modbus, slave: byte, tid: word, pdu: seq<byte>) returns (rc: int)
    requires 1 <= |pdu| <= MAX_PDU_LENGTH
    modifies ctx`sends, ctx`lastSend, ctx`errno
    ensures ctx.sends == old(ctx.sends) + [Seal(ctx.be, Prefix(ctx.be, tid), slave, pdu)]
    ensures SendCode(rc, ctx.lastSend, ctx.be.Header() + |pdu| + ctx.be.Checksum(), ctx.errno, ctx.reliable)
  {
    var buffer := new byte[MAX_MESSAGE_LENGTH];
    var n := Wrap(ctx.be, slave, tid, pdu, buffer);
    FinishLaid(ctx.be, buffer[..n], Prefix(ctx.be, tid), slave, pdu);
    rc := SendMsg(ctx, buffer, n);
  }

  /** `modbus_send_raw_request_tid`: unit, function and data are given, the framing is put around them. */
  method SendRawRequest(ctx: Modbus, raw: seq<byte>, tid: word) returns (rc: int)
    modifies ctx`sends, ctx`lastSend, ctx`errno
    ensures 2 <= |raw| <= MAX_PDU_LENGTH + 1 ==>
      && ctx.sends == old(ctx.sends) + [Seal(ctx.be, Prefix(ctx.be, tid), raw[0], raw[1..])]
      && SendCode(rc, ctx.lastSend, ctx.be.Header() - 1 + |raw| + ctx.be.Checksum(), ctx.errno, ctx.reliable)
    ensures !(2 <= |raw| <= MAX_PDU_LENGTH + 1) ==> ctx.sends == old(ctx.sends) && rc == -1 && ctx.errno == EINVAL
  {
    if |raw| < 2 || |raw| > MAX_PDU_LENGTH + 1 {
      ctx.errno := EINVAL;
      return -1;
    }
    rc := SendPdu(ctx, raw[0], tid, raw[1..]);
  }

  lemma OwnTransaction(be: Backend, req: seq<byte>)
    requires |req| >= be.Header() + 1
    ensures Prefix(be, ResponseTid(be, req)) == AnswerPrefix(be, req)
  {
  }

  /** `modbus_reply_exception`. */
  method ReplyException(ctx: Modbus, req: seq<byte>, code: byte) returns (rc: int)
    requires |req| >= ctx.be.Header() + 1
    modifies ctx`sends, ctx`lastSend, ctx`errno
    ensures code < EXCEPTION_MAX ==>
      && ctx.sends == old(ctx.sends) + [Refusal(ctx.be, req, code)]
      && SendCode(rc, ctx.lastSend, |Refusal(ctx.be, req, code)|, ctx.errno, ctx.reliable)
    ensures code >= EXCEPTION_MAX ==> ctx.sends == old(ctx.sends) && rc == -1 && ctx.errno == EINVAL
  {
    var h := ctx.be.Header();
    if code >= EXCEPTION_MAX {
      ctx.errno := EINVAL;
      return -1;
    }
    OwnTransaction(ctx.be, req);
    rc := SendPdu(ctx, req[h - 1], ResponseTid(ctx.be, req), [(req[h] as int + 0x80) % 0x100, code]);
  }

  // ---- The gateway ----------------------------------------------------------------------

  /** What the gateway answers once the other link's stream `s` decides: the response of the unit asked,
      "gateway target failed" for a frame that is another's, "gateway path unavailable" for a broken one. */
  function Answered(front: Backend, req: seq<byte>, back: Backend, slave: byte, p: seq<byte>, s: seq<byte>): seq<byte>
    requires |req| >= front.Header() + 1 && |p| <= MAX_PDU_LENGTH
    requires !Frame(back, Confirmation, s).Incomplete?
  {
    if Relays(back, slave, p, s) then Relayed(front, req, back, s[..Frame(back, Confirmation, s).length])
    else if ReceiveCode(back, slave, Confirmation, s) == -1 then Refusal(front, req, EXCEPTION_GATEWAY_PATH)
    else Refusal(front, req, EXCEPTION_GATEWAY_TARGET)
  }

  /** The choice in bytes: 10 for a frame that is too long or corrupt, 11 for one of another transaction, protocol or
      unit, and every other one is relayed. */
  lemma AnsweredInBytes(front: Backend, req: seq<byte>, back: Backend, slave: byte, p: seq<byte>, s: seq<byte>)
    requires |req| >= front.Header() + 1 && |p| <= MAX_PDU_LENGTH
    requires !Frame(back, Confirmation, s).Incomplete?
    ensures Answered(front, req, back, slave, p, s)
         == if Frame(back, Confirmation, s).TooMany? || (back.Rtu? && Corrupt(Confirmation, s))
            then Refusal(front, req, 10)
            else if back.Rtu? && s[0] != slave then Refusal(front, req, 11)
            else if back.Tcp? && (s[0] != 0 || s[1] != 0 || s[2] != 0 || s[3] != 0) then Refusal(front, req, 11)
            else Relayed(front, req, back, s[..Frame(back, Confirmation, s).length])
  {
    if Frame(back, Confirmation, s).Framed? {
      if back.Rtu? {
        RtuRelays(slave, p, s);
      } else {
        TcpRelays(slave, p, s);
      }
    }
  }

  lemma RtuRelays(slave: byte, p: seq<byte>, s: seq<byte>)
    requires |p| <= MAX_PDU_LENGTH && Frame(Rtu, Confirmation, s).Framed?
    ensures Relays(Rtu, slave, p, s) <==> !Corrupt(Confirmation, s) && s[0] == slave
    ensures ReceiveCode(Rtu, slave, Confirmation, s) == -1 <==> Corrupt(Confirmation, s)
  {
    ForwardedHeader(Rtu, slave, p);
    IntegrityCode(slave, s[..Frame(Rtu, Confirmation, s).length]);
  }

  lemma TcpRelays(slave: byte, p: seq<byte>, s: seq<byte>)
    requires |p| <= MAX_PDU_LENGTH && Frame(Tcp, Confirmation, s).Framed?
    ensures Relays(Tcp, slave, p, s) <==> s[0] == 0 && s[1] == 0 && s[2] == 0 && s[3] == 0
    ensures ReceiveCode(Tcp, slave, Confirmation, s) != -1
  {
    ForwardedHeader(Tcp, slave, p);
  }

  lemma ForwardedHeader(back: Backend, slave: byte, p: seq<byte>)
    requires |p| <= MAX_PDU_LENGTH
    ensures back.Rtu? ==> Forwarded(back, slave, p)[0] == slave
    ensures back.Tcp? ==> Forwarded(back, slave, p)[0] == 0 && Forwarded(back, slave, p)[1] == 0
  {
  }

  /** The request can be passed on at all. */
  predicate Forwardable(back: Backend, maxSlaveQuirk: bool, slave: byte, p: seq<byte>)
  {
    SlaveAllowed(back, maxSlaveQuirk, slave) && |p| <= MAX_PDU_LENGTH
  }

  /** `pre_check_confirmation` sees the header of the request only. */
  lemma PreCheckHeader(be: Backend, m: seq<byte>, prefix: seq<byte>, slave: byte, p: seq<byte>, buffer: seq<byte>,
                       f: seq<byte>, rsp: seq<byte>)
    requires |prefix| == (if be.Rtu? then 0 else 4) && |p| <= MAX_PDU_LENGTH
    requires Laid(be, m, prefix, slave, p) && m <= buffer && f <= rsp && |f| >= be.Header()
    ensures PreCheck(be, buffer, rsp) == PreCheck(be, Seal(be, prefix, slave, p), f)
  {
    var req := Seal(be, prefix, slave, p);
    if be.Tcp? {
      assert forall i :: 0 <= i < 4 ==> m[i] == m[..4][i] && req[i] == req[..4][i];
    }
  }

  lemma BodyInBuffer(be: Backend, f: seq<byte>, rsp: seq<byte>)
    requires f <= rsp && |f| >= be.Header() + be.Checksum()
    ensures rsp[be.Header()..|f| - be.Checksum()] == Body(be, f)
  {
  }

  /** The confirmation is checked against the header of the request that went out, which is built anew. */
  method Check(back: Modbus, slave: byte, p: seq<byte>, rsp: array<byte>, ghost f: seq<byte>) returns (errno: int)
    requires 1 <= |p| <= MAX_PDU_LENGTH && f <= rsp[..] && |f| >= back.be.Header()
    ensures errno == PreCheck(back.be, Forwarded(back.be, slave, p), f)
  {
    var checkReq := new byte[MAX_MESSAGE_LENGTH];
    var n := Wrap(back.be, slave, 0, p, checkReq);
    PreCheckHeader(back.be, checkReq[..n], Prefix(back.be, 0), slave, p, checkReq[..], f, rsp[..]);
    errno := PreCheck(back.be, checkReq[..], rsp[..]);
  }

  /** A response has arrived, and goes back if it is the right one. */
  method Relay(front: Modbus, req: seq<byte>, back: Modbus, slave: byte, p: seq<byte>, rsp: array<byte>, length: nat,
               ghost f: seq<byte>)
    returns (rc: int)
    requires front != back && |req| >= front.be.Header() + 1 && 1 <= |p| <= MAX_PDU_LENGTH
    requires f <= rsp[..] && back.be.Header() + back.be.Checksum() < |f| <= back.be.MaxAdu()
    requires length == |f| || length == 0
    modifies front`sends, front`lastSend, front`errno, back`errno
    ensures front.sends == old(front.sends) + [
      if length == 0 || PreCheck(back.be, Forwarded(back.be, slave, p), f) != 0
      then Refusal(front.be, req, EXCEPTION_GATEWAY_TARGET)
      else Relayed(front.be, req, back.be, f)]
    ensures if length == 0 || PreCheck(back.be, Forwarded(back.be, slave, p), f) != 0 then rc == -1
            else SendCode(rc, front.lastSend, |Relayed(front.be, req, back.be, f)|, front.errno, front.reliable)
  {
    var h := back.be.Header();
    var errno := Check(back, slave, p, rsp, f);
    if errno != 0 {
      back.errno := errno;
      var _ := ReplyException(front, req, EXCEPTION_GATEWAY_TARGET);
      return -1;
    }
    var pduLength := length - h - back.be.Checksum();
    if pduLength < 1 {
      var _ := ReplyException(front, req, EXCEPTION_GATEWAY_TARGET);
      return -1;
    }
    BodyInBuffer(back.be, f, rsp[..]);
    OwnTransaction(front.be, req);
    assert rsp[..][h..h + pduLength] == rsp[h..h + pduLength];
    rc := SendPdu(front, rsp[h - 1], ResponseTid(front.be, req), rsp[h..h + pduLength]);
  }

  /** The request has been passed on. If the gateway receives all that it waits for, its answer is that of the
      other link's stream; otherwise it tells how that link failed. */
  ghost predicate Relaying(front: Modbus, sends: seq<seq<byte>>, req: seq<byte>, back: Modbus, slave: byte,
                           p: seq<byte>, s: seq<byte>, rc: int)
    requires |req| >= front.be.Header() + 1 && |p| <= MAX_PDU_LENGTH
    reads front, back
  {
    && Left(s, back.incoming)
    && if Whole(back.be, Confirmation, s, back.incoming) then
         var answer := Answered(front.be, req, back.be, slave, p, s);
         && front.sends == sends + [answer]
         && if Relays(back.be, slave, p, s) then SendCode(rc, front.lastSend, |answer|, front.errno, front.reliable)
            else rc == -1
       else
         && (back.reliable ==> Frame(back.be, Confirmation, s).Incomplete?) && LinkError(back.errno) && rc == -1
         && front.sends == sends + [Refusal(front.be, req,
              if back.errno == ETIMEDOUT then EXCEPTION_GATEWAY_TARGET else EXCEPTION_GATEWAY_PATH)]
  }

  /** The other link has been sent the request: waits for its response. */
  method AwaitBackend(front: Modbus, req: seq<byte>, back: Modbus, slave: byte, p: seq<byte>) returns (rc: int)
    requires front != back && |req| >= front.be.Header() + 1 && 1 <= |p| <= MAX_PDU_LENGTH && back.slave == slave
    modifies front`sends, front`lastSend, front`errno, back`incoming, back`errno
    ensures Relaying(front, old(front.sends), req, back, slave, p, old(back.incoming), rc)
  {
    ghost var s := back.incoming;
    var rsp := new byte[MAX_MESSAGE_LENGTH];
    var length := ReceiveMsg(back, rsp, Confirmation);
    if length == -1 {
      if back.errno == ETIMEDOUT {
        var _ := ReplyException(front, req, EXCEPTION_GATEWAY_TARGET);
      } else {
        var _ := ReplyException(front, req, EXCEPTION_GATEWAY_PATH);
      }
      return -1;
    }
    rc := Relay(front, req, back, slave, p, rsp, length, s[..Frame(back.be, Confirmation, s).length]);
  }

  /** `modbus_proxy`. A request whose length is in order is answered exactly once, whatever happens on the
      other link; it is passed on, with its own unit, function and data, exactly if it can be. Unless the
      other link reports an error, or takes only a part, the gateway waits for the response. */
  method ModbusProxy(front: Modbus, back: Modbus, req: seq<byte>) returns (rc: int)
    requires front != back
    modifies front`sends, front`lastSend, front`errno
    modifies back`sends, back`lastSend, back`slave, back`incoming, back`errno
    ensures var n := |req| - front.be.Header() - front.be.Checksum();
      if |req| < 1 || n < 1 || n > MAX_PDU_LENGTH + 1 then
        && rc == -1 && front.errno == (if |req| < 1 then EINVAL else EMBBADDATA)
        && front.sends == old(front.sends) && back.sends == old(back.sends) && back.incoming == old(back.incoming)
      else
        var (slave, p, s) := (req[front.be.Header() - 1], Body(front.be, req), old(back.incoming));
        if !Forwardable(back.be, back.maxSlaveQuirk, slave, p) then
          && rc == -1 && back.sends == old(back.sends) && back.incoming == s
          && front.sends == old(front.sends) + [Refusal(front.be, req, 10)]
        else
          var out := Forwarded(back.be, slave, p);
          && back.slave == slave && back.sends == old(back.sends) + [out]
          && -1 <= back.lastSend <= |out| && (back.reliable ==> back.lastSend == |out|)
          && if back.lastSend == 0 || back.lastSend == |out| then
               && Relaying(front, old(front.sends), req, back, slave, p, s, rc)
               && (!Whole(back.be, Confirmation, s, back.incoming) ==>
                     front.sends == old(front.sends) + [Refusal(front.be, req, if back.errno == 110 then 11 else 10)])
             else
               && rc == -1 && back.incoming == s
               && front.sends == old(front.sends) + [Refusal(front.be, req, 10)]
  {
    var h := front.be.Header();
    if |req| < 1 {
      front.errno := EINVAL;
      return -1;
    }
    var pduLength := |req| - h - front.be.Checksum();
    if pduLength < 1 || pduLength > MAX_PDU_LENGTH + 1 {
      front.errno := EMBBADDATA;
      return -1;
    }
    rc := back.SetSlave(req[h - 1]);
    if rc == -1 {
      var _ := ReplyException(front, req, EXCEPTION_GATEWAY_PATH);
      return -1;
    }
    var backendReq := req[h - 1..h + pduLength];
    assert backendReq[1..] == Body(front.be, req);
    rc := SendRawRequest(back, backendReq, 0);
    if rc == -1 {
      var _ := ReplyException(front, req, EXCEPTION_GATEWAY_PATH);
      return -1;
    }
    rc := AwaitBackend(front, req, back, req[h - 1], backendReq[1..]);
  }
}
