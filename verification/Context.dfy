/** The library's context and the two ends of its link: sending, and receiving a message in pieces. */
module Context {
  import opened Bytes
  import opened CrcTables
  import opened Protocol

  /** `modbus_t`. The link is what is still to arrive and what has been handed over for sending. */
  class Modbus {
    const be: Backend
    /** `MODBUS_QUIRK_MAX_SLAVE` and `MODBUS_QUIRK_REPLY_TO_BROADCAST`. */
    const maxSlaveQuirk: bool
    const answerBroadcast: bool
    /** The link takes every message whole, and neither fails nor times out while bytes are pending. */
    const reliable: bool

    /** The unit addressed or answered for; -1 until it is set. */
    var slave: int
    /** The transaction counter of TCP. */
    var tid: word
    /** RTU: the next message on the line is another slave's response. */
    var confirmationToIgnore: bool
    var errno: int
    /** The bytes that have yet to arrive. */
    var incoming: seq<byte>
    /** The messages handed to `send`, whether it took them or not, and what it answered for the last one: how
        many bytes it took, or -1. */
    var sends: seq<seq<byte>>
    var lastSend: int

    constructor (be: Backend, maxSlaveQuirk: bool, answerBroadcast: bool, reliable: bool, incoming: seq<byte>)
      ensures this.be == be && this.maxSlaveQuirk == maxSlaveQuirk
      ensures this.answerBroadcast == answerBroadcast && this.reliable == reliable
      ensures slave == if be.Tcp? then TCP_SLAVE as int else -1
      ensures tid == 0 && !confirmationToIgnore && this.incoming == incoming && sends == []
    {
      this.be, this.maxSlaveQuirk, this.answerBroadcast, this.reliable :=
        be, maxSlaveQuirk, answerBroadcast, reliable;
      slave := if be.Tcp? then TCP_SLAVE as int else -1;
      tid, confirmationToIgnore, errno := 0, false, 0;
      this.incoming, sends, lastSend := incoming, [], 0;
    }

    /** `_modbus_set_slave` of either backend. */
    method SetSlave(slave: int) returns (rc: int)
      modifies this`slave, this`errno
      ensures rc == 0 <==> 0 <= slave <= 247 || (248 <= slave <= 255 && maxSlaveQuirk) || (be.Tcp? && slave == 255)
      ensures rc == if SlaveAllowed(be, maxSlaveQuirk, slave) then 0 else -1
      ensures rc == 0 ==> this.slave == slave && errno == old(errno)
      ensures rc == -1 ==> this.slave == old(this.slave) && errno == EINVAL
    {
      var maxSlave := if maxSlaveQuirk then 255 else 247;
      if 0 <= slave <= maxSlave {
        this.slave := slave;
      } else if be.Tcp? && slave == TCP_SLAVE {
        this.slave := slave;
      } else {
        errno := EINVAL;
        return -1;
      }
      rc := 0;
    }
  }

  /** The units that may be addressed: 0 to 247, to 255 with the quirk, and in TCP 255 in any case. */
  predicate SlaveAllowed(be: Backend, maxSlaveQuirk: bool, slave: int)
  {
    0 <= slave <= 247 || (248 <= slave <= 255 && maxSlaveQuirk) || (be.Tcp? && slave == 255)
  }

  predicate LinkError(errno: int)
  {
    errno == ETIMEDOUT || errno == ECONNRESET || errno == EIO
  }

  // ---- Receiving -------------------------------------------------------------------

  /** `select` and `recv`: an error, the end of the connection, or some of the pending bytes. */
  method Recv(ctx: Modbus, msg: array<byte>, at: nat, want: nat) returns (rc: int)
    requires 0 < want && at + want <= msg.Length
    modifies ctx`incoming, ctx`errno, msg
    ensures -1 <= rc <= want
    ensures rc >= 0 ==> rc <= |old(ctx.incoming)| && ctx.incoming == old(ctx.incoming)[rc..]
    ensures rc >= 0 ==> ctx.errno == old(ctx.errno)
    ensures rc >= 0 ==> msg[..] == old(msg[..at]) + old(ctx.incoming)[..rc] + old(msg[at + rc..])
    ensures rc == -1 ==> ctx.incoming == old(ctx.incoming) && msg[..] == old(msg[..]) && LinkError(ctx.errno)
    ensures ctx.reliable && old(ctx.incoming) != [] ==> rc > 0
  {
    var pending := ctx.incoming;
    var limit := if |pending| < want then |pending| else want;
    rc :| -1 <= rc <= limit && (ctx.reliable && pending != [] ==> rc > 0);
    if rc == -1 {
      assert LinkError(EIO);
      var e :| LinkError(e);
      ctx.errno := e;
    } else {
      for i := 0 to rc
        invariant ctx.errno == old(ctx.errno)
        invariant forall k :: 0 <= k < msg.Length ==>
          msg[k] == if at <= k < at + i then pending[k - at] else old(msg[k])
      {
        msg[at + i] := pending[i];
      }
      ctx.incoming := pending[rc..];
    }
  }

  datatype Step = StepFunction | StepMeta | StepData {
    function Left(): nat { if StepFunction? then 2 else if StepMeta? then 1 else 0 }
  }

  /** Where the receiving loop stands: what it has read, and up to where it will read in this step. */
  predicate Reading(be: Backend, mt: MsgType, step: Step, read: seq<byte>, target: nat)
  {
    var h := be.Header();
    && |read| <= target <= be.MaxAdu()
    && (step.StepFunction? || |read| >= h + 1)
    && match step
       case StepFunction => target == h + 1
       case StepMeta => target == h + 1 + MetaLength(read[h], mt)
       case StepData =>
         && |read| >= h + 1 + MetaLength(read[h], mt)
         && target == h + 1 + MetaLength(read[h], mt) + DataLength(read[h..], mt) + be.Checksum()
  }

  /** Reading on within a step does not change what the step is about. */
  lemma ReadOn(be: Backend, mt: MsgType, step: Step, read: seq<byte>, target: nat, more: seq<byte>)
    requires Reading(be, mt, step, read, target) && |read| + |more| <= target
    ensures Reading(be, mt, step, read + more, target)
  {
    var h := be.Header();
    if |read| >= h + 1 {
      assert (read + more)[h] == read[h];
      assert (read + more)[h..] == read[h..] + more;
    }
  }

  /** Short of the target nothing is decided; at the end of the last step a frame is. */
  lemma ReadingFrame(be: Backend, mt: MsgType, step: Step, read: seq<byte>, target: nat)
    requires Reading(be, mt, step, read, target)
    ensures |read| < target ==> Frame(be, mt, read).Incomplete?
    ensures |read| == target && step.StepData? ==> Frame(be, mt, read) == Framed(|read|)
  {
  }

  /** What `_modbus_receive_msg` has done when the link held: the bytes taken, the code and the error are
      those of the stream alone. */
  predicate Decided(be: Backend, slave: int, mt: MsgType, s: seq<byte>, taken: int, rc: int, errno: int)
  {
    var f := Frame(be, mt, s);
    && !f.Incomplete?
    && taken == Taken(f)
    && rc == ReceiveCode(be, slave, mt, s)
    && (rc == -1 ==> errno == if f.TooMany? then EMBBADDATA else EMBBADCRC)
  }

  /** `left` is what is left of the stream `s`. */
  predicate Left(s: seq<byte>, left: seq<byte>)
  {
    |left| <= |s| && left == s[|s| - |left|..]
  }

  /** The receiver has taken all the bytes that it takes to decide. */
  predicate Whole(be: Backend, mt: MsgType, s: seq<byte>, left: seq<byte>)
  {
    |left| <= |s| && !Frame(be, mt, s).Incomplete? && |s| - |left| == Taken(Frame(be, mt, s))
  }

  /** When the bytes taken do not decide, they are not all that it takes. */
  lemma PartUndecided(be: Backend, mt: MsgType, s: seq<byte>, left: seq<byte>)
    requires |left| <= |s|
    ensures Frame(be, mt, s[..|s| - |left|]).Incomplete? ==> !Whole(be, mt, s, left)
  {
    if Whole(be, mt, s, left) {
      FrameIgnoresRest(be, mt, s, []);
      assert s[..|s| - |left|] + [] == s[..|s| - |left|];
    }
  }

  method CheckIntegrity(ctx: Modbus, msg: array<byte>, length: nat) returns (rc: int)
    requires length <= msg.Length && length >= (if ctx.be.Rtu? then 2 else 1)
    modifies ctx`errno
    ensures rc == Integrity(ctx.be, ctx.slave, msg[..length])
    ensures ctx.errno == if rc == -1 then EMBBADCRC else old(ctx.errno)
  {
    if ctx.be.Tcp? {
      return length;
    }
    var ok := CheckCrc(msg, length);
    if !ok {
      ctx.errno := EMBBADCRC;
      return -1;
    }
    if msg[0] != ctx.slave && msg[0] != BROADCAST_ADDRESS {
      return 0;
    }
    rc := length;
  }

  /** The step after the bytes of `step` have all been read: how many more to read, or too many. A message
      whose function needs no meta bytes goes straight on to its data. */
  method NextStep(be: Backend, mt: MsgType, step: Step, msg: array<byte>, msgLength: nat)
    returns (next: Step, lengthToRead: nat, tooMany: bool)
    requires msgLength <= msg.Length && Reading(be, mt, step, msg[..msgLength], msgLength)
    ensures !tooMany ==> Reading(be, mt, next, msg[..msgLength], msgLength + lengthToRead)
    ensures !tooMany ==> if step.StepData? then next == step && lengthToRead == 0 else next.Left() < step.Left()
    ensures !tooMany && lengthToRead == 0 ==> next.StepData?
    ensures tooMany ==> Frame(be, mt, msg[..msgLength]) == TooMany(msgLength)
  {
    next, lengthToRead, tooMany := step, 0, false;
    if step.StepFunction? {
      lengthToRead := MetaLength(msg[be.Header()], mt);
      if lengthToRead != 0 {
        next := StepMeta;
      }
    }
    if lengthToRead == 0 && !step.StepData? {
      lengthToRead := DataLength(msg[be.Header()..msgLength], mt) + be.Checksum();
      assert msg[be.Header()..msgLength] == msg[..msgLength][be.Header()..];
      if msgLength + lengthToRead > be.MaxAdu() {
        tooMany := true;
      } else {
        next := StepData;
      }
    }
  }

  /** The bytes gone from the stream are at the head of the buffer, which is untouched beyond them and
      beyond the longest frame. */
  predicate Taking(be: Backend, s: seq<byte>, s': seq<byte>, msg: seq<byte>, msg': seq<byte>)
  {
    && |s'| <= |s|
    && var taken := |s| - |s'|;
    && taken <= be.MaxAdu() && taken <= |msg|
    && s' == s[taken..]
    && msg' == s[..taken] + msg[taken..]
  }

  /** The receiving loop with `at` bytes of the stream `s` in the buffer, `m` at first, and `want` to read. */
  ghost predicate Progress(ctx: Modbus, msg: array<byte>, s: seq<byte>, m: seq<byte>, mt: MsgType, step: Step,
                           at: nat, want: nat)
    reads ctx, msg
  {
    && Taking(ctx.be, s, ctx.incoming, m, msg[..])
    && at + |ctx.incoming| == |s|
    && at + want <= ctx.be.MaxAdu() && at <= msg.Length
    && Reading(ctx.be, mt, step, msg[..at], at + want)
    && (want == 0 ==> step.StepData?)
  }

  /** The loop has given up: the message is too long, or the link failed before anything was decided. */
  ghost predicate GivenUp(ctx: Modbus, msg: array<byte>, s: seq<byte>, m: seq<byte>, mt: MsgType)
    reads ctx, msg
  {
    && Taking(ctx.be, s, ctx.incoming, m, msg[..])
    && var taken := |s| - |ctx.incoming|;
    && taken <= msg.Length
    && ((ctx.errno == EMBBADDATA && Frame(ctx.be, mt, msg[..taken]) == TooMany(taken))
        || (LinkError(ctx.errno) && Frame(ctx.be, mt, msg[..taken]).Incomplete?
            && (ctx.reliable ==> ctx.incoming == [])))
  }

  /** A reception; the end of the connection is an error like any other. */
  method RecvPiece(ctx: Modbus, msg: array<byte>, ghost s: seq<byte>, ghost m: seq<byte>, ghost mt: MsgType,
                   ghost step: Step, at: nat, want: nat)
    returns (rc: int)
    requires msg.Length >= MAX_MESSAGE_LENGTH
    requires 0 < want && Progress(ctx, msg, s, m, mt, step, at, want)
    modifies ctx`incoming, ctx`errno, msg
    ensures rc == -1 || 0 < rc <= want
    ensures rc == -1 ==> GivenUp(ctx, msg, s, m, mt)
    ensures rc != -1 ==> ctx.errno == old(ctx.errno) && Taking(ctx.be, s, ctx.incoming, m, msg[..])
    ensures rc != -1 ==> at + rc + |ctx.incoming| == |s| && Reading(ctx.be, mt, step, msg[..at + rc], at + want)
  {
    ghost var before, left := msg[..], ctx.incoming;
    ReadingFrame(ctx.be, mt, step, before[..at], at + want);
    rc := Recv(ctx, msg, at, want);
    if rc == 0 {
      ctx.errno := ECONNRESET;
      rc := -1;
    }
    if rc == -1 {
      assert msg[..] == before;
    } else {
      TakeMore(ctx.be, s, left, ctx.incoming, m, before, msg[..], rc);
      ReadOn(ctx.be, mt, step, before[..at], at + want, left[..rc]);
      assert msg[..at + rc] == before[..at] + left[..rc];
    }
  }

  /** The bytes of the step are all there: the loop goes on to the next one, or gives up. */
  method GoOn(ctx: Modbus, msg: array<byte>, ghost s: seq<byte>, ghost m: seq<byte>, mt: MsgType, step: Step, at: nat)
    returns (ok: bool, next: Step, want: nat)
    requires at <= msg.Length && Taking(ctx.be, s, ctx.incoming, m, msg[..])
    requires at + |ctx.incoming| == |s| && Reading(ctx.be, mt, step, msg[..at], at)
    modifies ctx`errno
    ensures !ok ==> GivenUp(ctx, msg, s, m, mt)
    ensures ok ==> ctx.errno == old(ctx.errno) && Progress(ctx, msg, s, m, mt, next, at, want)
    ensures ok ==> next.Left() < step.Left() || (next == step && want == 0)
  {
    var tooMany;
    next, want, tooMany := NextStep(ctx.be, mt, step, msg, at);
    ok := !tooMany;
    if tooMany {
      ctx.errno := EMBBADDATA;
    }
  }

  /** One turn of the receiving loop. */
  method Turn(ctx: Modbus, msg: array<byte>, ghost s: seq<byte>, ghost m: seq<byte>, mt: MsgType,
              step: Step, at: nat, want: nat)
    returns (ok: bool, step': Step, at': nat, want': nat)
    requires msg.Length >= MAX_MESSAGE_LENGTH
    requires 0 < want && Progress(ctx, msg, s, m, mt, step, at, want)
    modifies ctx`incoming, ctx`errno, msg
    ensures !ok ==> GivenUp(ctx, msg, s, m, mt)
    ensures ok ==> ctx.errno == old(ctx.errno) && Progress(ctx, msg, s, m, mt, step', at', want')
    ensures ok ==> step'.Left() < step.Left() || (step' == step && want' < want)
  {
    ok, step', at', want' := true, step, at, want;
    var n := RecvPiece(ctx, msg, s, m, mt, step, at, want);
    if n == -1 {
      ok := false;
      return;
    }
    at', want' := at + n, want - n;
    if want' == 0 {
      ok, step', want' := GoOn(ctx, msg, s, m, mt, step, at');
    }
  }

  /** The loop of `_modbus_receive_msg`: the length of a frame that is now in the buffer, or -1. */
  method ReadFrame(ctx: Modbus, msg: array<byte>, mt: MsgType) returns (rc: int)
    requires msg.Length >= MAX_MESSAGE_LENGTH
    modifies ctx`incoming, ctx`errno, msg
    ensures Taking(ctx.be, old(ctx.incoming), ctx.incoming, old(msg[..]), msg[..])
    ensures rc == -1 ==> GivenUp(ctx, msg, old(ctx.incoming), old(msg[..]), mt)
    ensures rc != -1 ==> rc == |old(ctx.incoming)| - |ctx.incoming| && ctx.errno == old(ctx.errno)
    ensures rc != -1 ==> Frame(ctx.be, mt, msg[..rc]) == Framed(rc)
  {
    ghost var s, m := ctx.incoming, msg[..];
    var step := StepFunction;
    var lengthToRead: nat := ctx.be.Header() + 1;
    var msgLength: nat := 0;
    while lengthToRead != 0
      invariant ctx.errno == old(ctx.errno) && Progress(ctx, msg, s, m, mt, step, msgLength, lengthToRead)
      decreases step.Left(), lengthToRead
    {
      var ok;
      ok, step, msgLength, lengthToRead := Turn(ctx, msg, s, m, mt, step, msgLength, lengthToRead);
      if !ok {
        return -1;
      }
    }
    ReadingFrame(ctx.be, mt, step, msg[..msgLength], msgLength);
    rc := msgLength;
  }

  /** `_modbus_receive_msg`. Whatever the pieces in which the bytes arrive, the outcome is that of the
      stream; the buffer holds the bytes taken and is untouched beyond them. */
  method ReceiveMsg(ctx: Modbus, msg: array<byte>, mt: MsgType) returns (rc: int)
    requires msg.Length >= MAX_MESSAGE_LENGTH
    modifies ctx`incoming, ctx`errno, msg
    ensures Taking(ctx.be, old(ctx.incoming), ctx.incoming, old(msg[..]), msg[..])
    ensures var (s, taken) := (old(ctx.incoming), |old(ctx.incoming)| - |ctx.incoming|);
      if Whole(ctx.be, mt, s, ctx.incoming) then
        Decided(ctx.be, ctx.slave, mt, s, taken, rc, ctx.errno) && (rc != -1 ==> ctx.errno == old(ctx.errno))
      else
        && rc == -1 && LinkError(ctx.errno) && Frame(ctx.be, mt, s[..taken]).Incomplete?
        && (ctx.reliable ==> Frame(ctx.be, mt, s).Incomplete?)
  {
    ghost var s, m := ctx.incoming, msg[..];
    var msgLength := ReadFrame(ctx, msg, mt);
    TakenPrefix(ctx.be, s, ctx.incoming, m, msg[..], mt);
    ghost var taken := |s| - |ctx.incoming|;
    assert msg[..][..taken] == msg[..taken];
    if msgLength == -1 {
      PartUndecided(ctx.be, mt, s, ctx.incoming);
      return -1;
    }
    rc := CheckIntegrity(ctx, msg, msgLength);
  }

  lemma TakeMore(be: Backend, s: seq<byte>, s1: seq<byte>, s2: seq<byte>,
                 m: seq<byte>, m1: seq<byte>, m2: seq<byte>, n: nat)
    requires Taking(be, s, s1, m, m1) && n <= |s1|
    requires var at := |s| - |s1|;
      at + n <= be.MaxAdu() && at + n <= |m| && s2 == s1[n..] && m2 == m1[..at] + s1[..n] + m1[at + n..]
    ensures Taking(be, s, s2, m, m2)
  {
    var at := |s| - |s1|;
    assert s[at..][n..] == s[at + n..];
    assert s[..at] + s[at..][..n] == s[..at + n];
    assert m1[at + n..] == m[at + n..];
    assert m1[..at] == s[..at];
  }

  lemma StillTaken(s: seq<byte>, s': seq<byte>, m: seq<byte>, m': seq<byte>, be: Backend)
    requires Taking(be, s, s', m, m')
    ensures var taken := |s| - |s'|; s[..taken] <= m' && s' == s[taken..]
  {
  }

  /** What was read is the head of the stream, and decides like it. */
  lemma TakenPrefix(be: Backend, s: seq<byte>, s': seq<byte>, m: seq<byte>, m': seq<byte>, mt: MsgType)
    requires Taking(be, s, s', m, m')
    ensures var taken := |s| - |s'|;
      && m'[..taken] == s[..taken]
      && (s' == [] ==> s[..taken] == s)
      && var f := Frame(be, mt, s[..taken]);
         !f.Incomplete? && Taken(f) == taken ==> Frame(be, mt, s) == f
  {
    var taken := |s| - |s'|;
    if !Frame(be, mt, s[..taken]).Incomplete? && Taken(Frame(be, mt, s[..taken])) == taken {
      FrameOfPrefix(be, mt, s, taken);
    }
  }

  lemma FrameOfPrefix(be: Backend, mt: MsgType, s: seq<byte>, k: nat)
    requires k <= |s| && !Frame(be, mt, s[..k]).Incomplete? && Taken(Frame(be, mt, s[..k])) == k
    ensures Frame(be, mt, s) == Frame(be, mt, s[..k])
  {
    FrameIgnoresRest(be, mt, s[..k], s[k..]);
    assert s[..k][..k] + s[k..] == s;
  }

  // ---- Sending ---------------------------------------------------------------------

  /** The code and the error of handing over `total` bytes, of which the link took `taken`, or -1 for an error: it
      is an error, too, when it took only a part. */
  predicate SendCode(rc: int, taken: int, total: nat, errno: int, reliable: bool)
  {
    && -1 <= taken <= total
    && (reliable ==> taken == total)
    && rc == (if 0 < taken < total then -1 else taken)
    && (taken == -1 ==> LinkError(errno))
    && (0 < taken < total ==> errno == EMBBADDATA)
  }

  /** `send_msg` without error recovery: completes the message, and hands it over once. */
  method SendMsg(ctx: Modbus, msg: array<byte>, length: nat) returns (rc: int)
    requires ctx.be.Header() <= length <= MAX_MESSAGE_LENGTH && length + ctx.be.Checksum() <= msg.Length
    modifies ctx`sends, ctx`lastSend, ctx`errno, msg
    ensures ctx.sends == old(ctx.sends) + [Finish(ctx.be, old(msg[..length]))]
    ensures msg[..] == Finish(ctx.be, old(msg[..length])) + old(msg[length + ctx.be.Checksum()..])
    ensures ctx.be.Tcp? ==> 0x100 * msg[4] as int + msg[5] as int == length - 6
    ensures SendCode(rc, ctx.lastSend, length + ctx.be.Checksum(), ctx.errno, ctx.reliable)
    ensures rc != -1 ==> ctx.errno == old(ctx.errno)
    ensures 0 < ctx.lastSend < length + ctx.be.Checksum() ==> rc == -1 && ctx.errno == 112345691
  {
    var total := SendMsgPre(ctx.be, msg, length);
    ctx.sends := ctx.sends + [msg[..total]];
    rc :| -1 <= rc <= total && (ctx.reliable ==> rc == total);
    ctx.lastSend := rc;
    if rc == -1 {
      assert LinkError(EIO);
      var e :| LinkError(e);
      ctx.errno := e;
    }
    if rc > 0 && rc != total {
      ctx.errno := EMBBADDATA;
      return -1;
    }
  }

  /** `send_msg_pre` of either backend. */
  method SendMsgPre(be: Backend, msg: array<byte>, length: nat) returns (total: nat)
    requires be.Header() <= length <= MAX_MESSAGE_LENGTH && length + be.Checksum() <= msg.Length
    modifies msg
    ensures total == length + be.Checksum()
    ensures msg[..total] == Finish(be, old(msg[..length]))
    ensures be.Tcp? ==> 0x100 * msg[4] as int + msg[5] as int == length - 6
    ensures msg[total..] == old(msg[total..])
    ensures msg[..] == msg[..total] + msg[total..]
  {
    ghost var before := msg[..length];
    if be.Rtu? {
      total := AppendCrc(msg, length);
    } else {
      msg[4], msg[5] := Hi(length - 6), Lo(length - 6);
      total := length;
      assert msg[..total] == before[..4] + [Hi(length - 6), Lo(length - 6)] + before[6..];
    }
  }
}
