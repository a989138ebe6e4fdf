/** What an accepted answer is known to be: the soundness of `check_confirmation` together with framing. */
module Acceptance {
  import opened Bytes
  import opened Bits
  import opened Protocol
  import opened Memory
  import opened Client
  import opened EndToEnd

  lemma FramedComplete(be: Backend, f: seq<byte>)
    requires Frame(be, Confirmation, f) == Framed(|f|)
    ensures Complete(f[be.Header()..|f| - be.Checksum()], Confirmation)
  {
    var h := be.Header();
    var r := f[h..|f| - be.Checksum()];
    assert r[0] == f[h];
    assert MetaLength(r[0], Confirmation) >= 1;
    assert r[1] == f[h..][1];
  }

  /** `check_confirmation` looks at no byte of the buffers beyond the request sent and the frame received. */
  lemma CheckLocal(be: Backend, req: seq<byte>, p: seq<byte>, reqBuffer: seq<byte>,
                   f: seq<byte>, rspBuffer: seq<byte>, rc: int)
    requires be.Header() + |p| <= |req| && req[be.Header()..be.Header() + |p|] == p && Complete(p, Indication)
    requires req <= reqBuffer && f <= rspBuffer
    requires Frame(be, Confirmation, f) == Framed(|f|) && (rc == |f| || rc == 0)
    ensures CheckConfirmation(be, reqBuffer, rspBuffer, rc) == CheckConfirmation(be, req, f, rc)
  {
    var h := be.Header();
    var r := f[h..|f| - be.Checksum()];
    FramedComplete(be, f);
    var length := rc - h - be.Checksum();
    Suffix(req, req, h, p);
    Suffix(req, reqBuffer, h, p);
    Suffix(f, f, h, r);
    Suffix(f, rspBuffer, h, r);
    JudgeLocal(p, req[h + |p|..], r, f[h + |r|..], length);
    JudgeLocal(p, reqBuffer[h + |p|..], r, rspBuffer[h + |r|..], length);
    PreCheckLocal(be, req, reqBuffer, f, rspBuffer);
  }

  lemma PreCheckLocal(be: Backend, req: seq<byte>, reqBuffer: seq<byte>, f: seq<byte>, rspBuffer: seq<byte>)
    requires |req| >= be.Header() && |f| >= be.Header() && req <= reqBuffer && f <= rspBuffer
    ensures PreCheck(be, reqBuffer, rspBuffer) == PreCheck(be, req, f)
  {
  }

  lemma Suffix(s: seq<byte>, t: seq<byte>, h: nat, p: seq<byte>)
    requires s <= t && h + |p| <= |s| && s[h..h + |p|] == p
    ensures t[h..] == p + t[h + |p|..]
  {
    assert t[h..h + |p|] == s[h..h + |p|];
  }

  /** What lies behind an accepted outcome. */
  lemma AwaitDone(be: Backend, slave: int, req: seq<byte>, s: seq<byte>)
    requires |req| >= be.Header() && Await(be, slave, req, s).Done?
    ensures var (h, o) := (be.Header(), Await(be, slave, req, s));
      && Frame(be, Confirmation, s).Framed?
      && var f := s[..Frame(be, Confirmation, s).length];
      && o.pdu == f[h..]
      && var length := Integrity(be, slave, f) - h - be.Checksum();
      && (length == |o.pdu| - be.Checksum() || length < 0)
      && Judge(req[h..], o.pdu, length) == Accept(o.nb)
  {
  }

  /** The data bytes of a normal answer to a read. */
  function ReadSize(q: Request): nat
    requires q.ReadBits? || q.ReadRegisters? || q.WriteRead?
  {
    if q.ReadBits? then PackedLength(q.nb) else 2 * q.nb
  }

  /** An accepted answer to a read has exactly the bytes that the decoder takes: the count that
      `check_confirmation` returns, the byte count in the answer, and the length received. */
  lemma DoneRead(be: Backend, tid: word, unit: byte, q: Request, slave: int, s: seq<byte>)
    requires ClientBuilt(q) && (q.ReadBits? || q.ReadRegisters? || q.WriteRead?)
    requires Await(be, slave, ClientFrame(be, tid, unit, q), s).Done?
    ensures var o := Await(be, slave, ClientFrame(be, tid, unit, q), s);
      && o.nb == (if q.ReadBits? then PackedLength(q.nb) else q.nb)
      && |o.pdu| == 2 + ReadSize(q) + be.Checksum() && o.pdu[1] == ReadSize(q)
      && Frame(be, Confirmation, s).Framed?
      && o.pdu == s[..Frame(be, Confirmation, s).length][be.Header()..]
  {
    EncodedComplete(q);
    EncodedCarries(q);
    var req := ClientFrame(be, tid, unit, q);
    Suffix(req, req, be.Header(), EncodePdu(q));
    AwaitedRead(be, req, req[be.Header() + |EncodePdu(q)|..], EncodePdu(q), q, slave, s);
  }

  lemma AwaitedRead(be: Backend, req: seq<byte>, x: seq<byte>, p: seq<byte>, q: Request, slave: int, s: seq<byte>)
    requires |req| >= be.Header() && req[be.Header()..] == p + x
    requires ClientBuilt(q) && Carries(p, q) && (q.ReadBits? || q.ReadRegisters? || q.WriteRead?)
    requires Await(be, slave, req, s).Done?
    ensures var o := Await(be, slave, req, s);
      && o.nb == (if q.ReadBits? then PackedLength(q.nb) else q.nb)
      && |o.pdu| == 2 + ReadSize(q) + be.Checksum() && o.pdu[1] == ReadSize(q)
      && Frame(be, Confirmation, s).Framed?
      && o.pdu == s[..Frame(be, Confirmation, s).length][be.Header()..]
  {
    AwaitDone(be, slave, req, s);
    var f := s[..Frame(be, Confirmation, s).length];
    AcceptedLength(p, x, q, f[be.Header()..], Integrity(be, slave, f) - be.Header() - be.Checksum());
    FrameCount(be, s);
  }

  /** An accepted answer to a slave id request announces the bytes that it has. */
  lemma DoneSlaveId(be: Backend, tid: word, unit: byte, slave: int, s: seq<byte>)
    requires Await(be, slave, ClientFrame(be, tid, unit, ReportSlaveId), s).Done?
    ensures var o := Await(be, slave, ClientFrame(be, tid, unit, ReportSlaveId), s);
      && Frame(be, Confirmation, s).Framed?
      && o.pdu == s[..Frame(be, Confirmation, s).length][be.Header()..]
      && |o.pdu| == 2 + o.nb + be.Checksum() && o.pdu[1] == o.nb
  {
    var req, h := ClientFrame(be, tid, unit, ReportSlaveId), be.Header();
    AwaitDone(be, slave, req, s);
    assert req[h..][0] == EncodePdu(ReportSlaveId)[0];
    var f := s[..Frame(be, Confirmation, s).length];
    assert f[h..][0] == s[h] && f[h..][1] == s[h..][1];
  }

  /** The frame of an answer that is counted has the bytes that it announces. */
  lemma FrameCount(be: Backend, s: seq<byte>)
    requires Frame(be, Confirmation, s).Framed?
    ensures var n := Frame(be, Confirmation, s).length;
      var r := s[..n][be.Header()..];
      && |r| >= 2
      && (r[0] <= FC_READ_INPUT_REGISTERS || r[0] == FC_WRITE_AND_READ_REGISTERS ==> |r| == 2 + r[1] + be.Checksum())
  {
    assert s[be.Header()..][1] == s[be.Header() + 1];
  }

  lemma AcceptedLength(p: seq<byte>, x: seq<byte>, q: Request, r: seq<byte>, length: int)
    requires Carries(p, q) && (q.ReadBits? || q.ReadRegisters? || q.WriteRead?)
    requires Judge(p + x, r, length).Accept?
    ensures length == 2 + ReadSize(q)
    ensures Judge(p + x, r, length).nb == (if q.ReadBits? then PackedLength(q.nb) else q.nb)
    ensures Peek(r, 0) == q.Code()
  {
    assert forall i :: 0 <= i < |p| ==> Peek(p + x, i) == p[i];
  }

  /** An accepted read confirms at least one value. */
  lemma SomethingDone(be: Backend, tid: word, unit: byte, q: Request, slave: int, s: seq<byte>)
    requires ClientBuilt(q) && q.ReadBits?
    ensures var o := Await(be, slave, ClientFrame(be, tid, unit, q), s); o.Done? ==> o.nb > 0
  {
    if Await(be, slave, ClientFrame(be, tid, unit, q), s).Done? {
      DoneRead(be, tid, unit, q, slave, s);
    }
  }

  // ---- The byte count of registers ---------------------------------------------------------

  /** The check halves the byte count of registers, so by itself it accepts an odd count as well as the
      right one. */
  lemma AcceptedIff(p: seq<byte>, q: Request, r: seq<byte>)
    requires Carries(p, q) && (q.ReadRegisters? || q.WriteRead?)
    ensures Judge(p, r, |r|).Accept?
       <==> |r| == 2 + 2 * q.nb && r[0] == q.Code() && (Peek(r, 1) == 2 * q.nb || Peek(r, 1) == 2 * q.nb + 1)
  {
  }

  /** Of the answers it accepts, exactly those that are one message, as one that has been received is, have
      the right count. */
  lemma ByteCountIff(p: seq<byte>, q: Request, r: seq<byte>)
    requires Carries(p, q) && (q.ReadRegisters? || q.WriteRead?)
    requires Judge(p, r, |r|).Accept?
    ensures |r| >= 2 && (r[1] == 2 * q.nb <==> Complete(r, Confirmation))
  {
    AcceptedIff(p, q, r);
  }

  /** There is such an answer to every request: the right code, one too many announced, any data. */
  lemma OddCountPasses(q: Request, data: seq<byte>)
    requires ClientBuilt(q) && (q.ReadRegisters? || q.WriteRead?) && |data| == 2 * q.nb
    ensures var r := [q.Code(), 2 * q.nb + 1] + data;
      Judge(EncodePdu(q), r, |r|).Accept? && !Complete(r, Confirmation)
  {
    EncodedCarries(q);
    AcceptedIff(EncodePdu(q), q, [q.Code(), 2 * q.nb + 1] + data);
    ByteCountIff(EncodePdu(q), q, [q.Code(), 2 * q.nb + 1] + data);
  }
}
