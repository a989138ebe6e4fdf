/** Function codes, limits and error numbers, the two framings, and how a frame's length is found. */
module Protocol {
  import opened Bytes
  import opened Crc

  const FC_READ_COILS: byte := 0x01
  const FC_READ_DISCRETE_INPUTS: byte := 0x02
  const FC_READ_HOLDING_REGISTERS: byte := 0x03
  const FC_READ_INPUT_REGISTERS: byte := 0x04
  const FC_WRITE_SINGLE_COIL: byte := 0x05
  const FC_WRITE_SINGLE_REGISTER: byte := 0x06
  const FC_READ_EXCEPTION_STATUS: byte := 0x07
  const FC_WRITE_MULTIPLE_COILS: byte := 0x0F
  const FC_WRITE_MULTIPLE_REGISTERS: byte := 0x10
  const FC_REPORT_SLAVE_ID: byte := 0x11
  const FC_MASK_WRITE_REGISTER: byte := 0x16
  const FC_WRITE_AND_READ_REGISTERS: byte := 0x17

  const MAX_READ_BITS := 2000
  const MAX_WRITE_BITS := 1968
  const MAX_READ_REGISTERS := 125
  const MAX_WRITE_REGISTERS := 123
  const MAX_WR_WRITE_REGISTERS := 121
  const MAX_WR_READ_REGISTERS := 125
  const MAX_PDU_LENGTH := 253
  const MAX_MESSAGE_LENGTH := 260

  const BROADCAST_ADDRESS: byte := 0
  const TCP_SLAVE: byte := 0xFF

  const EXCEPTION_ILLEGAL_FUNCTION: byte := 1
  const EXCEPTION_ILLEGAL_DATA_ADDRESS: byte := 2
  const EXCEPTION_ILLEGAL_DATA_VALUE: byte := 3
  const EXCEPTION_GATEWAY_PATH: byte := 10
  const EXCEPTION_GATEWAY_TARGET: byte := 11
  const EXCEPTION_MAX: byte := 12

  const ENOBASE := 112345678
  const EMBXILVAL := ENOBASE + 3
  const EMBBADCRC := ENOBASE + 12
  const EMBBADDATA := ENOBASE + 13
  const EMBBADEXC := ENOBASE + 14
  const EMBBADSLAVE := ENOBASE + 17
  const EINVAL := 22
  const EIO := 5
  const ECONNRESET := 104
  const ETIMEDOUT := 110

  datatype MsgType = Indication | Confirmation

  datatype Backend = Rtu | Tcp {
    /** Bytes before the function code. */
    function Header(): nat { if Rtu? then 1 else 7 }

    function Checksum(): nat { if Rtu? then 2 else 0 }

    function MaxAdu(): nat { if Rtu? then 256 else 260 }
  }

  /** `compute_meta_length_after_function`: what follows the function code before any data. */
  function MetaLength(function_: byte, mt: MsgType): (n: nat)
    ensures n <= 9 && (mt.Confirmation? ==> 1 <= n <= 6)
  {
    match mt
    case Indication =>
      if function_ <= FC_WRITE_SINGLE_REGISTER then 4
      else if function_ == FC_WRITE_MULTIPLE_COILS || function_ == FC_WRITE_MULTIPLE_REGISTERS then 5
      else if function_ == FC_MASK_WRITE_REGISTER then 6
      else if function_ == FC_WRITE_AND_READ_REGISTERS then 9
      else 0
    case Confirmation =>
      if function_ == FC_WRITE_SINGLE_COIL || function_ == FC_WRITE_SINGLE_REGISTER
         || function_ == FC_WRITE_MULTIPLE_COILS || function_ == FC_WRITE_MULTIPLE_REGISTERS then 4
      else if function_ == FC_MASK_WRITE_REGISTER then 6
      else 1
  }

  /** `compute_data_length_after_meta` without the checksum; `s` starts at the function code. */
  function DataLength(s: seq<byte>, mt: MsgType): (n: nat)
    requires |s| >= 1 && |s| >= 1 + MetaLength(s[0], mt)
    ensures n <= 255
  {
    match mt
    case Indication =>
      if s[0] == FC_WRITE_MULTIPLE_COILS || s[0] == FC_WRITE_MULTIPLE_REGISTERS then s[5]
      else if s[0] == FC_WRITE_AND_READ_REGISTERS then s[9]
      else 0
    case Confirmation =>
      if s[0] <= FC_READ_INPUT_REGISTERS || s[0] == FC_REPORT_SLAVE_ID || s[0] == FC_WRITE_AND_READ_REGISTERS
      then s[1]
      else 0
  }

  /** The bytes `pdu` are, from the function code on, exactly one message. */
  predicate Complete(pdu: seq<byte>, mt: MsgType)
  {
    && |pdu| >= 1
    && |pdu| >= 1 + MetaLength(pdu[0], mt)
    && |pdu| == 1 + MetaLength(pdu[0], mt) + DataLength(pdu, mt)
  }

  // ---- Framing ---------------------------------------------------------------

  /** What the bytes of a stream amount to: too few to tell, too many announced, or a first frame. */
  datatype Framing = Incomplete | TooMany(read: nat) | Framed(length: nat)

  function Frame(be: Backend, mt: MsgType, s: seq<byte>): (r: Framing)
    ensures r.Framed? ==> be.Header() + 1 <= r.length <= |s| && r.length <= be.MaxAdu()
    ensures r.TooMany? ==> 0 < r.read <= |s|
  {
    var h := be.Header();
    if |s| < h + 1 then Incomplete else
    var meta := MetaLength(s[h], mt);
    if |s| < h + 1 + meta then Incomplete else
    var total := h + 1 + meta + DataLength(s[h..], mt) + be.Checksum();
    if total > be.MaxAdu() then TooMany(h + 1 + meta)
    else if |s| < total then Incomplete
    else Framed(total)
  }

  /** The bytes a receiver takes from the stream before it decides. */
  function Taken(f: Framing): nat
    requires !f.Incomplete?
  {
    if f.TooMany? then f.read else f.length
  }

  /** The decision depends on the bytes taken and on no later one. */
  lemma FrameIgnoresRest(be: Backend, mt: MsgType, s: seq<byte>, rest: seq<byte>)
    requires !Frame(be, mt, s).Incomplete?
    ensures Frame(be, mt, s[..Taken(Frame(be, mt, s))] + rest) == Frame(be, mt, s)
  {
    var h := be.Header();
    var t := s[..Taken(Frame(be, mt, s))] + rest;
    assert t[h] == s[h];
    forall i | 0 <= i < 1 + MetaLength(s[h], mt)
      ensures t[h..][i] == s[h..][i]
    {
      assert t[h + i] == s[h + i];
    }
  }

  /** Nothing is decided before the last of the bytes taken. */
  lemma FrameNeedsAll(be: Backend, mt: MsgType, s: seq<byte>, k: nat)
    requires !Frame(be, mt, s).Incomplete? && k < Taken(Frame(be, mt, s))
    ensures Frame(be, mt, s[..k]).Incomplete?
  {
    var h := be.Header();
    if k >= h + 1 {
      assert s[..k][h] == s[h];
      var meta := MetaLength(s[h], mt);
      if k >= h + 1 + meta {
        forall i | 0 <= i < 1 + meta
          ensures s[..k][h..][i] == s[h..][i]
        {
        }
      }
    }
  }

  // ---- Frames ------------------------------------------------------------------

  /** What `send_msg_pre` makes of a message: RTU appends the CRC, TCP fills in the MBAP length. */
  function Finish(be: Backend, m: seq<byte>): (f: seq<byte>)
    requires |m| >= be.Header() && |m| <= MAX_MESSAGE_LENGTH
    ensures |f| == |m| + be.Checksum()
    ensures be.Tcp? ==> 0x100 * f[4] as int + f[5] as int == |f| - 6
  {
    match be
    case Rtu => m + CrcBytes(m)
    case Tcp => m[..4] + [Hi(|m| - 6), Lo(|m| - 6)] + m[6..]
  }

  /** The bytes before the unit identifier: transaction and protocol identifier for TCP, none for RTU. */
  function Prefix(be: Backend, tid: word): seq<byte>
  {
    if be.Rtu? then [] else [Hi(tid), Lo(tid), 0, 0]
  }

  /** A frame: `prefix` holds the transaction and protocol identifiers in TCP and is empty in RTU. */
  function Seal(be: Backend, prefix: seq<byte>, slave: byte, pdu: seq<byte>): (f: seq<byte>)
    requires |prefix| == if be.Rtu? then 0 else 4
    requires |pdu| <= MAX_PDU_LENGTH
    ensures |f| == be.Header() + |pdu| + be.Checksum()
    ensures f[be.Header() - 1] == slave && f[be.Header()..be.Header() + |pdu|] == pdu
    ensures be.Tcp? ==> f[..4] == prefix
  {
    match be
    case Rtu => [slave] + pdu + CrcBytes([slave] + pdu)
    case Tcp => prefix + [Hi(|pdu| + 1), Lo(|pdu| + 1)] + [slave] + pdu
  }

  /** A message buffer holds this header and PDU; in TCP the length field is still open. */
  predicate Laid(be: Backend, m: seq<byte>, prefix: seq<byte>, slave: byte, pdu: seq<byte>)
    requires |prefix| == if be.Rtu? then 0 else 4
  {
    && |m| == be.Header() + |pdu|
    && m[be.Header() - 1] == slave
    && m[be.Header()..] == pdu
    && (be.Tcp? ==> m[..4] == prefix)
  }

  lemma FinishLaid(be: Backend, m: seq<byte>, prefix: seq<byte>, slave: byte, pdu: seq<byte>)
    requires |prefix| == if be.Rtu? then 0 else 4
    requires |pdu| <= MAX_PDU_LENGTH
    requires Laid(be, m, prefix, slave, pdu)
    ensures Finish(be, m) == Seal(be, prefix, slave, pdu)
  {
    if be.Rtu? {
      assert m == [slave] + pdu;
    } else {
      assert m[6..] == [slave] + pdu;
    }
  }

  /** `check_integrity`: -1 for a bad CRC, 0 for a frame of another slave, otherwise the length. */
  function Integrity(be: Backend, slave: int, f: seq<byte>): int
    requires |f| >= 1
  {
    match be
    case Tcp => |f|
    case Rtu =>
      if !CrcValid(f) then -1
      else if f[0] != slave && f[0] != BROADCAST_ADDRESS then 0
      else |f|
  }

  /** What `_modbus_receive_msg` returns once the bytes are there: -1 for too many announced bytes. */
  function ReceiveCode(be: Backend, slave: int, mt: MsgType, s: seq<byte>): int
    requires !Frame(be, mt, s).Incomplete?
  {
    var f := Frame(be, mt, s);
    if f.TooMany? then -1 else Integrity(be, slave, s[..f.length])
  }

  /** A sealed PDU is found again at the head of any stream. */
  lemma SealFramed(be: Backend, mt: MsgType, prefix: seq<byte>, slave: byte, pdu: seq<byte>, rest: seq<byte>)
    requires |prefix| == if be.Rtu? then 0 else 4
    requires Complete(pdu, mt) && |pdu| <= MAX_PDU_LENGTH
    ensures Frame(be, mt, Seal(be, prefix, slave, pdu) + rest) == Framed(|Seal(be, prefix, slave, pdu)|)
  {
    var h := be.Header();
    var s := Seal(be, prefix, slave, pdu) + rest;
    assert s[h] == pdu[0];
    forall i | 0 <= i < |pdu|
      ensures s[h..][i] == pdu[i]
    {
      assert s[h + i] == Seal(be, prefix, slave, pdu)[h..h + |pdu|][i];
    }
  }

  lemma SealIntact(be: Backend, prefix: seq<byte>, slave: byte, pdu: seq<byte>)
    requires |prefix| == if be.Rtu? then 0 else 4
    requires |pdu| <= MAX_PDU_LENGTH
    ensures Integrity(be, slave, Seal(be, prefix, slave, pdu)) == |Seal(be, prefix, slave, pdu)|
    ensures be.Rtu? ==> CrcValid(Seal(be, prefix, slave, pdu))
  {
    if be.Rtu? {
      AppendedCrcIsValid([slave] + pdu);
    }
  }
}
