/** The client's half of a call: what the code of a client makes of an answer that is on its way, wherever it
    comes from. */
module ClientHalf {
  import opened Bytes
  import opened Bits
  import opened Protocol
  import opened Memory
  import opened Server
  import opened Client
  import opened EndToEnd
  import opened Context
  import opened Data
  import opened Calls

  /** What a call returns for the response `r` to `q`. */
  function Returned(q: Request, r: Response, version: seq<byte>): int
  {
    match r
    case Exception(_) => -1
    case Cells(bits) => PackedLength(|bits|)
    case Registers(words) => |words|
    case Echo => 1
    case EchoRange => if HasCount(q) then q.nb else 0
    case SlaveId => 5 + |version|
  }

  /** The caller has been told of the response `r` to `q`. */
  predicate Told(o: Outcome, q: Request, r: Response, version: seq<byte>)
  {
    && !o.Waiting?
    && (r.Exception? <==> o.Failed?)
    && (r.Exception? ==> o == Failed(ENOBASE + r.code))
    && (!r.Exception? ==> o.nb == Returned(q, r, version) > 0)
    && (r.Cells? || r.Registers? ==> HasCount(q))
    && (r.Cells? ==> |r.bits| == q.nb && (AllBits(r.bits) ==> AnsweredBits(o.pdu, q.nb) == r.bits))
    && (r.Registers? ==> |r.words| == q.nb && AnsweredWords(o.pdu, q.nb) == r.words)
    && (r.SlaveId? ==> Identifies(o.pdu, version))
  }

  lemma ReportTells(o: Outcome, q: Request, m: Memory, version: seq<byte>)
    requires ClientBuilt(q) && Answers(Execute(q, m).0, q)
    requires Reported(o, q, Execute(q, m).0, version)
    ensures Told(o, q, Execute(q, m).0, version)
  {
    AnswerSizes(q, m);
  }

  /** What will come of the client's next call. */
  ghost function Ahead(client: Modbus, q: Request): Outcome
    requires ClientBuilt(q) && 0 <= client.slave <= 255
    reads client
  {
    var req := ClientFrame(client.be, Advanced(client.be, client.tid), client.slave, q);
    Await(client.be, client.slave, req, client.incoming)
  }

  /** The call has done what executing `q` on the memory does: the memory, the result and the error. */
  predicate AsLocal(q: Request, before: Memory, after: Memory, version: seq<byte>, rc: int, errno: int)
  {
    var (r, left) := Execute(q, before);
    && after == left
    && rc == Returned(q, r, version)
    && (r.Exception? ==> errno == ENOBASE + r.code)
  }

  lemma ReturnsTold(be: Backend, o: Outcome, s: seq<byte>, left: seq<byte>, taken: int, q: Request, m: Memory,
                    version: seq<byte>, rc: int, errno: int)
    requires Told(o, q, Execute(q, m).0, version)
    requires Judged(be, o, s, left, taken, rc, errno, true)
    ensures AsLocal(q, m, Execute(q, m).1, version, rc, errno)
  {
  }

  /** The same for registers, with their values. */
  lemma WordsTold(be: Backend, o: Outcome, s: seq<byte>, left: seq<byte>, taken: int, q: Request, m: Memory,
                  version: seq<byte>, rc: int, errno: int)
    requires Told(o, q, Execute(q, m).0, version)
    requires Judged(be, o, s, left, taken, rc, errno, true)
    requires q.ReadRegisters? || q.WriteRead?
    ensures AsLocal(q, m, Execute(q, m).1, version, rc, errno)
    ensures var r := Execute(q, m).0;
      if rc > 0 then r.Registers? && AnsweredWords(o.pdu, q.nb) == r.words else r.Exception?
  {
  }

  /** The values of a served read, which are those of the memory. */
  lemma ReadTold(o: Outcome, q: Request, m: Memory, version: seq<byte>)
    requires Told(o, q, Execute(q, m).0, version)
    requires q.ReadBits? || q.ReadRegisters? || q.WriteRead?
    requires q.ReadBits? ==> AllBits(BitTable(m, q.input).cells)
    ensures var r := Execute(q, m).0;
      && o == (if r.Exception? then Failed(ENOBASE + r.code) else Done(Returned(q, r, version), o.pdu))
      && (!r.Exception? ==> if q.ReadBits? then r.Cells? && AnsweredBits(o.pdu, q.nb) == r.bits
                            else r.Registers? && AnsweredWords(o.pdu, q.nb) == r.words)
  {
  }

  /** The answer to `q`, executed on the memory `m`, is the next that the client receives. */
  ghost predicate Expecting(client: Modbus, q: Request, m: Memory, version: seq<byte>)
    reads client
  {
    && client.reliable && 0 <= client.slave <= 255 && ClientBuilt(q)
    && Told(Ahead(client, q), q, Execute(q, m).0, version)
  }

  /** The request has been sent, and its answer, and no more, has been received. */
  twostate predicate Exchanged(client: Modbus, q: Request)
    requires ClientBuilt(q) && 0 <= client.slave <= 255
    reads client
  {
    && client.tid == Advanced(client.be, old(client.tid))
    && client.sends == old(client.sends) + [ClientFrame(client.be, client.tid, client.slave, q)]
    && Left(old(client.incoming), client.incoming)
    && Whole(client.be, Confirmation, old(client.incoming), client.incoming)
  }

  /** `modbus_read_registers` and `modbus_read_input_registers`. */
  method GetRegisters(client: Modbus, input: bool, addr: word, nb: word, dest: array<word>, ghost q: Request,
                      ghost m: Memory, ghost version: seq<byte>)
    returns (rc: int)
    requires Expecting(client, q, m, version) && 1 <= nb <= MAX_READ_REGISTERS && nb <= dest.Length
    requires q == ReadRegisters(input, addr, nb)
    modifies client`sends, client`lastSend, client`incoming, client`errno, client`tid, dest
    ensures Exchanged(client, q)
    ensures AsLocal(q, m, Execute(q, m).1, version, rc, client.errno)
    ensures var r := Execute(q, m).0;
      dest[..] == (if r.Registers? then r.words + old(dest[nb..]) else old(dest[..]))
  {
    ghost var o, s := Ahead(client, q), client.incoming;
    rc := ReadRegistersCall(client, input, addr, nb, dest);
    WordsTold(client.be, o, s, client.incoming, client.lastSend, q, m, version, rc, client.errno);
  }

  /** `modbus_read_bits` and `modbus_read_input_bits`, of cells that are 0 or 1; they return the number of bits,
      not that of the bytes. */
  method GetBits(client: Modbus, input: bool, addr: word, nb: word, dest: array<byte>, ghost q: Request,
                 ghost m: Memory, ghost version: seq<byte>)
    returns (rc: int)
    requires Expecting(client, q, m, version) && 1 <= nb <= MAX_READ_BITS && nb <= dest.Length
    requires q == ReadBits(input, addr, nb) && AllBits(BitTable(m, input).cells)
    modifies client`sends, client`lastSend, client`incoming, client`errno, client`tid, dest
    ensures Exchanged(client, q)
    ensures var r := Execute(q, m).0;
      && rc == (if r.Cells? then nb else -1)
      && (r.Exception? ==> client.errno == ENOBASE + r.code)
      && dest[..] == (if r.Cells? then r.bits + old(dest[nb..]) else old(dest[..]))
  {
    ghost var o := Ahead(client, q);
    rc := ReadBitsCall(client, input, addr, nb, dest);
    ReadTold(o, q, m, version);
  }

  /** `modbus_write_registers`. */
  method SendRegisters(client: Modbus, addr: word, nb: word, src: seq<word>, ghost q: Request, ghost m: Memory,
                       ghost version: seq<byte>)
    returns (rc: int)
    requires Expecting(client, q, m, version) && 1 <= nb <= MAX_WRITE_REGISTERS && nb <= |src|
    requires q == WriteRegisters(addr, nb, WordBytes(src[..nb]))
    modifies client`sends, client`lastSend, client`incoming, client`errno, client`tid
    ensures Exchanged(client, q)
    ensures AsLocal(q, m, Execute(q, m).1, version, rc, client.errno)
  {
    ghost var o, s := Ahead(client, q), client.incoming;
    rc := WriteRegistersCall(client, addr, nb, src);
    ReturnsTold(client.be, o, s, client.incoming, client.lastSend, q, m, version, rc, client.errno);
  }

  /** `modbus_write_bits`. */
  method SendBits(client: Modbus, addr: word, nb: word, src: seq<byte>, ghost q: Request, ghost m: Memory,
                  ghost version: seq<byte>)
    returns (rc: int)
    requires Expecting(client, q, m, version) && 1 <= nb <= MAX_WRITE_BITS && nb <= |src|
    requires q == WriteCoils(addr, nb, PackCells(Normal(src[..nb])))
    modifies client`sends, client`lastSend, client`incoming, client`errno, client`tid
    ensures Exchanged(client, q)
    ensures AsLocal(q, m, Execute(q, m).1, version, rc, client.errno)
  {
    ghost var o, s := Ahead(client, q), client.incoming;
    rc := WriteBitsCall(client, addr, nb, src);
    ReturnsTold(client.be, o, s, client.incoming, client.lastSend, q, m, version, rc, client.errno);
  }

  /** `modbus_write_and_read_registers`. */
  method SendAndGetRegisters(client: Modbus, writeAddr: word, writeNb: word, src: seq<word>, readAddr: word,
                             readNb: word, dest: array<word>, ghost q: Request, ghost m: Memory,
                             ghost version: seq<byte>)
    returns (rc: int)
    requires Expecting(client, q, m, version) && 1 <= writeNb <= MAX_WR_WRITE_REGISTERS && writeNb <= |src|
    requires 1 <= readNb <= MAX_WR_READ_REGISTERS && readNb <= dest.Length
    requires q == WriteRead(readAddr, readNb, writeAddr, writeNb, WordBytes(src[..writeNb]))
    modifies client`sends, client`lastSend, client`incoming, client`errno, client`tid, dest
    ensures Exchanged(client, q)
    ensures AsLocal(q, m, Execute(q, m).1, version, rc, client.errno)
    ensures var r := Execute(q, m).0;
      dest[..] == (if r.Registers? then r.words + old(dest[readNb..]) else old(dest[..]))
  {
    ghost var o, s := Ahead(client, q), client.incoming;
    rc := WriteAndReadCall(client, writeAddr, writeNb, src, readAddr, readNb, dest);
    WordsTold(client.be, o, s, client.incoming, client.lastSend, q, m, version, rc, client.errno);
  }

  /** `modbus_mask_write_register`. */
  method MaskRegister(client: Modbus, addr: word, andMask: word, orMask: word, ghost q: Request, ghost m: Memory,
                      ghost version: seq<byte>)
    returns (rc: int)
    requires Expecting(client, q, m, version)
    requires q == MaskWrite(addr, andMask, orMask, true)
    modifies client`sends, client`lastSend, client`incoming, client`errno, client`tid
    ensures Exchanged(client, q)
    ensures AsLocal(q, m, Execute(q, m).1, version, rc, client.errno)
  {
    ghost var o, s := Ahead(client, q), client.incoming;
    rc := MaskWriteCall(client, addr, andMask, orMask);
    ReturnsTold(client.be, o, s, client.incoming, client.lastSend, q, m, version, rc, client.errno);
  }

  /** `modbus_write_bit`. */
  method SendBit(client: Modbus, addr: word, status: bool, ghost q: Request, ghost m: Memory,
                 ghost version: seq<byte>)
    returns (rc: int)
    requires Expecting(client, q, m, version)
    requires q == WriteCoil(addr, if status then 0xFF00 else 0, true)
    modifies client`sends, client`lastSend, client`incoming, client`errno, client`tid
    ensures Exchanged(client, q)
    ensures AsLocal(q, m, Execute(q, m).1, version, rc, client.errno)
  {
    ghost var o, s := Ahead(client, q), client.incoming;
    rc := WriteBitCall(client, addr, status);
    ReturnsTold(client.be, o, s, client.incoming, client.lastSend, q, m, version, rc, client.errno);
  }

  /** `modbus_write_register`. */
  method SendRegister(client: Modbus, addr: word, value: word, ghost q: Request, ghost m: Memory,
                      ghost version: seq<byte>)
    returns (rc: int)
    requires Expecting(client, q, m, version)
    requires q == WriteRegister(addr, value, true)
    modifies client`sends, client`lastSend, client`incoming, client`errno, client`tid
    ensures Exchanged(client, q)
    ensures AsLocal(q, m, Execute(q, m).1, version, rc, client.errno)
  {
    ghost var o, s := Ahead(client, q), client.incoming;
    rc := WriteRegisterCall(client, addr, value);
    ReturnsTold(client.be, o, s, client.incoming, client.lastSend, q, m, version, rc, client.errno);
  }

  /** `modbus_report_slave_id`: the destination gets the identifier, or as much of it as is asked for. */
  method GetSlaveId(client: Modbus, maxDest: nat, dest: array<byte>, ghost q: Request, ghost m: Memory,
                    ghost version: seq<byte>)
    returns (rc: int)
    requires Expecting(client, q, m, version) && 0 < maxDest <= dest.Length
    requires q == ReportSlaveId
    modifies client`sends, client`lastSend, client`incoming, client`errno, client`tid, dest
    ensures Exchanged(client, q)
    ensures AsLocal(q, m, Execute(q, m).1, version, rc, client.errno)
    ensures var n := if 5 + |version| < maxDest then 5 + |version| else maxDest;
      dest[..] == Identifier(version)[..n] + old(dest[n..])
  {
    ghost var o, s := Ahead(client, q), client.incoming;
    rc := ReportSlaveIdCall(client, maxDest, dest);
    ReturnsTold(client.be, o, s, client.incoming, client.lastSend, q, m, version, rc, client.errno);
    assert rc == 5 + |version|;
    IdentifierCut(o.pdu, version, if rc < maxDest then rc else maxDest);
  }

  lemma IdentifierCut(pdu: seq<byte>, version: seq<byte>, n: nat)
    requires Identifies(pdu, version) && n <= 5 + |version|
    ensures pdu[2..2 + n] == Identifier(version)[..n]
  {
    assert pdu[2..7 + |version|][..n] == pdu[2..2 + n];
  }
}
