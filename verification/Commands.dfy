/** A program of calls, one after another on the same link, against the operations they stand for. */
module Commands {
  import opened Bytes
  import opened Bits
  import opened Protocol
  import opened Memory
  import opened Server
  import opened Client
  import opened EndToEnd
  import opened Context
  import opened Data
  import opened Calls
  import opened ClientHalf

  /** The client calls with their arguments. */
  datatype Command =
    | ReadBitsOf(input: bool, addr: word, nb: word)
    | ReadRegistersOf(input: bool, addr: word, nb: word)
    | WriteBit(addr: word, status: bool)
    | WriteOne(addr: word, value: word)
    | WriteBits(addr: word, cells: seq<byte>)
    | WriteWords(addr: word, words: seq<word>)
    | WriteMasked(addr: word, andMask: word, orMask: word)
    | WriteThenReadOf(writeAddr: word, words: seq<word>, addr: word, nb: word)
    | AskSlaveId

  /** The arguments that the calls accept. */
  predicate InRange(c: Command)
  {
    match c
    case ReadBitsOf(_, _, nb) => 1 <= nb <= MAX_READ_BITS
    case ReadRegistersOf(_, _, nb) => 1 <= nb <= MAX_READ_REGISTERS
    case WriteBits(_, cells) => 1 <= |cells| <= MAX_WRITE_BITS
    case WriteWords(_, words) => 1 <= |words| <= MAX_WRITE_REGISTERS
    case WriteThenReadOf(_, words, _, nb) =>
      1 <= |words| <= MAX_WR_WRITE_REGISTERS && 1 <= nb <= MAX_WR_READ_REGISTERS
    case _ => true
  }

  function RequestOf(c: Command): (q: Request)
    requires InRange(c)
    ensures ClientBuilt(q)
  {
    match c
    case ReadBitsOf(input, a, nb) => ReadBits(input, a, nb)
    case ReadRegistersOf(input, a, nb) => ReadRegisters(input, a, nb)
    case WriteBit(a, status) => WriteCoil(a, if status then 0xFF00 else 0, true)
    case WriteOne(a, value) => WriteRegister(a, value, true)
    case WriteBits(a, cells) => WriteCoils(a, |cells|, PackCells(Normal(cells)))
    case WriteWords(a, words) => WriteRegisters(a, |words|, WordBytes(words))
    case WriteMasked(a, andMask, orMask) => MaskWrite(a, andMask, orMask, true)
    case WriteThenReadOf(wa, words, a, nb) => WriteRead(a, nb, wa, |words|, WordBytes(words))
    case AskSlaveId => ReportSlaveId
  }

  /** What a call brings: its result, the error if it is -1, and the values read. */
  datatype Result = Result(rc: int, errno: int, bytes: seq<byte>, words: seq<word>)

  /** The result is that of the response `r`, which the operation itself gives. */
  predicate Agrees(res: Result, q: Request, r: Response, version: seq<byte>)
  {
    match r
    case Exception(code) => res.rc == -1 && res.errno == ENOBASE + code && res.bytes == [] && res.words == []
    case Cells(bits) => res.rc == |bits| && res.bytes == bits && res.words == []
    case Registers(words) => res.rc == |words| && res.bytes == [] && res.words == words
    case SlaveId => res.rc == 5 + |version| && res.bytes == Identifier(version) && res.words == []
    case _ => res.rc == Returned(q, r, version) && res.bytes == [] && res.words == []
  }

  /** The tables that are read as bits hold bits. */
  predicate BitsIn(m: Memory) { AllBits(m.coils.cells) && AllBits(m.inputs.cells) }

  method DoReadBits(client: Modbus, input: bool, addr: word, nb: word,
                    ghost q: Request, ghost m: Memory, ghost version: seq<byte>)
    returns (res: Result)
    requires Expecting(client, q, m, version) && BitsIn(m)
    requires 1 <= nb <= MAX_READ_BITS && q == ReadBits(input, addr, nb)
    modifies client`sends, client`lastSend, client`incoming, client`errno, client`tid
    ensures Exchanged(client, q) && Agrees(res, q, Execute(q, m).0, version)
  {
    var dest := new byte[nb](_ => 0);
    var rc := GetBits(client, input, addr, nb, dest, q, m, version);
    res := Result(rc, client.errno, if rc == -1 then [] else dest[..], []);
  }

  method DoReadRegisters(client: Modbus, input: bool, addr: word, nb: word,
                         ghost q: Request, ghost m: Memory, ghost version: seq<byte>)
    returns (res: Result)
    requires Expecting(client, q, m, version)
    requires 1 <= nb <= MAX_READ_REGISTERS && q == ReadRegisters(input, addr, nb)
    modifies client`sends, client`lastSend, client`incoming, client`errno, client`tid
    ensures Exchanged(client, q) && Agrees(res, q, Execute(q, m).0, version)
  {
    var dest := new word[nb](_ => 0);
    var rc := GetRegisters(client, input, addr, nb, dest, q, m, version);
    res := Result(rc, client.errno, [], if rc == -1 then [] else dest[..]);
  }

  method DoWriteAndRead(client: Modbus, writeAddr: word, words: seq<word>, addr: word, nb: word,
                        ghost q: Request, ghost m: Memory, ghost version: seq<byte>)
    returns (res: Result)
    requires Expecting(client, q, m, version)
    requires 1 <= |words| <= MAX_WR_WRITE_REGISTERS && 1 <= nb <= MAX_WR_READ_REGISTERS
    requires q == WriteRead(addr, nb, writeAddr, |words|, WordBytes(words))
    modifies client`sends, client`lastSend, client`incoming, client`errno, client`tid
    ensures Exchanged(client, q) && Agrees(res, q, Execute(q, m).0, version)
  {
    var dest := new word[nb](_ => 0);
    assert words[..|words|] == words;
    var rc := SendAndGetRegisters(client, writeAddr, |words|, words, addr, nb, dest, q, m, version);
    res := Result(rc, client.errno, [], if rc == -1 then [] else dest[..]);
  }

  method DoSlaveId(client: Modbus, ghost q: Request, ghost m: Memory, ghost version: seq<byte>)
    returns (res: Result)
    requires Expecting(client, q, m, version) && |version| <= MAX_VERSION && q == ReportSlaveId
    modifies client`sends, client`lastSend, client`incoming, client`errno, client`tid
    ensures Exchanged(client, q) && Agrees(res, q, Execute(q, m).0, version)
  {
    var dest := new byte[MAX_MESSAGE_LENGTH](_ => 0);
    var rc := GetSlaveId(client, MAX_MESSAGE_LENGTH, dest, q, m, version);
    assert Identifier(version)[..5 + |version|] == Identifier(version);
    res := Result(rc, client.errno, if 0 <= rc <= dest.Length then dest[..rc] else [], []);
  }

  predicate Writes(c: Command)
  {
    c.WriteBit? || c.WriteOne? || c.WriteBits? || c.WriteWords? || c.WriteMasked?
  }

  lemma WriteAgrees(c: Command, q: Request, m: Memory, version: seq<byte>, rc: int, errno: int)
    requires InRange(c) && q == RequestOf(c) && Writes(c)
    requires AsLocal(q, m, Execute(q, m).1, version, rc, errno)
    ensures Agrees(Result(rc, errno, [], []), q, Execute(q, m).0, version)
  {
    ExecuteAnswers(q, m);
  }

  method DoWrite(client: Modbus, c: Command, ghost q: Request, ghost m: Memory, ghost version: seq<byte>)
    returns (rc: int)
    requires InRange(c) && q == RequestOf(c) && Writes(c) && Expecting(client, q, m, version)
    modifies client`sends, client`lastSend, client`incoming, client`errno, client`tid
    ensures Exchanged(client, q) && AsLocal(q, m, Execute(q, m).1, version, rc, client.errno)
  {
    match c
    case WriteBit(a, status) =>
      rc := SendBit(client, a, status, q, m, version);
    case WriteOne(a, value) =>
      rc := SendRegister(client, a, value, q, m, version);
    case WriteBits(a, cells) =>
      assert cells[..|cells|] == cells;
      rc := SendBits(client, a, |cells|, cells, q, m, version);
    case WriteWords(a, words) =>
      assert words[..|words|] == words;
      rc := SendRegisters(client, a, |words|, words, q, m, version);
    case WriteMasked(a, andMask, orMask) =>
      rc := MaskRegister(client, a, andMask, orMask, q, m, version);
  }

  /** A call, when its answer is on its way: its result is that of the operation. */
  method Perform(client: Modbus, c: Command, ghost q: Request, ghost m: Memory, ghost version: seq<byte>)
    returns (res: Result)
    requires InRange(c) && q == RequestOf(c)
    requires Expecting(client, q, m, version) && BitsIn(m) && |version| <= MAX_VERSION
    modifies client`sends, client`lastSend, client`incoming, client`errno, client`tid
    ensures Exchanged(client, q) && Agrees(res, q, Execute(q, m).0, version)
  {
    match c
    case ReadBitsOf(input, a, nb) =>
      res := DoReadBits(client, input, a, nb, q, m, version);
    case ReadRegistersOf(input, a, nb) =>
      res := DoReadRegisters(client, input, a, nb, q, m, version);
    case WriteThenReadOf(wa, words, a, nb) =>
      res := DoWriteAndRead(client, wa, words, a, nb, q, m, version);
    case AskSlaveId =>
      res := DoSlaveId(client, q, m, version);
    case _ =>
      var rc := DoWrite(client, c, q, m, version);
      WriteAgrees(c, q, m, version, rc, client.errno);
      res := Result(rc, client.errno, [], []);
  }

  // ---- Calls that may fail ------------------------------------------------------------------

  method IssueRead(client: Modbus, c: Command, ghost q: Request) returns (rc: int)
    requires InRange(c) && q == RequestOf(c) && client.reliable && 0 <= client.slave <= 255
    requires c.ReadBitsOf? || c.ReadRegistersOf?
    modifies client`sends, client`lastSend, client`incoming, client`errno, client`tid
    ensures old(Ahead(client, q)).Failed? ==> rc == -1 && client.errno == old(Ahead(client, q)).errno
  {
    if c.ReadBitsOf? {
      var dest := new byte[c.nb](_ => 0);
      rc := ReadBitsCall(client, c.input, c.addr, c.nb, dest);
    } else {
      var dest := new word[c.nb](_ => 0);
      rc := ReadRegistersCall(client, c.input, c.addr, c.nb, dest);
    }
  }

  method IssueMore(client: Modbus, c: Command, ghost q: Request) returns (rc: int)
    requires InRange(c) && q == RequestOf(c) && client.reliable && 0 <= client.slave <= 255
    requires c.WriteThenReadOf? || c.AskSlaveId?
    modifies client`sends, client`lastSend, client`incoming, client`errno, client`tid
    ensures old(Ahead(client, q)).Failed? ==> rc == -1 && client.errno == old(Ahead(client, q)).errno
  {
    if c.WriteThenReadOf? {
      var dest := new word[c.nb](_ => 0);
      assert c.words[..|c.words|] == c.words;
      rc := WriteAndReadCall(client, c.writeAddr, |c.words|, c.words, c.addr, c.nb, dest);
    } else {
      var dest := new byte[MAX_MESSAGE_LENGTH](_ => 0);
      rc := ReportSlaveIdCall(client, MAX_MESSAGE_LENGTH, dest);
    }
  }

  method IssueWrite(client: Modbus, c: Command, ghost q: Request) returns (rc: int)
    requires InRange(c) && q == RequestOf(c) && client.reliable && 0 <= client.slave <= 255 && Writes(c)
    modifies client`sends, client`lastSend, client`incoming, client`errno, client`tid
    ensures old(Ahead(client, q)).Failed? ==> rc == -1 && client.errno == old(Ahead(client, q)).errno
  {
    match c
    case WriteBit(a, status) =>
      rc := WriteBitCall(client, a, status);
    case WriteOne(a, value) =>
      rc := WriteRegisterCall(client, a, value);
    case WriteBits(a, cells) =>
      assert cells[..|cells|] == cells;
      rc := WriteBitsCall(client, a, |cells|, cells);
    case WriteWords(a, words) =>
      assert words[..|words|] == words;
      rc := WriteRegistersCall(client, a, |words|, words);
    case WriteMasked(a, andMask, orMask) =>
      rc := MaskWriteCall(client, a, andMask, orMask);
  }

  /** A call, whatever is on its way to the client: if it is bound to fail, it returns -1 with that error. */
  method Issue(client: Modbus, c: Command, ghost q: Request) returns (rc: int)
    requires InRange(c) && q == RequestOf(c) && client.reliable && 0 <= client.slave <= 255
    modifies client`sends, client`lastSend, client`incoming, client`errno, client`tid
    ensures old(Ahead(client, q)).Failed? ==> rc == -1 && client.errno == old(Ahead(client, q)).errno
  {
    if Writes(c) {
      rc := IssueWrite(client, c, q);
    } else if c.ReadBitsOf? || c.ReadRegistersOf? {
      rc := IssueRead(client, c, q);
    } else {
      rc := IssueMore(client, c, q);
    }
  }
}
