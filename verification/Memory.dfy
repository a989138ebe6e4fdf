/** The memory a server exposes and the meaning of a request on it: section 6 of the MODBUS
    application protocol specification V1.1b, with the checks in the order of the code. */
module Memory {
  import opened Bytes
  import opened Bits
  import opened Protocol

  /** Cells at consecutive addresses from `start` on. */
  datatype Table<T> = Table(start: nat, cells: seq<T>) {
    predicate Covers(a: int, n: int)
    {
      start <= a && a + n <= start + |cells|
    }

    function At(a: int): T
      requires Covers(a, 1)
    {
      cells[a - start]
    }

    function Read(a: int, n: nat): (vs: seq<T>)
      requires Covers(a, n)
      ensures |vs| == n
    {
      cells[a - start..a - start + n]
    }

    function Write(a: int, vs: seq<T>): (t: Table<T>)
      requires Covers(a, |vs|)
      ensures t.start == start && |t.cells| == |cells|
    {
      Table(start, cells[..a - start] + vs + cells[a - start + |vs|..])
    }

    /** A table is an address-to-value map: a read lists the values at its addresses. */
    lemma ReadAt(a: int, n: nat, i: nat)
      requires Covers(a, n) && i < n
      ensures Read(a, n)[i] == At(a + i)
    {
    }

    /** A write changes the values at its own addresses and no others. */
    lemma WriteAt(a: int, vs: seq<T>, b: int)
      requires Covers(a, |vs|) && Covers(b, 1)
      ensures Write(a, vs).At(b) == if a <= b < a + |vs| then vs[b - a] else At(b)
    {
    }

    lemma ReadBack(a: int, vs: seq<T>)
      requires Covers(a, |vs|)
      ensures Write(a, vs).Read(a, |vs|) == vs
    {
    }
  }

  datatype Memory = Memory(coils: Table<byte>, inputs: Table<byte>, holding: Table<word>, inputRegisters: Table<word>)

  // ---- Requests and responses ----------------------------------------------------

  /** A request PDU, decoded. `exact` tells that the PDU has no byte beyond its fields. */
  datatype Request =
    | ReadBits(input: bool, addr: word, nb: word)
    | ReadRegisters(input: bool, addr: word, nb: word)
    | WriteCoil(addr: word, data: word, exact: bool)
    | WriteRegister(addr: word, value: word, exact: bool)
    | WriteCoils(addr: word, nb: word, payload: seq<byte>)
    | WriteRegisters(addr: word, nb: word, payload: seq<byte>)
    | ReportSlaveId
    | ReadExceptionStatus
    | MaskWrite(addr: word, andMask: word, orMask: word, exact: bool)
    | WriteRead(addr: word, nb: word, writeAddr: word, writeNb: word, payload: seq<byte>)
    | Unknown(code: byte)
    | Truncated(code: byte)
  {
    function Code(): byte
    {
      match this
      case ReadBits(input, _, _) => if input then FC_READ_DISCRETE_INPUTS else FC_READ_COILS
      case ReadRegisters(input, _, _) => if input then FC_READ_INPUT_REGISTERS else FC_READ_HOLDING_REGISTERS
      case WriteCoil(_, _, _) => FC_WRITE_SINGLE_COIL
      case WriteRegister(_, _, _) => FC_WRITE_SINGLE_REGISTER
      case WriteCoils(_, _, _) => FC_WRITE_MULTIPLE_COILS
      case WriteRegisters(_, _, _) => FC_WRITE_MULTIPLE_REGISTERS
      case ReportSlaveId => FC_REPORT_SLAVE_ID
      case ReadExceptionStatus => FC_READ_EXCEPTION_STATUS
      case MaskWrite(_, _, _, _) => FC_MASK_WRITE_REGISTER
      case WriteRead(_, _, _, _, _) => FC_WRITE_AND_READ_REGISTERS
      case Unknown(code) => code
      case Truncated(code) => code
    }
  }

  datatype Response =
    | Cells(bits: seq<byte>)
    | Registers(words: seq<word>)
    | Echo
    | EchoRange
    | SlaveId
    | Exception(code: byte)

  function BitTable(m: Memory, input: bool): Table<byte> { if input then m.inputs else m.coils }

  function WordTable(m: Memory, input: bool): Table<word> { if input then m.inputRegisters else m.holding }

  // ---- The operations ----------------------------------------------------------------

  function ReadBitsFrom(t: Table<byte>, a: word, n: word): Response
  {
    if n < 1 || MAX_READ_BITS < n then Exception(EXCEPTION_ILLEGAL_DATA_VALUE)
    else if !t.Covers(a, n) then Exception(EXCEPTION_ILLEGAL_DATA_ADDRESS)
    else Cells(t.Read(a, n))
  }

  function ReadRegistersFrom(t: Table<word>, a: word, n: word): Response
  {
    if n < 1 || MAX_READ_REGISTERS < n then Exception(EXCEPTION_ILLEGAL_DATA_VALUE)
    else if !t.Covers(a, n) then Exception(EXCEPTION_ILLEGAL_DATA_ADDRESS)
    else Registers(t.Read(a, n))
  }

  function WriteCoilTo(t: Table<byte>, a: word, data: word, exact: bool): (Response, Table<byte>)
  {
    if !t.Covers(a, 1) then (Exception(EXCEPTION_ILLEGAL_DATA_ADDRESS), t)
    else if !exact || (data != 0xFF00 && data != 0) then (Exception(EXCEPTION_ILLEGAL_DATA_VALUE), t)
    else (Echo, t.Write(a, [if data == 0 then 0 else 1]))
  }

  function WriteRegisterTo(t: Table<word>, a: word, value: word, exact: bool): (Response, Table<word>)
  {
    if !t.Covers(a, 1) then (Exception(EXCEPTION_ILLEGAL_DATA_ADDRESS), t)
    else if !exact then (Exception(EXCEPTION_ILLEGAL_DATA_VALUE), t)
    else (Echo, t.Write(a, [value]))
  }

  function WriteCoilsTo(t: Table<byte>, a: word, n: word, payload: seq<byte>): (Response, Table<byte>)
  {
    if n < 1 || MAX_WRITE_BITS < n || 8 * |payload| < n then (Exception(EXCEPTION_ILLEGAL_DATA_VALUE), t)
    else if !t.Covers(a, n) then (Exception(EXCEPTION_ILLEGAL_DATA_ADDRESS), t)
    else (EchoRange, t.Write(a, UnpackBits(payload, n)))
  }

  function WriteRegistersTo(t: Table<word>, a: word, n: word, payload: seq<byte>): (Response, Table<word>)
  {
    if n < 1 || MAX_WRITE_REGISTERS < n || |payload| != 2 * n then (Exception(EXCEPTION_ILLEGAL_DATA_VALUE), t)
    else if !t.Covers(a, n) then (Exception(EXCEPTION_ILLEGAL_DATA_ADDRESS), t)
    else (EchoRange, t.Write(a, BytesWords(payload)))
  }

  function MaskWriteTo(t: Table<word>, a: word, andMask: word, orMask: word, exact: bool): (Response, Table<word>)
  {
    if !t.Covers(a, 1) then (Exception(EXCEPTION_ILLEGAL_DATA_ADDRESS), t)
    else if !exact then (Exception(EXCEPTION_ILLEGAL_DATA_VALUE), t)
    else (Echo, t.Write(a, [Masked(t.At(a), andMask, orMask)]))
  }

  /** Write first, then read. */
  function WriteReadOn(t: Table<word>, a: word, n: word, wa: word, wn: word, payload: seq<byte>)
    : (Response, Table<word>)
  {
    if wn < 1 || MAX_WR_WRITE_REGISTERS < wn || n < 1 || MAX_WR_READ_REGISTERS < n || |payload| != 2 * wn
    then (Exception(EXCEPTION_ILLEGAL_DATA_VALUE), t)
    else if !t.Covers(a, n) || !t.Covers(wa, wn) then (Exception(EXCEPTION_ILLEGAL_DATA_ADDRESS), t)
    else
      var written := t.Write(wa, BytesWords(payload));
      (Registers(written.Read(a, n)), written)
  }

  /** What a request does to the memory, and what it is answered. */
  function Execute(q: Request, m: Memory): (Response, Memory)
  {
    match q
    case ReadBits(input, a, n) => (ReadBitsFrom(BitTable(m, input), a, n), m)
    case ReadRegisters(input, a, n) => (ReadRegistersFrom(WordTable(m, input), a, n), m)
    case WriteCoil(a, data, exact) =>
      var (r, t) := WriteCoilTo(m.coils, a, data, exact);
      (r, m.(coils := t))
    case WriteRegister(a, value, exact) =>
      var (r, t) := WriteRegisterTo(m.holding, a, value, exact);
      (r, m.(holding := t))
    case WriteCoils(a, n, payload) =>
      var (r, t) := WriteCoilsTo(m.coils, a, n, payload);
      (r, m.(coils := t))
    case WriteRegisters(a, n, payload) =>
      var (r, t) := WriteRegistersTo(m.holding, a, n, payload);
      (r, m.(holding := t))
    case ReportSlaveId => (SlaveId, m)
    case ReadExceptionStatus => (Exception(EXCEPTION_ILLEGAL_FUNCTION), m)
    case MaskWrite(a, andMask, orMask, exact) =>
      var (r, t) := MaskWriteTo(m.holding, a, andMask, orMask, exact);
      (r, m.(holding := t))
    case WriteRead(a, n, wa, wn, payload) =>
      var (r, t) := WriteReadOn(m.holding, a, n, wa, wn, payload);
      (r, m.(holding := t))
    case Unknown(_) => (Exception(EXCEPTION_ILLEGAL_FUNCTION), m)
    case Truncated(_) => (Exception(EXCEPTION_ILLEGAL_DATA_VALUE), m)
  }
}
