/** `modbus_reply`: every case fills the response buffer and changes the tables in place, and is proved
    to do what the request means on the memory. */
module ReplyCode {
  import opened Bytes
  import opened Bits
  import opened Protocol
  import opened Memory
  import opened Server
  import opened Client
  import opened Data
  import opened Context
  import opened MappingTables

  /** `sft_t`: the parts of a response header; the function may exceed a byte. */
  datatype Sft = Sft(slave: byte, function_: nat, tid: word)

  /** `get_response_tid`. */
  function ResponseTid(be: Backend, req: seq<byte>): word
    requires |req| >= be.Header() + 1
  {
    if be.Rtu? then 0 else Word(req[0], req[1])
  }

  /** `build_response_basis`; in TCP the length bytes 4 and 5 stay open. */
  method BuildResponseBasis(be: Backend, sft: Sft, rsp: array<byte>) returns (n: nat)
    requires rsp.Length == MAX_MESSAGE_LENGTH
    modifies rsp
    ensures n == be.Header() + 1
    ensures Laid(be, rsp[..n], Prefix(be, sft.tid), sft.slave, [sft.function_ % 0x100])
  {
    match be
    case Rtu =>
      rsp[0], rsp[1] := sft.slave, sft.function_ % 0x100;
      n := 2;
      assert rsp[..n][1..] == [rsp[1]];
    case Tcp =>
      rsp[0], rsp[1], rsp[2], rsp[3] := Hi(sft.tid), Lo(sft.tid), 0, 0;
      rsp[6], rsp[7] := sft.slave, sft.function_ % 0x100;
      n := 8;
      assert rsp[..n][7..] == [rsp[7]];
      assert rsp[..n][..4] == Prefix(be, sft.tid);
  }

  /** The buffer holds the response `r` to `req`, up to the checksum or the length field. */
  predicate Holds(be: Backend, req: seq<byte>, r: Response, version: seq<byte>, m: seq<byte>)
    requires |req| >= be.Header() + 1
  {
    && (r.EchoRange? ==> |PduOf(be, req)| >= 5)
    && Laid(be, m, ResponsePrefix(be, req, r), req[be.Header() - 1], ResponsePdu(PduOf(be, req), r, version))
  }

  function RequestSft(be: Backend, req: seq<byte>): Sft
    requires |req| >= be.Header() + 1
  {
    Sft(req[be.Header() - 1], req[be.Header()], ResponseTid(be, req))
  }

  lemma PrefixOfRequest(be: Backend, req: seq<byte>, r: Response)
    requires |req| >= be.Header() + 1 && !r.Echo?
    ensures Prefix(be, ResponseTid(be, req)) == ResponsePrefix(be, req, r)
  {
  }

  /** `response_exception`. */
  method ResponseException(be: Backend, req: seq<byte>, code: byte, rsp: array<byte>, ghost version: seq<byte>)
    returns (n: nat)
    requires |req| >= be.Header() + 1 && rsp.Length == MAX_MESSAGE_LENGTH
    modifies rsp
    ensures n == be.Header() + 2 && Holds(be, req, Exception(code), version, rsp[..n])
  {
    var sft := RequestSft(be, req);
    n := BuildResponseBasis(be, sft.(function_ := sft.function_ + 0x80), rsp);
    ghost var basis := rsp[..n];
    rsp[n] := code;
    n := n + 1;
    assert rsp[..n] == basis + [code];
    PrefixOfRequest(be, req, Exception(code));
  }

  /** A normal answer that lists cells. */
  method AnswerBits(be: Backend, req: seq<byte>, tab: array<byte>, mappingAddress: nat, nb: nat,
                    rsp: array<byte>, ghost version: seq<byte>)
    returns (n: nat)
    requires |req| >= be.Header() + 1 && rsp.Length == MAX_MESSAGE_LENGTH && rsp != tab
    requires mappingAddress + nb <= tab.Length && nb <= MAX_READ_BITS
    modifies rsp
    ensures n <= rsp.Length
    ensures Holds(be, req, Cells(tab[mappingAddress..mappingAddress + nb]), version, rsp[..n])
  {
    n := BuildResponseBasis(be, RequestSft(be, req), rsp);
    ghost var basis := rsp[..n];
    ghost var cells := tab[mappingAddress..mappingAddress + nb];
    rsp[n] := PackedLength(nb) % 0x100;
    assert rsp[..n + 1] == basis + [PackedLength(nb) % 0x100];
    n := ResponseIoStatus(tab, mappingAddress, nb, rsp, n + 1);
    HoldsCells(be, req, basis, cells, version);
  }

  /** A normal answer that lists registers. */
  method AnswerRegisters(be: Backend, req: seq<byte>, tab: array<word>, mappingAddress: nat, nb: nat,
                         rsp: array<byte>, ghost words: seq<word>, ghost version: seq<byte>)
    returns (n: nat)
    requires |req| >= be.Header() + 1 && rsp.Length == MAX_MESSAGE_LENGTH
    requires mappingAddress + nb <= tab.Length && nb <= MAX_READ_REGISTERS
    requires words == tab[mappingAddress..mappingAddress + nb]
    modifies rsp
    ensures n <= rsp.Length && Holds(be, req, Registers(words), version, rsp[..n])
  {
    n := BuildResponseBasis(be, RequestSft(be, req), rsp);
    ghost var basis := rsp[..n];
    rsp[n] := 2 * nb % 0x100;
    assert rsp[..n + 1] == basis + [2 * nb % 0x100];
    n := PutRegisters(tab, mappingAddress, nb, rsp, n + 1);
    HoldsRegisters(be, req, basis, words, version);
  }

  // ---- The cases of the switch; each is given the table it works on --------------------

  method ReplyReadBits(be: Backend, req: seq<byte>, start: nat, tab: array<byte>, address: word,
                       rsp: array<byte>, ghost version: seq<byte>)
    returns (n: nat)
    requires |req| >= be.Header() + 5 && rsp.Length == MAX_MESSAGE_LENGTH && rsp != tab
    modifies rsp
    ensures n <= rsp.Length
    ensures var nb: word := Word(req[be.Header() + 3], req[be.Header() + 4]);
      Holds(be, req, ReadBitsFrom(Table(start, tab[..]), address, nb), version, rsp[..n])
  {
    var nb: word := Word(req[be.Header() + 3], req[be.Header() + 4]);
    var mappingAddress := address - start;
    if nb < 1 || MAX_READ_BITS < nb {
      n := ResponseException(be, req, EXCEPTION_ILLEGAL_DATA_VALUE, rsp, version);
    } else if mappingAddress < 0 || mappingAddress + nb > tab.Length {
      n := ResponseException(be, req, EXCEPTION_ILLEGAL_DATA_ADDRESS, rsp, version);
    } else {
      n := AnswerBits(be, req, tab, mappingAddress, nb, rsp, version);
    }
  }

  lemma HoldsCells(be: Backend, req: seq<byte>, basis: seq<byte>, cells: seq<byte>, version: seq<byte>)
    requires |req| >= be.Header() + 1
    requires Laid(be, basis, Prefix(be, ResponseTid(be, req)), req[be.Header() - 1], [req[be.Header()]])
    ensures Holds(be, req, Cells(cells), version, basis + [PackedLength(|cells|) % 0x100] + PackCells(cells))
  {
    PrefixOfRequest(be, req, Cells(cells));
  }

  /** The loop that writes registers into the response, high byte first. */
  method PutRegisters(tab: array<word>, address: nat, nb: nat, rsp: array<byte>, offset: nat) returns (end: nat)
    requires address + nb <= tab.Length && offset + 2 * nb <= rsp.Length
    modifies rsp
    ensures end == offset + 2 * nb
    ensures rsp[..end] == old(rsp[..offset]) + WordBytes(tab[address..address + nb])
  {
    end := offset;
    for i := address to address + nb
      invariant end == offset + 2 * (i - address)
      invariant rsp[..end] == old(rsp[..offset]) + WordBytes(tab[address..i])
    {
      ghost var done := rsp[..end];
      rsp[end] := Hi(tab[i]);
      rsp[end + 1] := Lo(tab[i]);
      end := end + 2;
      assert rsp[..end] == done + [Hi(tab[i]), Lo(tab[i])];
      WordBytesAppend(tab[address..i], tab[i]);
      assert tab[address..i + 1] == tab[address..i] + [tab[i]];
    }
  }

  method ReplyReadRegisters(be: Backend, req: seq<byte>, start: nat, tab: array<word>, address: word,
                            rsp: array<byte>, ghost version: seq<byte>)
    returns (n: nat)
    requires |req| >= be.Header() + 5 && rsp.Length == MAX_MESSAGE_LENGTH
    modifies rsp
    ensures n <= rsp.Length
    ensures var nb: word := Word(req[be.Header() + 3], req[be.Header() + 4]);
      Holds(be, req, ReadRegistersFrom(Table(start, tab[..]), address, nb), version, rsp[..n])
  {
    var nb: word := Word(req[be.Header() + 3], req[be.Header() + 4]);
    var mappingAddress := address - start;
    if nb < 1 || MAX_READ_REGISTERS < nb {
      n := ResponseException(be, req, EXCEPTION_ILLEGAL_DATA_VALUE, rsp, version);
    } else if mappingAddress < 0 || mappingAddress + nb > tab.Length {
      n := ResponseException(be, req, EXCEPTION_ILLEGAL_DATA_ADDRESS, rsp, version);
    } else {
      n := AnswerRegisters(be, req, tab, mappingAddress, nb, rsp, Table(start, tab[..]).Read(address, nb), version);
    }
  }

  lemma HoldsRegisters(be: Backend, req: seq<byte>, basis: seq<byte>, words: seq<word>, version: seq<byte>)
    requires |req| >= be.Header() + 1
    requires Laid(be, basis, Prefix(be, ResponseTid(be, req)), req[be.Header() - 1], [req[be.Header()]])
    ensures Holds(be, req, Registers(words), version, basis + [2 * |words| % 0x100] + WordBytes(words))
  {
    PrefixOfRequest(be, req, Registers(words));
  }

  /** The whole request, without its checksum, as the answer. */
  method EchoRequest(be: Backend, req: seq<byte>, rsp: array<byte>, ghost version: seq<byte>) returns (n: nat)
    requires be.Header() + 1 <= |req| - be.Checksum() <= MAX_MESSAGE_LENGTH && rsp.Length == MAX_MESSAGE_LENGTH
    modifies rsp
    ensures n <= rsp.Length && Holds(be, req, Echo, version, rsp[..n])
  {
    n := |req| - be.Checksum();
    forall i | 0 <= i < n {
      rsp[i] := req[i];
    }
    assert rsp[..n] == req[..n];
  }

  method ReplyWriteBit(be: Backend, req: seq<byte>, start: nat, tab: array<byte>, address: word,
                       rsp: array<byte>, ghost version: seq<byte>)
    returns (n: nat)
    requires |req| >= be.Header() + 5 && rsp.Length == MAX_MESSAGE_LENGTH && rsp != tab
    requires Peek(req, be.Header()) == FC_WRITE_SINGLE_COIL
    modifies rsp, tab
    ensures n <= rsp.Length
    ensures var (r, t) := WriteCoilTo(Table(start, old(tab[..])), address,
                                      Word(req[be.Header() + 3], req[be.Header() + 4]),
                                      |req| == be.Header() + 5 + be.Checksum());
      Holds(be, req, r, version, rsp[..n]) && Table(start, tab[..]) == t
  {
    var mappingAddress := address - start;
    if mappingAddress < 0 || mappingAddress >= tab.Length {
      n := ResponseException(be, req, EXCEPTION_ILLEGAL_DATA_ADDRESS, rsp, version);
    } else if ComputeResponseLength(be, req) != |req| {
      n := ResponseException(be, req, EXCEPTION_ILLEGAL_DATA_VALUE, rsp, version);
    } else {
      var data: word := Word(req[be.Header() + 3], req[be.Header() + 4]);
      if data == 0xFF00 || data == 0 {
        tab[mappingAddress] := if data != 0 then 1 else 0;
        ghost var after := tab[..];
        assert Table(start, after) == Table(start, old(tab[..])).Write(address, [if data == 0 then 0 else 1]);
        n := EchoRequest(be, req, rsp, version);
        assert tab[..] == after;
      } else {
        n := ResponseException(be, req, EXCEPTION_ILLEGAL_DATA_VALUE, rsp, version);
      }
    }
  }

  method ReplyWriteRegister(be: Backend, req: seq<byte>, start: nat, tab: array<word>, address: word,
                            rsp: array<byte>, ghost version: seq<byte>)
    returns (n: nat)
    requires |req| >= be.Header() + 5 && rsp.Length == MAX_MESSAGE_LENGTH
    requires Peek(req, be.Header()) == FC_WRITE_SINGLE_REGISTER
    modifies rsp, tab
    ensures n <= rsp.Length
    ensures var (r, t) := WriteRegisterTo(Table(start, old(tab[..])), address,
                                          Word(req[be.Header() + 3], req[be.Header() + 4]),
                                          |req| == be.Header() + 5 + be.Checksum());
      Holds(be, req, r, version, rsp[..n]) && Table(start, tab[..]) == t
  {
    var mappingAddress := address - start;
    if mappingAddress < 0 || mappingAddress >= tab.Length {
      n := ResponseException(be, req, EXCEPTION_ILLEGAL_DATA_ADDRESS, rsp, version);
    } else if ComputeResponseLength(be, req) != |req| {
      n := ResponseException(be, req, EXCEPTION_ILLEGAL_DATA_VALUE, rsp, version);
    } else {
      tab[mappingAddress] := Word(req[be.Header() + 3], req[be.Header() + 4]);
      n := EchoRequest(be, req, rsp, version);
    }
  }

  method ReplyMaskWrite(be: Backend, req: seq<byte>, start: nat, tab: array<word>, address: word,
                        rsp: array<byte>, ghost version: seq<byte>)
    returns (n: nat)
    requires |req| >= be.Header() + 7 && rsp.Length == MAX_MESSAGE_LENGTH
    requires Peek(req, be.Header()) == FC_MASK_WRITE_REGISTER
    modifies rsp, tab
    ensures n <= rsp.Length
    ensures var (r, t) := MaskWriteTo(Table(start, old(tab[..])), address,
                                      Word(req[be.Header() + 3], req[be.Header() + 4]),
                                      Word(req[be.Header() + 5], req[be.Header() + 6]),
                                      |req| == be.Header() + 7 + be.Checksum());
      Holds(be, req, r, version, rsp[..n]) && Table(start, tab[..]) == t
  {
    var mappingAddress := address - start;
    if mappingAddress < 0 || mappingAddress >= tab.Length {
      n := ResponseException(be, req, EXCEPTION_ILLEGAL_DATA_ADDRESS, rsp, version);
    } else {
      var andMask: word := Word(req[be.Header() + 3], req[be.Header() + 4]);
      var orMask: word := Word(req[be.Header() + 5], req[be.Header() + 6]);
      if ComputeResponseLength(be, req) != |req| {
        n := ResponseException(be, req, EXCEPTION_ILLEGAL_DATA_VALUE, rsp, version);
      } else {
        tab[mappingAddress] := Masked(tab[mappingAddress], andMask, orMask);
        n := EchoRequest(be, req, rsp, version);
      }
    }
  }

  /** The header, and the address and quantity of the request, as the answer. */
  method EchoRange4(be: Backend, req: seq<byte>, rsp: array<byte>, ghost version: seq<byte>) returns (n: nat)
    requires |req| >= be.Header() + 5 + be.Checksum() && rsp.Length == MAX_MESSAGE_LENGTH
    modifies rsp
    ensures n <= rsp.Length && Holds(be, req, EchoRange, version, rsp[..n])
  {
    n := BuildResponseBasis(be, RequestSft(be, req), rsp);
    ghost var basis := rsp[..n];
    rsp[n], rsp[n + 1], rsp[n + 2], rsp[n + 3] := req[n], req[n + 1], req[n + 2], req[n + 3];
    n := n + 4;
    assert rsp[..n] == basis + req[be.Header() + 1..be.Header() + 5];
    HoldsRange(be, req, basis, version);
  }

  lemma HoldsRange(be: Backend, req: seq<byte>, basis: seq<byte>, version: seq<byte>)
    requires |req| >= be.Header() + 5 + be.Checksum()
    requires Laid(be, basis, Prefix(be, ResponseTid(be, req)), req[be.Header() - 1], [req[be.Header()]])
    ensures Holds(be, req, EchoRange, version, basis + req[be.Header() + 1..be.Header() + 5])
  {
    PrefixOfRequest(be, req, EchoRange);
    var h := be.Header();
    assert PduOf(be, req)[..5] == req[h..h + 5];
    assert req[h..h + 5] == [req[h]] + req[h + 1..h + 5];
  }

  method ReplyWriteBits(be: Backend, req: seq<byte>, start: nat, tab: array<byte>, address: word, nb: word,
                        payload: seq<byte>, rsp: array<byte>, ghost version: seq<byte>)
    returns (n: nat)
    requires |req| >= be.Header() + 5 + be.Checksum()
    requires rsp.Length == MAX_MESSAGE_LENGTH && rsp != tab
    modifies rsp, tab
    ensures n <= rsp.Length
    ensures var (r, t) := WriteCoilsTo(Table(start, old(tab[..])), address, nb, payload);
      Holds(be, req, r, version, rsp[..n]) && Table(start, tab[..]) == t
  {
    var mappingAddress := address - start;
    if nb < 1 || MAX_WRITE_BITS < nb || |payload| * 8 < nb {
      n := ResponseException(be, req, EXCEPTION_ILLEGAL_DATA_VALUE, rsp, version);
    } else if mappingAddress < 0 || mappingAddress + nb > tab.Length {
      n := ResponseException(be, req, EXCEPTION_ILLEGAL_DATA_ADDRESS, rsp, version);
    } else {
      SetBitsFromBytes(tab, mappingAddress, nb, payload);
      n := EchoRange4(be, req, rsp, version);
    }
  }

  /** The loop that stores the registers `payload` from `address` on. */
  method StoreRegisters(tab: array<word>, address: nat, nb: nat, payload: seq<byte>)
    requires address + nb <= tab.Length && |payload| == 2 * nb
    modifies tab
    ensures tab[..] == old(tab[..address]) + BytesWords(payload) + old(tab[address + nb..])
  {
    var j: nat := 0;
    for i := address to address + nb
      invariant j == 2 * (i - address)
      invariant forall k :: 0 <= k < tab.Length ==>
        tab[k] == if address <= k < i then BytesWords(payload)[k - address] else old(tab[k])
    {
      tab[i] := Word(payload[j], payload[j + 1]);
      j := j + 2;
    }
  }

  method ReplyWriteRegisters(be: Backend, req: seq<byte>, start: nat, tab: array<word>, address: word, nb: word,
                             payload: seq<byte>, rsp: array<byte>, ghost version: seq<byte>)
    returns (n: nat)
    requires |req| >= be.Header() + 5 + be.Checksum()
    requires rsp.Length == MAX_MESSAGE_LENGTH
    modifies rsp, tab
    ensures n <= rsp.Length
    ensures var (r, t) := WriteRegistersTo(Table(start, old(tab[..])), address, nb, payload);
      Holds(be, req, r, version, rsp[..n]) && Table(start, tab[..]) == t
  {
    var mappingAddress := address - start;
    if nb < 1 || MAX_WRITE_REGISTERS < nb || |payload| != nb * 2 {
      n := ResponseException(be, req, EXCEPTION_ILLEGAL_DATA_VALUE, rsp, version);
    } else if mappingAddress < 0 || mappingAddress + nb > tab.Length {
      n := ResponseException(be, req, EXCEPTION_ILLEGAL_DATA_ADDRESS, rsp, version);
    } else {
      StoreRegisters(tab, mappingAddress, nb, payload);
      n := EchoRange4(be, req, rsp, version);
    }
  }

  /** Stores the registers first, and then lists those asked for. */
  method WriteThenRead(be: Backend, req: seq<byte>, start: nat, tab: array<word>, address: word, nb: word,
                       addressWrite: word, payload: seq<byte>, rsp: array<byte>, ghost version: seq<byte>)
    returns (n: nat)
    requires |req| >= be.Header() + 1 && rsp.Length == MAX_MESSAGE_LENGTH && nb <= MAX_READ_REGISTERS
    requires |payload| % 2 == 0 && Table(start, tab[..]).Covers(addressWrite, |payload| / 2)
    requires Table(start, tab[..]).Covers(address, nb)
    modifies rsp, tab
    ensures n <= rsp.Length
    ensures Table(start, tab[..]) == Table(start, old(tab[..])).Write(addressWrite, BytesWords(payload))
    ensures var written := Table(start, old(tab[..])).Write(addressWrite, BytesWords(payload));
      Holds(be, req, Registers(written.Read(address, nb)), version, rsp[..n])
  {
    ghost var before := tab[..];
    StoreRegisters(tab, addressWrite - start, |payload| / 2, payload);
    ghost var after := tab[..];
    StoredTable(start, before, after, addressWrite, BytesWords(payload));
    ghost var words := Table(start, after).Read(address, nb);
    n := AnswerRegisters(be, req, tab, address - start, nb, rsp, words, version);
    assert tab[..] == after;
  }

  lemma StoredTable(start: nat, before: seq<word>, after: seq<word>, address: word, ws: seq<word>)
    requires Table(start, before).Covers(address, |ws|)
    requires after == before[..address - start] + ws + before[address - start + |ws|..]
    ensures Table(start, after) == Table(start, before).Write(address, ws)
  {
  }

  method ReplyWriteAndRead(be: Backend, req: seq<byte>, start: nat, tab: array<word>, address: word, nb: word,
                           addressWrite: word, nbWrite: word, payload: seq<byte>,
                           rsp: array<byte>, ghost version: seq<byte>)
    returns (n: nat)
    requires |req| >= be.Header() + 1 && rsp.Length == MAX_MESSAGE_LENGTH
    modifies rsp, tab
    ensures n <= rsp.Length
    ensures var (r, t) := WriteReadOn(Table(start, old(tab[..])), address, nb, addressWrite, nbWrite, payload);
      Holds(be, req, r, version, rsp[..n]) && Table(start, tab[..]) == t
  {
    var mappingAddress := address - start;
    var mappingAddressWrite := addressWrite - start;
    if nbWrite < 1 || MAX_WR_WRITE_REGISTERS < nbWrite || nb < 1 || MAX_WR_READ_REGISTERS < nb
       || |payload| != nbWrite * 2 {
      n := ResponseException(be, req, EXCEPTION_ILLEGAL_DATA_VALUE, rsp, version);
    } else if mappingAddress < 0 || mappingAddress + nb > tab.Length
              || mappingAddressWrite < 0 || mappingAddressWrite + nbWrite > tab.Length {
      n := ResponseException(be, req, EXCEPTION_ILLEGAL_DATA_ADDRESS, rsp, version);
    } else {
      n := WriteThenRead(be, req, start, tab, address, nb, addressWrite, payload, rsp, version);
    }
  }

  /** The text of the slave identifier behind the first `at` bytes; its length is filled in at the end. */
  method PutSlaveId(rsp: array<byte>, at: nat, version: seq<byte>) returns (n: nat)
    requires at + 6 + |version| <= rsp.Length
    modifies rsp
    ensures n == at + 6 + |version|
    ensures rsp[..n] == old(rsp[..at]) + [(5 + |version|) % 0x100, REPORT_SLAVE_ID, 0xFF] + LMB + version
  {
    ghost var before := rsp[..at];
    n := at + 1;
    rsp[n], rsp[n + 1] := REPORT_SLAVE_ID, 0xFF;
    n := n + 2;
    ghost var open := rsp[at];
    assert rsp[..n] == before + [open, REPORT_SLAVE_ID, 0xFF];
    var text := LMB + version;
    Copy(rsp, n, text);
    n := n + |text|;
    ghost var filled := rsp[..n];
    rsp[at] := (n - at - 1) % 0x100;
    assert rsp[..n] == filled[at := rsp[at]];
    CountFilledIn(before, open, [REPORT_SLAVE_ID, 0xFF], LMB, version, rsp[at]);
  }

  method ReplyReportSlaveId(be: Backend, req: seq<byte>, rsp: array<byte>, version: seq<byte>) returns (n: nat)
    requires |req| >= be.Header() + 1 && rsp.Length == MAX_MESSAGE_LENGTH && |version| <= MAX_VERSION
    modifies rsp
    ensures n <= rsp.Length && Holds(be, req, SlaveId, version, rsp[..n])
  {
    n := BuildResponseBasis(be, RequestSft(be, req), rsp);
    ghost var basis := rsp[..n];
    n := PutSlaveId(rsp, n, version);
    HoldsSlaveId(be, req, basis, version);
  }

  lemma CountFilledIn(a: seq<byte>, x: byte, b: seq<byte>, c: seq<byte>, d: seq<byte>, y: byte)
    ensures (a + ([x] + b) + (c + d))[|a| := y] == a + ([y] + b) + c + d
  {
  }

  lemma HoldsSlaveId(be: Backend, req: seq<byte>, basis: seq<byte>, version: seq<byte>)
    requires |req| >= be.Header() + 1
    requires Laid(be, basis, Prefix(be, ResponseTid(be, req)), req[be.Header() - 1], [req[be.Header()]])
    ensures Holds(be, req, SlaveId, version, basis + [(5 + |version|) % 0x100, REPORT_SLAVE_ID, 0xFF] + LMB + version)
  {
    PrefixOfRequest(be, req, SlaveId);
  }

  // ---- The switch ------------------------------------------------------------------------

  /** The length check of `modbus_reply`: the declared data counts only when the byte count itself is there. */
  predicate CutShort(be: Backend, req: seq<byte>)
    requires |req| >= be.Header() + 1
  {
    var (h, meta) := (be.Header(), MetaLength(req[be.Header()], Indication));
    var data := if |req| >= h + 1 + meta then DataLength(req[h..], Indication) + be.Checksum() else 0;
    |req| < h + 1 + meta + data
  }

  lemma CutShortIff(be: Backend, req: seq<byte>)
    requires |req| >= be.Header() + 1
    ensures CutShort(be, req) <==> Decode(be, req).Truncated?
    ensures !CutShort(be, req) ==> Arrived(PduOf(be, req)) && Decode(be, req) == DecodePdu(PduOf(be, req))
    ensures !CutShort(be, req) ==> |req| == be.Header() + |PduOf(be, req)| + be.Checksum()
  {
    var h, meta := be.Header(), MetaLength(req[be.Header()], Indication);
    var n := |req| - h - be.Checksum();
    if n >= 1 + meta {
      var pdu := req[h..h + n];
      assert pdu[0] == req[h];
      assert forall i :: 0 <= i < 1 + meta ==> pdu[i] == req[h..][i];
    }
  }

  lemma SliceOfPdu(be: Backend, req: seq<byte>, i: nat, j: nat)
    requires |req| > be.Header() + be.Checksum() && i <= j <= |PduOf(be, req)|
    ensures PduOf(be, req)[i..j] == req[be.Header() + i..be.Header() + j]
    ensures forall k :: 0 <= k < j ==> PduOf(be, req)[k] == req[be.Header() + k]
  {
    var h := be.Header();
    forall k | 0 <= k < j
      ensures PduOf(be, req)[k] == req[h + k]
    {
      assert req[h..|req| - be.Checksum()][k] == req[h + k];
    }
  }

  lemma DecodedPair(be: Backend, req: seq<byte>)
    requires |req| >= be.Header() + 1 && !CutShort(be, req) && req[be.Header()] in {1, 2, 3, 4, 5, 6}
    ensures var (h, f) := (be.Header(), req[be.Header()]);
      && |req| >= h + 5
      && var (a, n) := (Word(req[h + 1], req[h + 2]), Word(req[h + 3], req[h + 4]));
         var exact := |req| == h + 5 + be.Checksum();
         Decode(be, req) == if f <= 2 then ReadBits(f == 2, a, n)
                            else if f <= 4 then ReadRegisters(f == 4, a, n)
                            else if f == 5 then WriteCoil(a, n, exact)
                            else WriteRegister(a, n, exact)
  {
    CutShortIff(be, req);
    SliceOfPdu(be, req, 0, 5);
  }

  lemma DecodedMultiple(be: Backend, req: seq<byte>)
    requires |req| >= be.Header() + 1 && !CutShort(be, req)
    requires req[be.Header()] == FC_WRITE_MULTIPLE_COILS || req[be.Header()] == FC_WRITE_MULTIPLE_REGISTERS
    ensures var h := be.Header();
      && |req| >= h + 6 && |req| >= h + 6 + req[h + 5] + be.Checksum()
      && var (a, n) := (Word(req[h + 1], req[h + 2]), Word(req[h + 3], req[h + 4]));
         var payload := req[h + 6..h + 6 + req[h + 5]];
         Decode(be, req) == if req[h] == FC_WRITE_MULTIPLE_COILS then WriteCoils(a, n, payload)
                            else WriteRegisters(a, n, payload)
  {
    CutShortIff(be, req);
    var h, pdu := be.Header(), PduOf(be, req);
    SliceOfPdu(be, req, 6, 6 + pdu[5] as int);
  }

  lemma DecodedMask(be: Backend, req: seq<byte>)
    requires |req| >= be.Header() + 1 && !CutShort(be, req) && req[be.Header()] == FC_MASK_WRITE_REGISTER
    ensures var h := be.Header();
      && |req| >= h + 7
      && Decode(be, req) == MaskWrite(Word(req[h + 1], req[h + 2]), Word(req[h + 3], req[h + 4]),
                                      Word(req[h + 5], req[h + 6]), |req| == h + 7 + be.Checksum())
  {
    CutShortIff(be, req);
    SliceOfPdu(be, req, 0, 7);
  }

  lemma DecodedWriteRead(be: Backend, req: seq<byte>)
    requires |req| >= be.Header() + 1 && !CutShort(be, req) && req[be.Header()] == FC_WRITE_AND_READ_REGISTERS
    ensures var h := be.Header();
      && |req| >= h + 10 && |req| >= h + 10 + req[h + 9]
      && Decode(be, req) == WriteRead(Word(req[h + 1], req[h + 2]), Word(req[h + 3], req[h + 4]),
                                      Word(req[h + 5], req[h + 6]), Word(req[h + 7], req[h + 8]),
                                      req[h + 10..h + 10 + req[h + 9]])
  {
    CutShortIff(be, req);
    var h, pdu := be.Header(), PduOf(be, req);
    SliceOfPdu(be, req, 10, 10 + pdu[9] as int);
  }

  /** The reply has been made: the buffer holds the answer, and the memory is what the request leaves. */
  predicate Made(be: Backend, req: seq<byte>, before: Memory, after: Memory, version: seq<byte>, m: seq<byte>)
    requires |req| >= be.Header() + 1
  {
    var (r, left) := Execute(Decode(be, req), before);
    Holds(be, req, r, version, m) && after == left
  }

  /** A case of the switch has done its operation on the coils, or on the holding registers. */
  lemma MadeOnCoils(be: Backend, req: seq<byte>, q: Request, before: Memory, r: Response, t: Table<byte>,
                    version: seq<byte>, m: seq<byte>)
    requires |req| >= be.Header() + 1 && Decode(be, req) == q
    requires Execute(q, before) == (r, before.(coils := t)) && Holds(be, req, r, version, m)
    ensures Made(be, req, before, before.(coils := t), version, m)
  {
  }

  lemma MadeOnHolding(be: Backend, req: seq<byte>, q: Request, before: Memory, r: Response, t: Table<word>,
                      version: seq<byte>, m: seq<byte>)
    requires |req| >= be.Header() + 1 && Decode(be, req) == q
    requires Execute(q, before) == (r, before.(holding := t)) && Holds(be, req, r, version, m)
    ensures Made(be, req, before, before.(holding := t), version, m)
  {
  }

  predicate Apart(rsp: array<byte>, mapping: Mapping)
  {
    rsp.Length == MAX_MESSAGE_LENGTH && rsp != mapping.tabBits && rsp != mapping.tabInputBits
  }

  method MakeReadOrSingle(be: Backend, req: seq<byte>, mapping: Mapping, rsp: array<byte>, ghost version: seq<byte>)
    returns (n: nat)
    requires |req| >= be.Header() + 1 && !CutShort(be, req) && req[be.Header()] in {1, 2, 3, 4, 5, 6}
    requires mapping.Valid() && Apart(rsp, mapping)
    modifies rsp, mapping.tabBits, mapping.tabRegisters
    ensures n <= rsp.Length && Made(be, req, old(mapping.Tables()), mapping.Tables(), version, rsp[..n])
  {
    DecodedPair(be, req);
    var f := req[be.Header()];
    var address: word := Word(req[be.Header() + 1], req[be.Header() + 2]);
    if f == FC_READ_COILS {
      n := ReplyReadBits(be, req, mapping.startBits, mapping.tabBits, address, rsp, version);
    } else if f == FC_READ_DISCRETE_INPUTS {
      n := ReplyReadBits(be, req, mapping.startInputBits, mapping.tabInputBits, address, rsp, version);
    } else if f == FC_READ_HOLDING_REGISTERS {
      n := ReplyReadRegisters(be, req, mapping.startRegisters, mapping.tabRegisters, address, rsp, version);
    } else if f == FC_READ_INPUT_REGISTERS {
      n := ReplyReadRegisters(be, req, mapping.startInputRegisters, mapping.tabInputRegisters, address, rsp, version);
    } else if f == FC_WRITE_SINGLE_COIL {
      n := ReplyWriteBit(be, req, mapping.startBits, mapping.tabBits, address, rsp, version);
    } else {
      n := ReplyWriteRegister(be, req, mapping.startRegisters, mapping.tabRegisters, address, rsp, version);
    }
  }

  method MakeMultiple(be: Backend, req: seq<byte>, mapping: Mapping, rsp: array<byte>, ghost version: seq<byte>)
    returns (n: nat)
    requires |req| >= be.Header() + 1 && !CutShort(be, req)
    requires req[be.Header()] == FC_WRITE_MULTIPLE_COILS || req[be.Header()] == FC_WRITE_MULTIPLE_REGISTERS
    requires mapping.Valid() && Apart(rsp, mapping)
    modifies rsp, mapping.tabBits, mapping.tabRegisters
    ensures n <= rsp.Length && Made(be, req, old(mapping.Tables()), mapping.Tables(), version, rsp[..n])
  {
    DecodedMultiple(be, req);
    var h := be.Header();
    var address: word, nb: word := Word(req[h + 1], req[h + 2]), Word(req[h + 3], req[h + 4]);
    var payload := req[h + 6..h + 6 + req[h + 5]];
    if req[h] == FC_WRITE_MULTIPLE_COILS {
      n := MakeWriteBits(be, req, mapping, address, nb, payload, rsp, version);
    } else {
      n := MakeWriteRegisters(be, req, mapping, address, nb, payload, rsp, version);
    }
  }

  method MakeWriteBits(be: Backend, req: seq<byte>, mapping: Mapping, address: word, nb: word, payload: seq<byte>,
                       rsp: array<byte>, ghost version: seq<byte>)
    returns (n: nat)
    requires |req| >= be.Header() + 5 + be.Checksum() && Decode(be, req) == WriteCoils(address, nb, payload)
    requires mapping.Valid() && Apart(rsp, mapping)
    modifies rsp, mapping.tabBits
    ensures n <= rsp.Length && Made(be, req, old(mapping.Tables()), mapping.Tables(), version, rsp[..n])
  {
    ghost var before := mapping.Tables();
    ghost var (r, t) := WriteCoilsTo(before.coils, address, nb, payload);
    n := ReplyWriteBits(be, req, mapping.startBits, mapping.tabBits, address, nb, payload, rsp, version);
    MadeOnCoils(be, req, WriteCoils(address, nb, payload), before, r, t, version, rsp[..n]);
    assert mapping.Tables() == before.(coils := t);
  }

  method MakeWriteRegisters(be: Backend, req: seq<byte>, mapping: Mapping, address: word, nb: word,
                            payload: seq<byte>, rsp: array<byte>, ghost version: seq<byte>)
    returns (n: nat)
    requires |req| >= be.Header() + 5 + be.Checksum() && Decode(be, req) == WriteRegisters(address, nb, payload)
    requires mapping.Valid() && Apart(rsp, mapping)
    modifies rsp, mapping.tabRegisters
    ensures n <= rsp.Length && Made(be, req, old(mapping.Tables()), mapping.Tables(), version, rsp[..n])
  {
    ghost var before := mapping.Tables();
    ghost var (r, t) := WriteRegistersTo(before.holding, address, nb, payload);
    n := ReplyWriteRegisters(be, req, mapping.startRegisters, mapping.tabRegisters, address, nb, payload, rsp, version);
    MadeOnHolding(be, req, WriteRegisters(address, nb, payload), before, r, t, version, rsp[..n]);
    assert mapping.Tables() == before.(holding := t);
  }

  method MakeMask(be: Backend, req: seq<byte>, mapping: Mapping, rsp: array<byte>, ghost version: seq<byte>)
    returns (n: nat)
    requires |req| >= be.Header() + 1 && !CutShort(be, req) && req[be.Header()] == FC_MASK_WRITE_REGISTER
    requires mapping.Valid() && Apart(rsp, mapping)
    modifies rsp, mapping.tabBits, mapping.tabRegisters
    ensures n <= rsp.Length && Made(be, req, old(mapping.Tables()), mapping.Tables(), version, rsp[..n])
  {
    DecodedMask(be, req);
    n := ReplyMaskWrite(be, req, mapping.startRegisters, mapping.tabRegisters,
                        Word(req[be.Header() + 1], req[be.Header() + 2]), rsp, version);
  }

  method MakeBoth(be: Backend, req: seq<byte>, mapping: Mapping, rsp: array<byte>, ghost version: seq<byte>)
    returns (n: nat)
    requires |req| >= be.Header() + 1 && !CutShort(be, req) && req[be.Header()] == FC_WRITE_AND_READ_REGISTERS
    requires mapping.Valid() && Apart(rsp, mapping)
    modifies rsp, mapping.tabBits, mapping.tabRegisters
    ensures n <= rsp.Length && Made(be, req, old(mapping.Tables()), mapping.Tables(), version, rsp[..n])
  {
    DecodedWriteRead(be, req);
    var h := be.Header();
    n := MakeWriteAndRead(be, req, mapping, Word(req[h + 1], req[h + 2]), Word(req[h + 3], req[h + 4]),
                          Word(req[h + 5], req[h + 6]), Word(req[h + 7], req[h + 8]),
                          req[h + 10..h + 10 + req[h + 9]], rsp, version);
  }

  method MakeWriteAndRead(be: Backend, req: seq<byte>, mapping: Mapping, address: word, nb: word,
                          addressWrite: word, nbWrite: word, payload: seq<byte>,
                          rsp: array<byte>, ghost version: seq<byte>)
    returns (n: nat)
    requires |req| >= be.Header() + 1
    requires Decode(be, req) == WriteRead(address, nb, addressWrite, nbWrite, payload)
    requires mapping.Valid() && Apart(rsp, mapping)
    modifies rsp, mapping.tabRegisters
    ensures n <= rsp.Length && Made(be, req, old(mapping.Tables()), mapping.Tables(), version, rsp[..n])
  {
    ghost var before := mapping.Tables();
    ghost var (r, t) := WriteReadOn(before.holding, address, nb, addressWrite, nbWrite, payload);
    n := ReplyWriteAndRead(be, req, mapping.startRegisters, mapping.tabRegisters, address, nb, addressWrite, nbWrite,
                           payload, rsp, version);
    MadeOnHolding(be, req, WriteRead(address, nb, addressWrite, nbWrite, payload), before, r, t, version, rsp[..n]);
    assert mapping.Tables() == before.(holding := t);
  }

  method MakeReply(be: Backend, req: seq<byte>, mapping: Mapping, rsp: array<byte>, version: seq<byte>)
    returns (n: nat)
    requires |req| >= be.Header() + 1 && |version| <= MAX_VERSION
    requires mapping.Valid() && Apart(rsp, mapping)
    modifies rsp, mapping.tabBits, mapping.tabRegisters
    ensures n <= rsp.Length && Made(be, req, old(mapping.Tables()), mapping.Tables(), version, rsp[..n])
  {
    CutShortIff(be, req);
    var f := req[be.Header()];
    if CutShort(be, req) {
      n := ResponseException(be, req, EXCEPTION_ILLEGAL_DATA_VALUE, rsp, version);
    } else if 1 <= f <= 6 {
      n := MakeReadOrSingle(be, req, mapping, rsp, version);
    } else if f == FC_WRITE_MULTIPLE_COILS || f == FC_WRITE_MULTIPLE_REGISTERS {
      n := MakeMultiple(be, req, mapping, rsp, version);
    } else if f == FC_REPORT_SLAVE_ID {
      n := ReplyReportSlaveId(be, req, rsp, version);
    } else if f == FC_MASK_WRITE_REGISTER {
      n := MakeMask(be, req, mapping, rsp, version);
    } else if f == FC_WRITE_AND_READ_REGISTERS {
      n := MakeBoth(be, req, mapping, rsp, version);
    } else {
      n := ResponseException(be, req, EXCEPTION_ILLEGAL_FUNCTION, rsp, version);
    }
  }

  /** `modbus_reply`: refuses a request without a function code; otherwise it leaves the tables and sends
      the frame that `Server.Reply` gives for the request bytes, which is none for an RTU broadcast. */
  method ModbusReply(ctx: Modbus, req: seq<byte>, mapping: Mapping, version: seq<byte>) returns (rc: int)
    requires mapping.Valid() && |version| <= MAX_VERSION
    modifies ctx`sends, ctx`lastSend, ctx`errno, mapping.tabBits, mapping.tabRegisters
    ensures |req| < ctx.be.Header() + 1 ==>
      rc == -1 && ctx.errno == EMBBADDATA && ctx.sends == old(ctx.sends) && mapping.Tables() == old(mapping.Tables())
    ensures |req| >= ctx.be.Header() + 1 ==>
      var (after, sent) := Reply(ctx.be, ctx.answerBroadcast, version, old(mapping.Tables()), req);
      && mapping.Tables() == after
      && ctx.sends == old(ctx.sends) + sent
      && if sent == [] then rc == 0 && ctx.errno == old(ctx.errno)
         else SendCode(rc, ctx.lastSend, |sent[0]|, ctx.errno, ctx.reliable)
  {
    if |req| < ctx.be.Header() + 1 {
      ctx.errno := EMBBADDATA;
      return -1;
    }
    var rsp := new byte[MAX_MESSAGE_LENGTH];
    var n := MakeReply(ctx.be, req, mapping, rsp, version);
    ResponseFits(ctx.be, req, old(mapping.Tables()), version);
    if ctx.be.Rtu? && req[0] == BROADCAST_ADDRESS && !ctx.answerBroadcast {
      return 0;
    }
    ghost var r := Execute(Decode(ctx.be, req), old(mapping.Tables())).0;
    FinishLaid(ctx.be, rsp[..n], ResponsePrefix(ctx.be, req, r), req[ctx.be.Header() - 1],
               ResponsePdu(PduOf(ctx.be, req), r, version));
    rc := SendMsg(ctx, rsp, n);
  }
}
