# libmodbus in Dafny

A model of the protocol logic of libmodbus, with proofs of what it is for: a client call comes back with
what the server's memory holds, whatever the framing, the way the bytes arrive, or the gateway in between.

| file | what it models |
|---|---|
| `Bytes.dfy`, `Bits.dfy` | bytes, 16-bit registers, the bitwise operators on integers, and the packing of bits |
| `Crc.dfy`, `CrcTables.dfy`, `Detection.dfy` | CRC-16 as a division of bits, the two-table form of `src/modbus-rtu.c`, and the errors that it detects |
| `Protocol.dfy`, `Streams.dfy` | function codes, limits, the two framings, and where a frame ends in a stream of bytes |
| `Wire.dfy` | what is on the wire, byte by byte and in plain numbers, and what becomes of damaged frames |
| `Context.dfy` | `modbus_t`, its link, and the code that receives a message piece by piece and sends one |
| `Memory.dfy`, `Server.dfy`, `Runs.dfy` | the meaning of a request on four tables of addresses and values, the server as a function, and runs of requests |
| `Mapping.dfy`, `Data.dfy`, `Reply.dfy` | `modbus_mapping_t` as arrays, the loops of `src/modbus-data.c`, and `modbus_reply` case by case, writing in place |
| `Client.dfy`, `Acceptance.dfy`, `Calls.dfy`, `ClientHalf.dfy`, `Commands.dfy` | request encoding and `check_confirmation` as functions, what an accepted answer is known to be, the client calls with their buffers, and what they make of a genuine answer |
| `EndToEnd.dfy`, `Session.dfy`, `Programs.dfy` | client, framing and server together: as functions, as the code of both ends, and for whole programs of calls |
| `Transactions.dfy` | the transaction identifiers of a TCP client |
| `Bus.dfy`, `BusServer.dfy` | a slave among others on a serial line: `_modbus_rtu_receive` and its flag `confirmation_to_ignore`, and the loop of a server around it |
| `Gateway.dfy`, `Proxy.dfy`, `GatewaySession.dfy` | `modbus_proxy`, as a function of frames and as code, and the code of client, gateway and server together |

How the model is built:

- Code that changes state is written as methods on arrays and on the class `Modbus`, and every such method is
  tied by its postcondition to a function of the bytes alone. The theorems are about these functions.
- A link is the bytes that have yet to arrive. `Recv` delivers any non-empty part of what is asked for, or the
  end of the connection, or an error or timeout, without the caller knowing which. `reliable` restricts it to
  delivering while bytes are pending, and sending to taking a message whole; what a contract says without it
  holds on any link.
- A loop or a switch that is long in C is cut into methods along its steps or cases: `_modbus_receive_msg` into
  `RecvPiece`, `NextStep`, `GoOn`, `Turn` and `ReadFrame`, and `modbus_reply` into a method per function code.
- The functions that both ends share, such as the framing of a PDU, are pinned in plain numbers and independently
  of their definitions: frames, PDUs and lengths in `Wire.dfy`, exception codes in `Runs.dfy`, verdicts on answers in
  `Gateway.dfy`.
- Buffers that the C code only reads (`const uint8_t *req`, `src`) are sequences.
- Slave addresses, transaction identifiers, register values, addresses and quantities are limited to the widths
  they have on the wire. Exception codes wrap at 256 as in a `uint8_t`.

Where the documentation and the code differ, the code is followed: `docs/modbus_read_bits.md:32` and
`docs/modbus_write_registers.md:31` promise `EINVAL` for `nb < 1` where the code sets `EMBXILVAL`, and
`docs/modbus_reply.md:33` promises `EMBMDATA` for a failed sending where the code passes on the error of the link.

Some properties do not hold for every input. Each is stated with the exact condition, and with a witness:

- The framer derives the length of a response from its function code. For a request whose function code has its
  top bit set, the exception offset wraps around and the response can look like another function's:
  `EndToEnd.ReplyCompleteIff`, `Bus.NeighbourIff`, `Bus.WrappedNeighbour`.
- `check_confirmation` halves the byte count of registers, so without the framer an odd count passes:
  `Acceptance.AcceptedIff`, `Acceptance.ByteCountIff`, `Acceptance.OddCountPasses`.
- Behind a gateway an RTU client fails on an answer of another unit, which a TCP link lets pass, also when it
  asked unit 0: `Gateway.SameOutcomeIff`, `Gateway.ForeignUnit`, `Gateway.UnitZero`.
- A foreign request that nobody answers leaves a slave waiting. It takes the next request for the response, unless
  the response timeout or an error ends the wait before that request begins to arrive:
  `Bus.NextIsConfirmation`, `Bus.SwallowedRequest`, `Bus.InStepAgainIff`.

- A client call that gets no answer does not always fail. Short of a whole answer, it returns 0, and the calls that
  read bits the number asked for (`src/modbus.c:1513-1516`), exactly when the link has taken nothing of the request
  and reported no error; the destination is untouched then and nothing has been received. This is the clause
  `LinkFailed` in the contract of every call; `lastSend` is what the link took.

## Model

| member | source | states |
|---|---|---|
| Crc.StepMeaning | src/modbus-rtu.c:119-133 | one step of the reference division shifts right, and subtracts the polynomial exactly when a one falls out |
| Crc.CrcIsDivision | src/modbus-rtu.c:119-133 | the byte-wise CRC is the bit-by-bit division, by the reflected polynomial 0xA001, of the bits in the order of transmission, from any start value |
| CrcTables.TablesHoldSteps | src/modbus-rtu.c:33-74 | each of the 256 entries of both tables is the high or low byte of eight steps of the bitwise division |
| CrcTables.ComputeCrc16 | src/modbus-rtu.c:119-133 | the two-table loop computes, for every message, the division of its bits with the register preset to 0xFFFF |
| CrcTables.KnownFrame | src/modbus-rtu.c:119-151 | the CRC bytes of the request 01 03 00 00 00 01 are 84 0A |
| CrcTables.CheckCrc | src/modbus-rtu.c:377-400 | the comparison of the integrity check holds exactly for frames that end in their CRC, low byte first |
| CrcTables.AppendCrc | src/modbus-rtu.c:141-151 | the two CRC bytes are put behind the message, low byte first, and nothing else changes |
| Crc.ResidueIff | src/modbus-rtu.c:383-400 | a frame passes the check exactly when the division of the whole frame, from 0xFFFF, leaves zero |
| Crc.AppendedCrcIsValid | src/modbus-rtu.c:141-151 | a message with its CRC appended passes |
| Crc.DivideAffine | src/modbus-rtu.c:119-133 | the registers of two bit streams differ by the division of their difference |
| Detection.FrameBitsOfSum | src/modbus-rtu.c:119-133 | the bits of the bytewise exclusive or of two messages are where their bits differ |
| Detection.CrcAffine | src/modbus-rtu.c:119-133 | the CRC of the bytewise exclusive or of two messages is the exclusive or of the CRC of one and the zero-initialised CRC of the other |
| Crc.DivideKeepsOdd | src/modbus-rtu.c:119-133 | the register keeps the parity of the bits fed to it |
| Crc.BurstLeavesRemainder | src/modbus-rtu.c:119-133 | no burst of at most sixteen bits divides to zero, wherever it lies |
| Crc.ErrorsDetected | src/modbus-rtu.c:377-400 | a valid frame altered in an odd number of bits, or by any burst of at most sixteen, is rejected |
| Detection.NeighboursDetected | src/modbus-rtu.c:377-400 | a valid frame in which one byte or two neighbouring ones are changed, CRC included, is rejected |
| Wire.TcpFrame | src/modbus-tcp.c:107-174 | a TCP frame byte by byte: transaction, protocol zero, the length of what follows, unit, PDU |
| Wire.RtuFrame | src/modbus-rtu.c:94-151 | an RTU frame: unit, PDU, and the two bytes with which the whole divides to zero |
| Wire.RequestsSayLength | src/modbus-tcp.c:165-174 | the MBAP length of every request, sent or passed on, is the number of bytes behind it |
| Wire.RepliesSayLength | src/modbus-tcp.c:165-174 | so is that of every answer of the server |
| Wire.RelaysSayLength | src/modbus-tcp.c:165-174 | and that of everything a gateway sends to its client |
| Wire.IntegrityCode | src/modbus-rtu.c:377-412 | -1 exactly if the frame does not divide to zero, 0 for another unit than the own and 0, otherwise the length |
| Wire.RefusedIffCorrupt | src/modbus-rtu.c:383-400 | a framed message of either kind is refused exactly if it does not divide to zero |
| Wire.CorruptAnswerFails | src/modbus-rtu.c:383-400 | a client fails with the CRC error on such an answer |
| Wire.LongAnswerFails | src/modbus.c:517-521 | and with the data error on one that announces too much |
| Wire.AlteredRefused | src/modbus-rtu.c:377-400 | a valid frame altered in an odd number of bits or by a burst, and still framed, is refused by every receiver |
| Wire.ReplacedRefused | src/modbus-rtu.c:377-400 | so is one in which one byte or two neighbouring ones are replaced |
| Wire.FramedIff | src/modbus.c:280-351 | a stream brings a frame exactly when it has the bytes that it announces by function code and count, at most 256 or 260 |
| Wire.TooManyIff | src/modbus.c:517-521 | it is refused for its length exactly when it announces more |
| Wire.TruncatedIff | src/modbus.c:845-876 | a request is cut short exactly when it lacks bytes that it announces |
| Wire.RequestBytes | src/modbus.c:1448-1978 | the bytes of every request that the client calls build |
| Wire.RegisterBytes | src/modbus.c:957-961 | registers are sent high byte first |
| Wire.BitValue | src/modbus-data.c:43-76 | bit k of a byte is its quotient by the k-th power of two, modulo two |
| Wire.AnswerBytes | src/modbus.c:763-1244 | the bytes of every kind of answer, the exception with its top bit set |
| Bits.PackByteBit | src/modbus.c:737-760 | a packed byte has the cells as its bits, in order, and zero padding above them |
| Bits.PackUnpacked | src/modbus-data.c:43-57 | packing what was unpacked gives the bytes back |
| Bits.UnpackPacked | src/modbus.c:1474-1484 | unpacking what was packed gives the cells back, for any number of them |
| Data.SetBitsFromByte | src/modbus-data.c:32-39 | eight cells become the bits of the byte, all others stay |
| Data.SetBitsFromBytes | src/modbus-data.c:43-57 | exactly the cells from idx to idx + nb become the bits of the bytes, all others stay |
| Data.GetByteFromBits | src/modbus-data.c:61-76 | the result is the packing of at most eight cells, cut to a byte |
| Data.ByteRoundTrip | src/modbus-data.c:32-76 | a byte spread over eight cells is read back |
| Data.ResponseIoStatus | src/modbus.c:737-760 | the cells are packed behind the bytes already in the response |
| Data.PackSource | src/modbus.c:1725-1744 | the packing loops of a client write give the same packing, of any source in which non-zero means on |
| Protocol.FrameIgnoresRest | src/modbus.c:280-351 | where a frame ends, or that it is too long, is decided by the bytes taken and no later ones |
| Protocol.FrameNeedsAll | src/modbus.c:428-541 | and not before the last of them |
| Protocol.SealFramed | src/modbus.c:280-351 | a complete PDU in its framing is found again, whole, at the head of any stream |
| Streams.FramesOfConcat | src/modbus.c:365-547 | a concatenation of frames decodes to the same list of frames |
| Context.Modbus.SetSlave | src/modbus-tcp.c:87-105 | which units may be set, and that a refusal changes nothing but errno; the RTU form differs for 255 only |
| Context.NextStep | src/modbus.c:507-527 | the step machine with its fall-through: the next target is the one the bytes read call for, the step moves on, and "too many data" is reported exactly at the bytes that announce it |
| Context.ReadOn | src/modbus.c:428-541 | reading on within a step leaves the target right, which never exceeds the longest frame |
| Context.ReadingFrame | src/modbus.c:428-541 | nothing is decided short of the target, and the last target is the end of the frame |
| Context.GoOn | src/modbus.c:507-527 | when a step is complete the loop goes on to a later one, or gives up at exactly the bytes that announce too much |
| Context.Turn | src/modbus.c:428-541 | one turn of the loop keeps all of this and decreases (steps left, bytes to read) |
| Context.ReadFrame | src/modbus.c:365-547 | the loop terminates with exactly one frame in the buffer, or gives up with nothing decided or a frame too long |
| Context.ReceiveMsg | src/modbus.c:365-547 | for every way the bytes may arrive: if the receiver has taken all it takes to decide, code and errno are those of the stream, and otherwise the link has failed with its own error; the buffer holds the bytes taken and is untouched beyond them |
| Context.CheckIntegrity | src/modbus-rtu.c:377-412 | -1 for a wrong CRC, 0 for another unit, otherwise the length |
| Context.SendMsg | src/modbus.c:169-226 | the message is completed and handed over exactly once; the code and the error are those of what the link took, a part taken being an error |
| Context.SendMsgPre | src/modbus-tcp.c:165-174 | CRC or MBAP length is put where it belongs, nothing else changes |
| Client.EncodeDecode | src/modbus.c:1448-1978 | the server decodes every request that the client calls build to itself |
| EndToEnd.RequestArrives | src/modbus.c:802-880 | also in its frame, for both framings |
| Runs.RefusalCode | src/modbus.c:845-1254 | which exception refuses a request: for several cells 3 exactly for a bad quantity or byte count, otherwise 2 exactly for an address outside the table; for one cell 2 exactly for such an address, otherwise 3 exactly for a bad value or length; 1 exactly for an unknown function; 3 for a truncated request |
| Runs.KnownFunctions | src/modbus.c:880-1254 | which function codes the server knows |
| Runs.ReadAnswers | src/modbus.c:881-963 | each read answers with the cells of its own table at its addresses, shifted by the start address |
| Runs.RefusedIff | src/modbus.c:802-1244 | a request is refused exactly when its quantity or value is out of range, an address lies outside the shifted tables, bytes are missing or too many, or the function is unknown |
| Runs.ChangesAddressedOnly | src/modbus.c:802-1244 | an exception changes nothing, any other answer the addressed cells only |
| Runs.WrittenCoil | src/modbus.c:964-1086 | what a coil write leaves at each address it names |
| Runs.WrittenRegister | src/modbus.c:1015-1244 | what a register write leaves at each address it names |
| Runs.MaskWriteBit | src/modbus.c:1150-1188 | a mask write takes each bit from the register or from the OR mask, as the AND mask says |
| Runs.ReadsAfterWriting | src/modbus.c:1189-1244 | write-and-read answers with the registers as written |
| Runs.CoilsReadBack | src/modbus.c:881-1086 | what a coil write has put, packed or single, is what a read of the same addresses answers |
| Runs.WordsReadBack | src/modbus.c:919-1244 | what any register write has put is what a read of the same addresses answers |
| Runs.ServeKeeps | src/modbus.c:802-1265 | over any run of arbitrary requests coils stay 0 or 1, the input tables never change, and tables keep place and size |
| Server.EchoIsWithinRequest | src/modbus.c:826-877 | an echo is given only for a request whose fields are all there |
| Server.ReplyTotal | src/modbus.c:802-1265 | every request with a function code is executed and answered exactly once within the longest frame, RTU broadcasts executed but not answered |
| Server.SlaveIdFitsIff | src/modbus.c:1126-1141 | the slave identifier fits exactly for version texts of at most 246 characters |
| MappingTables.NewMapping | src/modbus.c:2209-2298 | a table above 65536 is refused with EINVAL, and a new mapping is all zero at the given start addresses |
| ReplyCode.BuildResponseBasis | src/modbus-tcp.c:138-158 | header and function code of a response, transaction of the request, protocol zero |
| ReplyCode.ResponseException | src/modbus.c:763-794 | an exception response to the request, function plus 0x80 |
| ReplyCode.CutShortIff | src/modbus.c:845-876 | the length check before the switch refuses exactly the requests with bytes missing, and reads no byte count that is not there |
| ReplyCode.ReplyReadBits | src/modbus.c:881-918 | the response to a read of bits |
| ReplyCode.ReplyReadRegisters | src/modbus.c:919-963 | the response to a read of registers |
| ReplyCode.ReplyWriteBit | src/modbus.c:964-1014 | one coil, in place, and the echo; the address is checked before the length and the value |
| ReplyCode.ReplyWriteRegister | src/modbus.c:1015-1049 | one register, in place, and the echo |
| ReplyCode.ReplyWriteBits | src/modbus.c:1050-1086 | a range of coils, in place |
| ReplyCode.ReplyWriteRegisters | src/modbus.c:1087-1125 | a range of registers, in place |
| ReplyCode.ReplyReportSlaveId | src/modbus.c:1126-1141 | the identifier, with the length filled in last |
| ReplyCode.ReplyMaskWrite | src/modbus.c:1150-1188 | one register under two masks, in place |
| ReplyCode.ReplyWriteAndRead | src/modbus.c:1189-1244 | the write before the read |
| ReplyCode.ModbusReply | src/modbus.c:802-1265 | tables and frame sent are those of executing the request on the addresses and values of the tables; the code is that of the sending, or 0 when nothing is sent |
| EndToEnd.ReplyCompleteIff | src/modbus.c:280-351 | the confirmation framer finds the length of every response that the server sends, except where the function code wraps around |
| EndToEnd.LengthAgrees | src/modbus.c:133-166 | the length computed from a client's request is that of the normal response (slave identifier excepted) |
| EndToEnd.AnswerJudged | src/modbus.c:578-735 | the genuine answer is accepted with the right count, and exception c becomes the error MODBUS_ENOBASE + c |
| EndToEnd.AnswerDecoded | src/modbus.c:1474-1588 | the decoders give back the values that the server read |
| EndToEnd.RequestServed | src/modbus.c:802-1265 | a client's frame is executed and answered under its own identifiers by a complete response |
| EndToEnd.RemoteCall | src/modbus.c:1448-1932 | for both framings and whatever follows on the line: the server's memory becomes that of the local operation, and the client gets its count and values, or the error number of its exception |
| EndToEnd.StrangeTcpAnswer | src/modbus-tcp.c:200-229 | a TCP client rejects a frame of another transaction or with a protocol other than zero |
| EndToEnd.StrangeRtuAnswer | src/modbus-rtu.c:353-372 | an RTU client rejects the intact answer of another unit |
| Gateway.VerdictInBytes | src/modbus.c:578-735 | in bytes and numbers, which answers are accepted and with which count, and with which error each other one is rejected |
| Gateway.IdentifierVerdict | src/modbus.c:578-735 | the same for the slave identifier |
| Client.JudgeLocal | src/modbus.c:578-735 | the judgement of a framed answer rests on received bytes only |
| Acceptance.CheckLocal | src/modbus.c:578-735 | `check_confirmation` on whole buffers sees the request sent and the frame received, and nothing behind them |
| Acceptance.DoneRead | src/modbus.c:578-735 | an accepted answer to a read has exactly the byte count and the bytes that the decoder takes |
| Acceptance.DoneSlaveId | src/modbus.c:674-676 | an accepted slave identifier has the bytes it announces |
| Acceptance.AcceptedIff | src/modbus.c:656-662 | without framing, exactly the right byte count and the next odd one are accepted for registers |
| Acceptance.ByteCountIff | src/modbus.c:656-662 | the count is right exactly if the answer is one message |
| Acceptance.OddCountPasses | src/modbus.c:656-662 | every register read has an odd-count answer that the check alone accepts |
| Calls.BuildRequestBasis | src/modbus-tcp.c:107-136 | the counter moves on in TCP, and the five bytes are laid out behind the header |
| Calls.DecodeBits | src/modbus.c:1474-1484 | exactly the nb cells of the destination are filled, from received bytes |
| Calls.DecodeWords | src/modbus.c:1585-1588 | exactly the nb registers of the destination are filled, from received bytes |
| Calls.AwaitAnswer | src/modbus.c:1464-1472 | what the call makes of the stream, on the buffers, is what it makes of the stream as a value |
| Calls.ReadIoStatus | src/modbus.c:1448-1489 | one request is sent; the destination changes only for an accepted answer, to its bits; short of a whole answer the code is -1, or 0 exactly if nothing was taken |
| Calls.ReadBitsCall | src/modbus.c:1492-1545 | the same for both tables, with the number of bits as the result; on any link a completed exchange fills the destination or returns its error, and short of one the result is -1, or nb exactly if nothing of the request was taken |
| Calls.ReadRegistersCall | src/modbus.c:1550-1645 | one request is sent; the destination changes only for an accepted answer, to its registers |
| Calls.WriteBitCall | src/modbus.c:1648-1685 | the request sent and the result, from the stream alone |
| Calls.WriteRegisterCall | src/modbus.c:1648-1697 | the request sent and the result, from the stream alone |
| Calls.WriteBitsCall | src/modbus.c:1699-1760 | the request carries the source packed; the result, from the stream alone |
| Calls.WriteRegistersCall | src/modbus.c:1762-1808 | the request carries the source, high bytes first; the result, from the stream alone |
| Calls.MaskWriteCall | src/modbus.c:1810-1852 | the masks take the place of the quantity |
| Calls.WriteAndReadCall | src/modbus.c:1855-1934 | both ranges are sent; the destination changes only for an accepted answer |
| Calls.ReportSlaveIdCall | src/modbus.c:1936-1977 | at most max_dest received bytes are copied, the rest of the destination stays |
| Session.ServeOne | src/modbus.c:550-560 | one turn of a server on any link, receive and reply: it answers exactly when it has received a whole request for it, and otherwise changes and sends nothing; while the link holds it receives what has arrived whole; the code is that of the reply or of the reception |
| Session.ServeCorrupt | src/modbus-rtu.c:383-400 | a server whose next frame does not divide to zero executes nothing and sends nothing |
| Session.Served | src/modbus.c:802-1265 | when the client's request is what the server has before it, the server executes it, and what it sends is what the client has before it |
| Session.CallTells | src/modbus.c:1448-1932 | what a client's call is told when its server answers, for every request |
| Session.RemoteReadBits | src/modbus.c:1492-1545 | the code of both ends together: reading bits remotely is reading the table; what either end sends is what the other receives |
| Session.RemoteReadRegisters | src/modbus.c:1550-1645 | the code of both ends together: reading registers remotely is reading the table |
| Session.RemoteWriteBits | src/modbus.c:1699-1760 | the code of both ends together: writing coils remotely is writing the table |
| Session.RemoteWriteRegisters | src/modbus.c:1762-1808 | the code of both ends together: writing registers remotely is writing the table |
| Session.RemoteWriteBit | src/modbus.c:1677-1685 | the code of both ends together: writing one coil remotely is writing it |
| Session.RemoteWriteRegister | src/modbus.c:1688-1697 | the code of both ends together: writing one register remotely is writing it |
| Session.RemoteMaskWrite | src/modbus.c:1810-1852 | the code of both ends together: a remote mask write is the local one |
| Session.RemoteWriteAndRead | src/modbus.c:1855-1934 | the code of both ends together: the write, then the read |
| Session.RemoteReportSlaveId | src/modbus.c:1936-1977 | the code of both ends together: the destination gets the server's identifier, run indicator and text, or as much as is asked for |
| EndToEnd.AnswerIdentifies | src/modbus.c:1126-1141 | the bytes behind the count of such an answer are the identifier, whatever follows |
| ClientHalf.GetBits | src/modbus.c:1492-1545 | what the code makes of a genuine answer, wherever it comes from: result, error and bits are those of the operation |
| ClientHalf.GetRegisters | src/modbus.c:1550-1645 | the same for registers |
| ClientHalf.SendBits | src/modbus.c:1699-1760 | the same for writing coils |
| ClientHalf.SendRegisters | src/modbus.c:1762-1808 | the same for writing registers |
| ClientHalf.SendBit | src/modbus.c:1677-1685 | the same for one coil |
| ClientHalf.SendRegister | src/modbus.c:1688-1697 | the same for one register |
| ClientHalf.MaskRegister | src/modbus.c:1810-1852 | the same for a mask write |
| ClientHalf.SendAndGetRegisters | src/modbus.c:1855-1934 | the same for write-and-read |
| ClientHalf.GetSlaveId | src/modbus.c:1936-1977 | the same for the slave identifier, with its bytes |
| Commands.Perform | src/modbus.c:1448-1977 | the same for any call, chosen at run time |
| Programs.AnswerFramed | src/modbus.c:365-547 | the answer to a call is one frame, whatever follows it, so the next answer is found behind it |
| Programs.ServeFrames | src/modbus.c:802-1265 | a server that is sent the frames of a list of calls ends with the memory of the operations in order |
| Programs.RunProgram | src/modbus.c:1448-1977 | the code of both ends together, for any list of calls one after another on one link: the memory becomes that of the operations in order, every result is that of its own operation, and exactly the frames of the calls and their answers are sent |
| Transactions.TidFormula | src/modbus-tcp.c:112-116 | the identifier of the n-th request after a counter value, across wrap-around |
| Transactions.TidRepeatsIff | src/modbus-tcp.c:112-116 | two requests share an identifier exactly when a multiple of 65536 lies between them |
| Transactions.LateReply | src/modbus-tcp.c:200-229 | a late answer to any of the previous 65535 requests is rejected, the genuine one passes |
| Bus.StaysInStep | src/modbus-rtu.c:319-340 | on any line of well-formed exchanges every request is parsed as a request and every foreign response as a response, over the whole run |
| Bus.DeliveredLog | src/modbus-rtu.c:319-340 | exactly the requests for this slave or for all are returned, in order |
| Bus.MemoryAfterRun | src/modbus-rtu.c:319-340 | the slave's memory after a run is that of serving those requests alone |
| Bus.NextIsConfirmation | src/modbus-rtu.c:319-340 | after a foreign request whatever comes next is parsed as its response |
| Bus.SwallowedRequest | src/modbus-rtu.c:319-340 | a request to this slave that is lost in this way, for every unanswered foreign request |
| Bus.InStepAgainIff | src/modbus-rtu.c:324-327 | after an unanswered request the log of what follows is right exactly if the wait has ended and has taken no byte |
| Bus.NeighbourIff | src/modbus-rtu.c:319-340 | another server of this library is a good neighbour, except for function codes that wrap around |
| Bus.WrappedNeighbour | src/modbus-rtu.c:319-340 | function code 0x83 breaks step |
| Bus.LogStep | src/modbus-rtu.c:319-340 | what one call takes and returns is one entry of the log, and the rest of the log is that of the rest of the stream |
| Bus.RtuReceive | src/modbus-rtu.c:319-340 | one call takes and returns just that when it gets all the bytes; if the link fails first its error resets the flag; the error number of a refused frame is given |
| BusServer.Hear | src/modbus-rtu.c:319-340 | on a line of well-formed exchanges one call hears the next message as what it is |
| BusServer.ServeLine | src/modbus-rtu.c:319-340 | the loop of receive and reply on such a line: tables and frames sent become those of serving exactly the addressed requests, in order |
| Gateway.RelayedFrame | src/modbus.c:1413-1444 | for every pairing of framings a relayed response carries the backend's unit and PDU under the client's transaction, and is framed and intact |
| Gateway.DirectOutcome | src/modbus.c:1378-1411 | what the client would make of a response that the gateway relays, at the other link |
| Gateway.RelayedOutcome | src/modbus.c:1413-1444 | what it makes of the relayed response, through framing, integrity and check, whatever follows |
| Gateway.SameOutcomeIff | src/modbus.c:1303-1445 | the two are the same unless an RTU client gets the answer of a unit it did not ask; with unit 0 asked, they are still the same for answers whose bytes are refused anyway and for slave identifiers |
| Gateway.IgnoredIff | src/modbus.c:598-735 | of the answers to a request that asked unit 0, exactly those of which the bytes are neither a known exception nor a normal answer, and the slave identifiers, have the same verdict whether ignored or not |
| Gateway.ForeignUnit | src/modbus-rtu.c:353-408 | every other relayed answer of another unit that a TCP client accepts fails for an RTU client, for the unit or, with unit 0 asked, as no answer |
| Gateway.UnitZero | src/modbus-rtu.c:402-408 | unit 0 asked and unit 5 answering is such a case |
| Gateway.RefusalReported | src/modbus.c:1267-1298 | the gateway's own exception reaches the client as the error MODBUS_ENOBASE plus its code, for any call and framing |
| Gateway.CallThroughGateway | src/modbus.c:1303-1445 | client, gateway and server together: the server's answer is relayed and the call reports the local operation |
| ProxyCode.SendRawRequest | src/modbus.c:230-266 | unit, function and data in the framing of the link, or EINVAL for a length outside 2 to 254 |
| ProxyCode.ReplyException | src/modbus.c:1267-1298 | the exception response, or EINVAL for a code that is none |
| ProxyCode.ModbusProxy | src/modbus.c:1303-1445 | past the length check the client is answered exactly once: if the whole response was received, with that response, or with 0x0B for a failed pre-check or an ignored frame and 0x0A for a broken one; otherwise with 0x0B exactly for a timeout and 0x0A for any other failure; the backend is sent the same unit and PDU under transaction zero |
| ProxyCode.AnsweredInBytes | src/modbus.c:1364-1445 | from the bytes of the other link: 0x0A for a frame that is too long or corrupt, 0x0B for one of another unit, transaction or protocol, otherwise the response |
| GatewaySession.CallRefused | src/modbus.c:1337-1408 | the code of client and gateway: a gateway that cannot relay answers exactly once, with 0x0A or 0x0B, and the client's call, whichever it is, returns -1 with that error |
| Commands.Issue | src/modbus.c:1448-1977 | any call returns -1 with the error, if what comes to it makes it fail |
| GatewaySession.PassOn | src/modbus.c:1303-1445 | the gateway receives a request and, when the genuine answer is on its way, relays it |
| GatewaySession.CallThrough | src/modbus.c:1303-1445 | the code of client, gateway and server together, for any call and pairing of framings: the memory becomes that of the operation, the client gets its result, and each message sent is the next that its receiver had |

## Left out

- Sockets, serial ports, select, RTS timing, connecting and accepting: replaced by the bytes that arrive and by arbitrary errors.
- Error recovery (reconnecting, sleeping, flushing) and the flush after an illegal value: the model is that of `MODBUS_ERROR_RECOVERY_NONE`, and a flush would only drop bytes that have already arrived.
- The timeouts: a timeout is one of the errors that `Recv` may give at any time on a link that is not reliable.
- NULL arguments, `malloc` failing, debug output, `modbus_strerror`, getters and setters other than the slave.
- The float functions of `src/modbus-data.c`: they permute four bytes.
- Start addresses that are negative as an `int`, and addresses outside 0 to 65535 given to a client call.
- Tables of size zero are empty arrays, where the C code has NULL.
- The same context on both sides of a gateway.
- Session.Served: is about reliable links, on which both ends get their bytes; on other links the contracts of Calls and Session.ServeOne say what each end does.
