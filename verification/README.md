# Modbus, DSO and two codecs, verified

This project models four parts of the repository and proves what they promise.

**libmodbus, client and server together.** A client call builds a request, a backend seals it (a CRC in RTU, an MBAP
header in TCP), a three-step machine reads it back from a stream that arrives in arbitrary pieces, `modbus_reply`
executes it on four tables and builds a reply, and the client frames, checks and decodes that reply. The main result is
`EndToEnd.SessionRefines`: for every sequence of calls, over either backend, the values or error numbers returned and
the tables left are those of an abstract machine of four arrays (section 6 of the MODBUS Application Protocol
Specification V1.1b) in which there is no message at all; `Calls.InsideTheLimits` and `Calls.OutsideTheLimits` say cell
by cell, and in the numbers of the protocol, what that comes to. `Exchange.Perform` says the same of the code on its
buffers, with both ends running and the link free to cut the octets as it likes or to fail, and `ServerLoop.Run` of the
loop of a server program. `ModbusOctets` states the messages on the way octet by octet, and `ModbusOctets.ServerObeys`
what a server does with any of them. Around it: what the CRC detects, that framing does not depend on fragmentation,
that a station on a shared RTU line serves its own requests and no others, that a TCP client takes no reply that is up
to 65535 requests late for an answer, and what no sequence of received frames can do to a server.

**The DSO engine and transport of mDNSResponder.** The TLV builder with its one uncopied splice, the gathering write
behind a two-octet length, the stream reassembler, the TLV parser, the table of outstanding queries, the two linked
lists that own connections, and the bounded address queue. The main results are `DsoRoundTrip.SentIsReceived` and
`DsoExchange.Exchange`, `DsoRead.DeliversIff`, `DsoReceive.Endpoint.MessageReceived`,
`DsoQueries.Queries.OutstandingIff`, `DsoConnections.OnExactlyOne` and `DsoAddresses.ConnectState.TriedInOrder`.

**The register-table codec** of the control logic, which shares its registers with `modbus_reply`, and **the bounded
base 64 encoder** of dns-sd.

Code that loops or updates memory is a method on arrays or on a class, proved against a function of the old state; the
laws are lemmas about those functions. Frames are sequences of octets; an octet is an integer below 256, except in
`Crc`, `CrcDetection` and `CrcTwoBits`, where it is a bit vector. What the source promises and what it does differ in
nine places, and the model follows the code:

- Function 0x17 tests the read address twice and the write address only at its upper end. A request that passes the
  tests is not to write below the start of the table (`Server.Supported`), which holds for every request when the
  registers start at zero. `ServerSafety.WriteInsideIff` says that this is exactly what is needed,
  `EndToEnd.SupportedIff` says the same of a call, and `ServerSafety.WriteBelowTheTable` is a request that shows it.
- The exception reply to a function code above 0x7F carries the code modulo 256, and some of those replies cannot be
  delimited by a client: `ServerSafety.ReplyIsMessageIff` says which, and `ServerSafety.ExceptionNotDelimited` is one.
- A response that was ignored for its slave is handed on with length 0 to be rejected, and one kind is not:
  `Client.IgnoredAcceptedIff` says which, and `Client.UnreadCrcAccepted` is one.
- The bound in the TLV loop leaves out the four octets of the TLV's own header, so that the loop may read up to four
  octets behind the end of a message. `Tlvs.OverrunIff` says for which messages it does, `Tlvs.DependsOnBehindIff` for
  which of them what is there matters, and `Tlvs.PayloadBehindTheEnd` is one. No built message is one
  (`DsoRoundTrip.BuiltParses`).
- The TLVs of a message stay in place when the next message is a request without any: `DsoReceive.StaleTlvSeen`, and
  `DsoReceive.SeesOwnTlvsIff` for when the callback sees the message's own.
- A message that is not DSO goes to the callback with the two event types exchanged:
  `DsoReceive.Endpoint.DnsMessageReceived`.
- A two-octet length that arrives in two reads is started over and not resumed: `DsoRead.DeliversIff` says that a stream
  is delivered as it was sent exactly when this does not happen.
- An IPv6 address is copied from where an IPv4 address would lie, which is four octets too early:
  `DsoAddresses.WrongAddressCopied`, and `DsoAddresses.CopiedIff` for when the right one comes out all the same.
- The guard of the register table looks at the first register of a value alone, by its Modbus address, and the table is
  indexed by that address as it is: `RegisterTable.GuardSufficesIff` and `RegisterTable.LastRegisterOverrun`.

`dafny verify dfyconfig.toml` checks the whole project.

## Model

| member | source | states |
|---|---|---|
| Crc.Crc16 | library/libmodbus/src/modbus-rtu.c:132-146 | The two-table loop returns, for a buffer of any length, the register that the octets drive one at a time, high half first |
| Crc.TableEntry | library/libmodbus/src/modbus-rtu.c:31-88 | Each of the 256 entries of the two tables is what eight shift-and-xor steps with 0xA001 make of its index |
| Crc.CrcIsBitwise | library/libmodbus/src/modbus-rtu.c:132-146 | For messages of every length the byte-wise register equals the bit-by-bit reflected CRC (polynomial 0xA001, preset 0xFFFF) of section 6.2.2 of MODBUS over Serial Line V1.02 |
| CrcDetection.SealMatches | library/libmodbus/src/modbus-rtu.c:155-162 | A frame sealed by the sender passes the receiver's CRC test |
| CrcDetection.ZeroResidue | library/libmodbus/src/modbus-rtu.c:132-146 | Two octets leave the register at zero exactly when they are the register's own halves, high half first |
| CrcDetection.MatchIsZeroResidue | library/libmodbus/src/modbus-rtu.c:398-402 | The CRC test succeeds exactly when the register driven over the whole frame, CRC included, is zero |
| CrcDetection.AdjacentCorruptionDetected | library/libmodbus/src/modbus-rtu.c:381-416 | A frame that passes the CRC test and is altered in any two adjacent octets, wherever they lie, does not pass it again |
| CrcDetection.BurstDetected | library/libmodbus/src/modbus-rtu.c:381-416 | Nor does a frame altered by a burst of at most sixteen bits, at whatever bit it begins |
| CrcDetection.OddCorruptionDetected | library/libmodbus/src/modbus-rtu.c:381-416 | Nor does a frame altered in an odd number of bits |
| CrcTwoBits.LowestBitNeverLone | library/libmodbus/src/modbus-rtu.c:132-146 | The lowest bit of the register, driven over octets of zero, does not come back to a single bit of the half that the next octet meets, for as many octets as a frame has |
| CrcTwoBits.FlippedBitNeverLone | library/libmodbus/src/modbus-rtu.c:132-146 | What one flipped bit of any octet leaves in the register cannot be undone by flipping one bit of any later octet of the frame |
| CrcTwoBits.TwoBitsDetected | library/libmodbus/src/modbus-rtu.c:381-416 | No frame of at most 256 octets, the longest in RTU, passes the CRC test again with any two of its bits flipped |
| Backend.SealedKeeps | library/libmodbus/src/modbus-tcp.c:127-163 | Sealing keeps the PDU and the unit identifier, and in TCP the transaction identifier and a zero protocol identifier, and writes the length of what follows into the MBAP header |
| Backend.SealedPasses | library/libmodbus/src/modbus-rtu.c:381-416 | A frame sealed for a slave passes that slave's test of integrity |
| Backend.CorruptionRejected | library/libmodbus/src/modbus-rtu.c:381-416 | For every slave, the integrity test of an RTU frame altered in two adjacent octets, by a burst of at most sixteen bits, in any two bits, or in an odd number of bits returns -1 or 0, never a length |
| ModbusOctets.FrameSpelled | library/libmodbus/src/modbus-tcp.c:95-163 | A sealed frame octet by octet: in RTU the slave, the PDU and a CRC that matches; in TCP the identifier, two zeros, the length of what follows, the unit and the PDU |
| ModbusOctets.KnownCrc | library/libmodbus/src/modbus-rtu.c:132-162 | The CRC of [2, 7] is 0x1241, and its low octet goes out first |
| Framing.Link.Recv | library/libmodbus/src/modbus.c:368-412 | The link: an error, an end of stream, or any number of octets from 1 to the number asked for, taken from the front of what is pending |
| Framing.NextStepOnTrack | library/libmodbus/src/modbus.c:440-463 | Whatever the switch of the receive loop decides from the octets read so far is right for the whole stream, and it stops exactly for a message that announces more than the ADU |
| Framing.ReceiveMsg | library/libmodbus/src/modbus.c:341-482 | Whatever pieces the link delivers: the loop ends, consumes exactly one frame, returns its octets and the verdict on it, leaves the rest of the stream, and says why when it returns -1 |
| Framing.MessageIffComplete | library/libmodbus/src/modbus.c:253-325 | A stretch of octets is one message exactly when its PDU is as long as it announces and it fits the ADU |
| Framing.FrameOfPrefix | library/libmodbus/src/modbus.c:253-325 | Once decided, the end of a message does not depend on the octets that follow |
| Framing.BackToBack | library/libmodbus/src/modbus.c:341-482 | Messages sent back to back are cut into the same sequence of messages, whatever follows them |
| ModbusOctets.CompleteIff | library/libmodbus/src/modbus.c:253-325 | How long a PDU announces itself to be, in figures: for every function code, of a request and of a response |
| ModbusOctets.MessageIff | library/libmodbus/src/modbus.c:341-482 | A frame is one message exactly when it is at most 256 octets in RTU or 260 in TCP and its PDU is complete |
| ModbusOctets.TooLongIff | library/libmodbus/src/modbus.c:440-463 | A reception is given up for its length exactly when the octet count just read takes the frame over those 256 or 260 octets, and what has been consumed ends with that count |
| Packing.UnpackPack | library/libmodbus/src/modbus.c:644-668 | Unpacking undoes packing for every number of cells, multiples of eight or not |
| Packing.OctetFromItsBits | library/libmodbus/src/modbus-data.c:75-119 | The eight bits of an octet give the octet back |
| Packing.RegistersRoundTrip | library/libmodbus/src/modbus.c:1180-1184 | Registers sent high octet first are rebuilt unchanged |
| ModbusOctets.BitsInFigures | library/libmodbus/src/modbus-data.c:75-82 | Bit k of an octet has the weight 1, 2, 4 and so on to 128 |
| ModbusOctets.PackCarries | library/libmodbus/src/modbus.c:644-668 | Packed octets carry cell k in bit k % 8 of octet k / 8, for any nonzero cell, and zeros behind the last |
| ModbusOctets.RegisterBytesCarry | library/libmodbus/src/modbus.c:792-795 | Two octets a register, the quotient by 256 first and the remainder second |
| BitLoops.SetBitsFromBytes | library/libmodbus/src/modbus-data.c:86-98 | The cells from the index on become the bits of the octets, for any number of bits, and no other cell changes |
| BitLoops.SetBitsFromByte | library/libmodbus/src/modbus-data.c:75-82 | Eight cells become the bits of one octet, low bit first, and no other cell changes |
| BitLoops.GetByteFromBits | library/libmodbus/src/modbus-data.c:102-119 | The low octet of the cells or-ed together, each shifted to its place, for cells of any value; eight of them when more are asked for |
| BitLoops.StoredBitIff | library/libmodbus/src/modbus-data.c:114-116 | A bit of that octet is set exactly when some cell has it set at its own place |
| BitLoops.PackCellsOfBits | library/libmodbus/src/modbus.c:644-668 | For cells that are 0 or 1 the octets are those of the packing above |
| BitLoops.TakeCell | library/libmodbus/src/modbus.c:653-662 | One turn of the loop: the cell, whatever its value, joins the octet under construction, which is stored when it is full |
| BitLoops.ResponseIoStatus | library/libmodbus/src/modbus.c:644-668 | The response gets, at the offset given, the octets that exactly the cells asked for are or-ed into, whatever their values, and no other octet changes |
| ClientLoops.PutOctet | library/libmodbus/src/modbus.c:1326-1339 | One octet of a write request: up to eight cells, a nonzero cell as ON, with the count of tests the loop condition leaves behind |
| ClientLoops.PutBits | library/libmodbus/src/modbus.c:1325-1340 | The request gets the packed 0/1-normalised cells, for every number of cells, and nothing else changes |
| ClientLoops.PutWords | library/libmodbus/src/modbus.c:1387-1390 | The request gets the registers high octet first |
| ClientLoops.TakeOctet | library/libmodbus/src/modbus.c:1072-1078 | Up to eight cells of the caller's array become the bits of one response octet |
| ClientLoops.TakeBits | library/libmodbus/src/modbus.c:1069-1080 | The first nb cells of the caller's array become the bits of the response, and no other cell changes |
| ClientLoops.TakeWords | library/libmodbus/src/modbus.c:1178-1184 | The front of the caller's array becomes the registers of the response, and nothing else changes |
| ClientLoops.TakeOctets | library/libmodbus/src/modbus.c:1554-1560 | As many octets as arrived, or as the caller has room for |
| Reply.Mapping.constructor | library/libmodbus/src/modbus.c:1771-1853 | Four tables of zeros with the given first addresses |
| Reply.SendMsgPre | library/libmodbus/src/modbus-rtu.c:155-162 | What is sent is the message sealed: CRC behind it in RTU, its length in the MBAP header in TCP |
| Reply.BuildResponseBasis | library/libmodbus/src/modbus-tcp.c:127-147 | Header and function octet of a response, with the transaction identifier and slave of the request |
| Reply.ResponseException | library/libmodbus/src/modbus.c:671-699 | An exception response: the function with 0x80 added in eight bits, and the code |
| Reply.ReplyReadBits | library/libmodbus/src/modbus.c:734-764 | Functions 0x01 and 0x02 answer as specified: value error, address error, or the packed cells |
| Reply.AnswerBits | library/libmodbus/src/modbus.c:758-761 | The octet count and the packed cells behind the header |
| Reply.ReplyReadRegisters | library/libmodbus/src/modbus.c:765-798 | Functions 0x03 and 0x04 answer as specified |
| Reply.PutRegisters | library/libmodbus/src/modbus.c:792-795 | The response gets the registers asked for, high octet first, and no other octet changes |
| Reply.AnswerRegisters | library/libmodbus/src/modbus.c:790-795 | The octet count and the registers behind the header |
| Reply.ReplyWriteBit | library/libmodbus/src/modbus.c:799-823 | Function 0x05: the one coil is set or cleared and the request echoed, or an exception leaves the tables as they were |
| Reply.ReplyWriteRegister | library/libmodbus/src/modbus.c:824-841 | Function 0x06: the one register is written and the request echoed, or an exception leaves the tables as they were |
| Reply.CopyRequest | library/libmodbus/src/modbus.c:837-838 | The echo of a request is the request without its checksum |
| Reply.ReplyWriteBits | library/libmodbus/src/modbus.c:842-873 | Function 0x0F: exactly the addressed coils take the bits of the request; address and quantity are answered |
| Reply.StoreBits | library/libmodbus/src/modbus.c:864-865 | The coils written are the addressed ones, the bit table keeps to 0 and 1, and the other tables stay |
| Reply.ReplyWriteRegisters | library/libmodbus/src/modbus.c:874-904 | Function 0x10: exactly the addressed registers take the words of the request |
| Reply.TakeRegisters | library/libmodbus/src/modbus.c:892-896 | Registers are stored high octet first from the request, and no other register changes |
| Reply.RepeatQuantity | library/libmodbus/src/modbus.c:867-870 | The response repeats the address and the quantity of the request |
| Reply.ReplyReportSlaveId | library/libmodbus/src/modbus.c:905-921 | Function 0x11 answers the slave identifier, the run indicator and the version string behind their count |
| Reply.ReplyMaskWrite | library/libmodbus/src/modbus.c:929-948 | Function 0x16: the register becomes (data AND and-mask) OR (or-mask AND NOT and-mask), and the request is echoed |
| Reply.ReplyWriteAndRead | library/libmodbus/src/modbus.c:949-993 | Function 0x17: the write is done first and the answer reads the table after it |
| Reply.WriteThenRead | library/libmodbus/src/modbus.c:974-990 | The registers answered are those of the table after the write |
| Reply.Dispatch | library/libmodbus/src/modbus.c:732-1000 | Tables and unsealed response of every request are those of the specification of its function code |
| Reply.ModbusReply | library/libmodbus/src/modbus.c:707-1005 | On the arrays of the mapping and the response buffer: the new tables and the sealed frame are those of the server's specification, which executes every request; -1 is returned exactly for function 0x07 and 0 exactly for a broadcast in RTU, both with nothing sent, and the bit tables keep to 0 and 1 |
| Calls.AnsweredIff | library/libmodbus/src/modbus.c:707-1005 | Every frame received is executed, one for all slaves as well, and there is an answer unless it is function 0x07 or, in RTU, for all slaves |
| Calls.BroadcastExecutes | library/libmodbus/src/modbus.c:707-1005 | A call made to the broadcast address of an RTU line: every slave leaves the tables of the abstract machine and sends nothing |
| ModbusOctets.ServerObeys | library/libmodbus/src/modbus.c:732-1000 | Whatever complete PDU arrives, its exception or its answer and every cell of the tables are those of section 6 of the protocol, with function codes, quantities, exception codes and the order of the tests in figures |
| ModbusOctets.ReplySpelled | library/libmodbus/src/modbus.c:671-1005 | The frame of an answer: slave or unit, identifier and length as the request has them, then the answer, the request itself, or the function with 0x80 added and the exception code |
| ServerSafety.ExecuteSafe | library/libmodbus/src/modbus.c:732-1000 | An exception leaves every table as it was, input tables and extents never change, and a cell changes only if the request addresses it for writing |
| ServerSafety.RunSafe | library/libmodbus/src/modbus.c:707-1005 | Over every run of received frames, a cell differs from its start only if some frame of the run addressed it for writing |
| ServerSafety.ReplyFits | library/libmodbus/src/modbus.c:707-1005 | The sealed reply fits the maximum ADU of the backend |
| ServerSafety.ReplyPduComplete | library/libmodbus/src/modbus.c:671-699 | A reply PDU is one that a client can delimit exactly for the function codes whose exception keeps a function octet that announces its length |
| ServerSafety.ReplyIsMessageIff | library/libmodbus/src/modbus.c:253-325 | A client receives the server's reply whole exactly for those function codes; every function of the protocol is among them |
| ServerSafety.ExceptionNotDelimited | library/libmodbus/src/modbus.c:693-698 | Function 0x85 is refused with function 0x05, whose framing waits for more octets |
| ServerSafety.EveryFrameAcceptable | library/libmodbus/src/modbus.c:1855-1860 | With registers that start at zero, as modbus_mapping_new makes them, every received frame is executed within the tables |
| ServerSafety.WriteInsideIff | library/libmodbus/src/modbus.c:957-967 | For a request of function 0x17 that passes the tests of its quantities and its addresses, the cells written lie in the table exactly when the write address is not below its start |
| ServerSafety.WriteBelowTheTable | library/libmodbus/src/modbus.c:957-967 | Registers 10 to 19: a request PDU that passes both tests and writes register 9, and the same with a quantity of zero, which is refused |
| Client.RequestComplete | library/libmodbus/src/modbus.c:1043-1561 | Every call builds a PDU exactly as long as it announces, of at most 253 octets |
| Client.RequestIsMessage | library/libmodbus/src/modbus.c:1043-1561 | The sealed request of every call is one message for the server, passes its slave's integrity test and keeps its PDU, slave and identifier |
| Client.ConfirmationSound | library/libmodbus/src/modbus.c:513-642 | For an arbitrary delivered response: accepted means its function is the request's, its quantity matches where it carries one, and every octet the read loops use lies inside it |
| Client.AcceptedIff | library/libmodbus/src/modbus.c:513-642 | For every request a client can make and whatever is delivered: accepted exactly when slave or identifier match, the function is the request's, and length and repeated quantity are those of the request |
| Client.ExceptionIff | library/libmodbus/src/modbus.c:534-553 | A call ends with the errno of an exception exactly when that exception is what the slave answered |
| Client.IgnoredAcceptedIff | library/libmodbus/src/modbus.c:513-642 | A response that the integrity test ignored is rejected, but for the identity of whichever slave answers a broadcast request for it |
| Client.UnreadCrcAccepted | library/libmodbus/src/modbus.c:513-642 | A broadcast request for the identity and an answer of slave 5 that is accepted with any CRC |
| Client.AcceptedIsDecodable | library/libmodbus/src/modbus.c:1062-1184 | An accepted response is long enough for the loop of the call that asked |
| Client.RequestKind | library/libmodbus/src/modbus.c:1043-1561 | Function octet and quantity of the requests whose answers are decoded |
| Calls.RefusedIff | library/libmodbus/src/modbus.c:1088-1534 | The client refuses, before it sends anything, exactly the calls with more than 2000 bits or 125 registers to read, 1968 bits or 123 registers to write, 121 to write or 125 to read at once, and an identity with no room for it |
| ModbusOctets.RequestSpelled | library/libmodbus/src/modbus.c:1043-1550 | The PDU of every call octet by octet, function codes in figures, each 16-bit field as quotient and remainder by 256, and its cells behind them |
| ModbusOctets.CheckSpelled | library/libmodbus/src/modbus.c:513-642 | What is not accepted, and with which error number: another slave, another transaction or protocol identifier, an exception that is the slave's and one that is not, and any other mismatch |
| ModbusOctets.TurnSpelled | library/libmodbus/src/modbus.c:341-482 | The error numbers of a call whose answer is cut short, too long, or damaged |
| ModbusOctets.DecodeSpelled | library/libmodbus/src/modbus.c:1062-1560 | What a call takes out of an accepted answer: each bit by its place, each register as 256 times the first octet plus the second, the identity as far as there is room |
| EndToEnd.MaskedIsSelect | library/libmodbus/src/modbus.c:938-943 | The mask-write expression takes each bit from the register where the AND mask is set and from the OR mask where it is clear (section 6.16) |
| EndToEnd.CheckException | library/libmodbus/src/modbus.c:534-553 | An exception of the server is the errno of the client |
| EndToEnd.CheckBits | library/libmodbus/src/modbus.c:579-587 | A well-counted bit response is accepted with its octet count |
| EndToEnd.CheckRegisters | library/libmodbus/src/modbus.c:588-594 | A well-counted register response is accepted with the quantity asked for |
| EndToEnd.CheckCount | library/libmodbus/src/modbus.c:595-600 | The answer to a multiple write is accepted with the quantity written |
| EndToEnd.CheckEcho | library/libmodbus/src/modbus.c:605-611 | An echo is accepted |
| EndToEnd.ReadBitsRefines | library/libmodbus/src/modbus.c:734-764 | PDU for PDU, reading bits does what the abstract machine does |
| EndToEnd.ReadRegistersRefines | library/libmodbus/src/modbus.c:765-798 | The same for registers |
| EndToEnd.WriteOneRefines | library/libmodbus/src/modbus.c:799-948 | The same for single writes and mask writes |
| EndToEnd.WriteBitsRefines | library/libmodbus/src/modbus.c:842-873 | The same for coils |
| EndToEnd.WriteRegistersRefines | library/libmodbus/src/modbus.c:874-904 | The same for registers written |
| EndToEnd.WriteAndReadRefines | library/libmodbus/src/modbus.c:949-993 | The same for write-and-read, where the read sees the write (section 6.17) |
| EndToEnd.SupportedIff | library/libmodbus/src/modbus.c:957-967 | What is asked of a call, should it be one of function 0x17 with nothing else wrong, is what its request needs to be executed within the tables, neither more nor less |
| EndToEnd.PduRefinement | library/libmodbus/src/modbus.c:707-1519 | For every call the server's execution of the client's request and the client's reading of the reply are those of an abstract machine of four arrays |
| EndToEnd.ServerAnswers | library/libmodbus/src/modbus.c:707-1005 | A server that receives the frame of a call answers with the sealed reply to its PDU |
| EndToEnd.ClientAccepts | library/libmodbus/src/modbus.c:513-642 | A client that receives that frame comes to the outcome of the PDUs |
| EndToEnd.TransactRefines | library/libmodbus/src/modbus.c:707-1519 | Frame for frame, in RTU and in TCP: the tables and the outcome of one call are those of the abstract machine, whose limits and error numbers stand in figures |
| EndToEnd.SessionRefines | library/libmodbus/src/modbus.c:707-1519 | For every sequence of calls, the values or errno they return and the final tables are those of the abstract machine, whatever the first transaction identifier |
| Calls.InsideTheLimits | library/libmodbus/src/modbus.c:707-1561 | For a quantity inside the limits of section 6, written as numbers, and cells that exist, one call and a session of it return exactly those cells, or leave exactly those cells written with the values given, every other cell as it was |
| Calls.OutsideTheLimits | library/libmodbus/src/modbus.c:707-1561 | Above the limits nothing is written and the error number is EMBMDATA, for an identity with no room EINVAL, for a quantity of zero EMBXILVAL, for missing cells EMBXILADD, each as a number |
| EndToEnd.BitsReadBack | library/libmodbus/src/modbus.c:1088-1350 | Coils written are read back as 0 or 1 and no other coil changes |
| EndToEnd.RegistersReadBack | library/libmodbus/src/modbus.c:1145-1404 | Registers written are read back and no other register changes |
| Exchange.Context.BuildRequestBasis | library/libmodbus/src/modbus-tcp.c:95-124 | The transaction identifier advances by one with its 16-bit wrap in TCP, and header, function, address and quantity lie in the buffer |
| Exchange.Context.BuildRequest | library/libmodbus/src/modbus.c:1043-1550 | What each call has in its buffer before it is sent is the header and the PDU of the call |
| Exchange.Context.SealRequest | library/libmodbus/src/modbus.c:166-171 | The frame that leaves is the sealed request of the call |
| Exchange.TakeResponse | library/libmodbus/src/modbus.c:1069-1560 | What the call puts into the caller's arrays is what the response says, at their front, and nothing else changes |
| Exchange.TakeConfirmed | library/libmodbus/src/modbus.c:1062-1081 | Return value, errno and arrays for any delivered response |
| Exchange.ReceiveResponse | library/libmodbus/src/modbus.c:1060-1081 | The same for any octets on the link, in any pieces, and for every slave, the broadcast address included; an error leaves the arrays alone |
| Exchange.ServeOne | library/libmodbus/src/modbus.c:485-493 | A server that receives in pieces and replies leaves the tables and sends the octets of its specification, and takes one frame off the link |
| Exchange.Perform | library/libmodbus/src/modbus.c:166-1561 | A whole call with both ends running on their buffers: unless the link fails it returns and leaves what the abstract machine does, and takes an identifier unless it is above the limits; when the link fails on the way up the server has done nothing and the errno is that of a timeout, and when it fails on the way down the call has been executed and the errno is the link's |
| ServerLoop.OneTurn | library/libmodbus/tests/random-test-server.c:36-48 | A turn of a server program serves the next frame of the stream, or ends the run when all have been served |
| ServerLoop.Run | library/libmodbus/tests/random-test-server.c:36-48 | The loop of a server program over TCP, as it runs: for any requests in any pieces the tables and the octets sent are those of serving all frames on the stream in order, or the first of them when the link fails |
| ServerLoop.AnsweredInOrder | library/libmodbus/tests/random-test-server.c:36-48 | Requests sent in a row are answered in a row: what the server sent is cut by a client into one answer for each request, in order, each with the identifier and the unit of its request |
| Bus.Station.Receive | library/libmodbus/src/modbus-rtu.c:326-347 | One reception, its flag and the rest of the stream, for any pieces; it returns 0 with the flag set, whatever arrives, and otherwise the length of an undamaged request here or to all, 0 for a request elsewhere and -1 for a damaged, cut or oversize one; a failed link clears the flag |
| Bus.HearOne | library/libmodbus/src/modbus-rtu.c:326-347 | A whole message is taken with its length returned, refused with -1 when damaged, or passed over with 0 and the flag set or cleared |
| Bus.ListenAll | library/libmodbus/src/modbus-rtu.c:326-347 | A station that receives until nothing is left takes the requests of the specification of listening, or the first of them when the line fails |
| Bus.ListensToItsOwn | library/libmodbus/src/modbus-rtu.c:326-347 | On any traffic in which every request to another slave is followed by exactly one response, the station takes exactly the undamaged requests for it or for all, in order, and no response for a request |
| Bus.AfterRequestElsewhere | library/libmodbus/src/modbus-rtu.c:326-347 | After a request to another slave whatever follows is read as the response to it: what is heard then is what that leaves |
| Bus.SilentSlaveCostsARequest | library/libmodbus/src/modbus-rtu.c:326-347 | When the other slave stays silent, the next request is lost, whatever its function |
| Bus.SwallowedWhole | library/libmodbus/src/modbus-rtu.c:326-347 | A request that reads the same both ways is lost with nothing left of it |
| Freshness.TidCounts | library/libmodbus/src/modbus-tcp.c:95-105 | The identifier of the k-th request is the start plus k modulo 65536 |
| Freshness.SameTidIff | library/libmodbus/src/modbus-tcp.c:95-105 | Two requests share an identifier exactly when a multiple of 65536 lies between them |
| Freshness.ReplyKeepsTid | library/libmodbus/src/modbus-tcp.c:127-153 | Whatever a server answers carries the identifier of the request |
| Freshness.OtherTidRejected | library/libmodbus/src/modbus-tcp.c:188-199 | A response with another identifier is rejected, whatever else it says |
| Freshness.StaleReplyRejected | library/libmodbus/src/modbus-tcp.c:95-199 | Over any run, the reply to request j is received whole, carries the identifier of request k exactly when they are a multiple of 65536 apart, and nearer than that is rejected |
| Tlvs.ParseIff | library/mDNSResponder-1310.80.1/DSO/dso.c:667-705 | The loop finds a list of TLVs exactly in a message that holds its encoding (section 5.4.4 of RFC 8490) and nothing else |
| Tlvs.EncodeAllSnoc | library/mDNSResponder-1310.80.1/DSO/dso.c:312-328 | A TLV finished behind others is encoded behind them |
| Tlvs.OverrunIff | library/mDNSResponder-1310.80.1/DSO/dso.c:669-704 | The loop reads behind the end of exactly the messages in which a list of TLVs is followed by a rest too short for a header, or by a header whose payload is longer than what is left for it by up to four octets |
| Tlvs.DroppedIff | library/mDNSResponder-1310.80.1/DSO/dso.c:675-683 | The connection is dropped for exactly those in which the TLVs are followed by a header that announces more than all that is left |
| Tlvs.PayloadBehindTheEnd | library/mDNSResponder-1310.80.1/DSO/dso.c:676-689 | A header and [0, 3, 0, 4]: the bound admits a payload that lies behind the end of the message |
| Tlvs.OwnOctetsOnly | library/mDNSResponder-1310.80.1/DSO/dso.c:669-704 | Any other message is parsed from its own octets, whatever lies behind it in memory |
| Tlvs.DependsOnBehindIff | library/mDNSResponder-1310.80.1/DSO/dso.c:669-704 | What lies behind a message decides the outcome exactly for the messages read beyond, but for three octets left of which the third announces too much |
| DsoMessage.Message.constructor | library/mDNSResponder-1310.80.1/DSO/dso.c:438-453 | A message starts as a header of zeros but for the identifier and the opcode |
| DsoMessage.Message.StartTlv | library/mDNSResponder-1310.80.1/DSO/dso.c:204-225 | A TLV begins behind what is built so far |
| DsoMessage.Message.AddTlvBytesNoCopy | library/mDNSResponder-1310.80.1/DSO/dso.c:230-244 | Payload spliced in without being copied, before or after copied payload of the same TLV |
| DsoMessage.Message.AddTlvBytes | library/mDNSResponder-1310.80.1/DSO/dso.c:247-260 | Payload copied into the buffer |
| DsoMessage.Message.AddTlvByte | library/mDNSResponder-1310.80.1/DSO/dso.c:263-275 | One octet of payload |
| DsoMessage.Message.AddTlvU16 | library/mDNSResponder-1310.80.1/DSO/dso.c:278-291 | Two octets of payload, high octet first |
| DsoMessage.Message.AddTlvU32 | library/mDNSResponder-1310.80.1/DSO/dso.c:294-309 | Four octets of payload, high octet first, each given by its quotient |
| DsoMessage.Message.FinishTlv | library/mDNSResponder-1310.80.1/DSO/dso.c:312-328 | The TLV is complete with its length, whether the splice lies in it, before it, or nowhere |
| DsoWrite.Socket.WriteTcp | library/mDNSResponder-1310.80.1/DSO/dso-transport.c:289-302 | The socket: all octets, some of them, or an error |
| DsoWrite.Transport.WriteStart | library/mDNSResponder-1310.80.1/DSO/dso-transport.c:199-241 | A length of 12 to 65535 octets becomes the first hunk; any other leaves the transport as it was |
| DsoWrite.Transport.Write | library/mDNSResponder-1310.80.1/DSO/dso-transport.c:313-351 | A nonempty hunk is recorded, the fifth and later ones only counted |
| DsoWrite.Transport.WriteFinish | library/mDNSResponder-1310.80.1/DSO/dso-transport.c:279-305 | All hunks go out in order exactly when there are at most four and no write fails or falls short; otherwise the connection is dropped after a proper prefix of them |
| DsoWrite.Transport.Offer | library/mDNSResponder-1310.80.1/DSO/dso-transport.c:359-361 | The three hunks offered concatenate to the gathered message |
| DsoWrite.Transport.MessageWrite | library/mDNSResponder-1310.80.1/DSO/dso-transport.c:354-366 | A message is written unless there is no connection, or the socket has no room or the length is out of range while the low water mark counts: the octets are the two-octet length and the gathered message, in at most four hunks, and when a write fails a proper prefix of them.  A message out of range that disregards the low water mark goes behind the hunks of the one before, or, when there are more than four, the connection is dropped with nothing sent |
| DsoWrite.Transport.SendSimpleResponse | library/mDNSResponder-1310.80.1/DSO/dso-transport.c:374-395 | Unless a write fails, twelve octets behind their length: identifier, opcode, flags and the high half of the fourth octet as received, the response bit set, the response code in the low half, and no counts |
| DsoWrite.SimpleResponseOctets | library/mDNSResponder-1310.80.1/DSO/dso-transport.c:374-388 | For every header and response code, the twelve octets of the response one by one |
| DsoWrite.OpcodeIsDso | library/mDNSResponder-1310.80.1/DSO/dso-transport.c:381-382 | A header made has opcode 6 and no response bit, a response the opcode of what it answers |
| DsoOctets.HeaderSpelled | library/mDNSResponder-1310.80.1/DSO/dso.c:451-497 | The twelve octets of a new header |
| DsoOctets.EncodingSpelled | library/mDNSResponder-1310.80.1/DSO/dso.c:204-328 | Type and length of a TLV, and the length of a message, as quotient and remainder by 256 |
| DsoRoundTrip.GatheredIsBuilt | library/mDNSResponder-1310.80.1/DSO/dso.c:512-515 | The gathered octets are the header and the encoding of the TLVs built, and their number is the message length computed |
| DsoRoundTrip.BuiltParses | library/mDNSResponder-1310.80.1/DSO/dso.c:667-705 | A built message parses back to the opcodes, lengths and payloads it was built from, for any number of TLVs |
| DsoRoundTrip.AllTlvsTaken | library/mDNSResponder-1310.80.1/DSO/dso.c:685-703 | The primary and the additional TLVs kept are all of them exactly when they are at most eleven |
| DsoRoundTrip.SentIsReceived | library/mDNSResponder-1310.80.1/DSO/dso-transport.c:534-620 | Built messages sent one after another and read in any pieces that do not split a length are delivered in order and parse back to their TLVs |
| DsoRoundTrip.RequestIsTaken | library/mDNSResponder-1310.80.1/DSO/dso.c:566-723 | A built request is acceptable to every server, whatever lies behind it in memory, and is handed on with its own TLVs, as keepalive or retry delay when its first has type 1 or 2 |
| DsoRoundTrip.ResponseIsTaken | library/mDNSResponder-1310.80.1/DSO/dso.c:580-723 | The simple response to it is acceptable to the client that made the request, yields the context of the request and frees its identifier |
| DsoRoundTrip.ExchangeYieldsContext | library/mDNSResponder-1310.80.1/DSO/dso.c:432-723 | One exchange, read in any pieces that do not split a length: the server is given the request with its TLVs, the client the response with the context of the request, and the queries are those of before |
| DsoExchange.BuildTlvs | library/mDNSResponder-1310.80.1/DSO/dso.c:204-328 | TLVs put into a message with the calls of the builder are the TLVs of the message, in order |
| DsoExchange.ReadMessage | library/mDNSResponder-1310.80.1/DSO/dso-transport.c:534-620 | Read callbacks on a stream with one message: unless one of them fails or splits a length, what comes out is that message, once enough of them have been made to read it all |
| DsoExchange.SendRequest | library/mDNSResponder-1310.80.1/DSO/dso.c:432-510 | A client's request is written whole exactly when a slot and an identifier are to be had and the socket has room and does not fail, and is recorded with its context under the first identifier drawn that is free |
| DsoExchange.WriteRequest | library/mDNSResponder-1310.80.1/DSO/dso-transport.c:354-366 | TLVs built behind a header and written: the octets are the header and the encoding of the TLVs behind their length |
| DsoExchange.AnswerRequest | library/mDNSResponder-1310.80.1/DSO/dso.c:566-723 | A server that takes a request off its stream gives it to its callback with its TLVs and writes the simple response to it |
| DsoExchange.TakeAnswer | library/mDNSResponder-1310.80.1/DSO/dso.c:580-723 | A client that takes the response off its stream gives it to its callback with the context of the request and forgets the query |
| DsoExchange.Exchange | library/mDNSResponder-1310.80.1/DSO/dso.c:432-723 | One exchange with both ends running: it is done unless no identifier is to be had, the socket has no room, a read or write fails, or callbacks stop too early; then the callbacks got the request with its TLVs and the response with its context, and queries, connections and sessions are left as specified; otherwise the client has at most this one query more |
| DsoRead.Source.ReadTcp | library/mDNSResponder-1310.80.1/DSO/dso-transport.c:565-582 | The socket: an error, an end of stream, or up to the octets asked for, with failures and lone octets counted |
| DsoRead.Reader.constructor | library/mDNSResponder-1310.80.1/DSO/dso-transport.c:673-705 | The reader starts before a length, with room for a message and its length |
| DsoRead.Reader.ReadCallback | library/mDNSResponder-1310.80.1/DSO/dso-transport.c:534-620 | One callback takes one read as specified and delivers a message when its last octet arrives, always inside the input buffer |
| DsoRead.WholeLengthsKeepPace | library/mDNSResponder-1310.80.1/DSO/dso-transport.c:558-616 | While no read splits a length, what is delivered is always the front of the messages, and what is awaited the rest of the stream |
| DsoRead.WholeLengthsDeliver | library/mDNSResponder-1310.80.1/DSO/dso-transport.c:558-616 | When no read splits a length, messages come out whole and in order however their bodies are cut, until a zero or oversize length drops the connection |
| DsoRead.OctetsAccounted | library/mDNSResponder-1310.80.1/DSO/dso-transport.c:558-616 | Every octet of a stream is in a delivered message or its length, is held, or was lost to a split length |
| DsoRead.DeliversIff | library/mDNSResponder-1310.80.1/DSO/dso-transport.c:558-616 | A stream of messages, read to its end or until the connection is dropped, is delivered as those messages exactly when no read splits a length, and then the connection stands |
| DsoRead.SplitLengthLosesMessage | library/mDNSResponder-1310.80.1/DSO/dso-transport.c:558-562 | One message whose length arrives in two reads is not delivered |
| DsoRead.SplitLengthDropsEarly | library/mDNSResponder-1310.80.1/DSO/dso-transport.c:558-616 | Two messages, the first length in two reads: the connection is dropped with octets unread and nothing delivered |
| DsoReceive.Endpoint.MakeMessage | library/mDNSResponder-1310.80.1/DSO/dso.c:432-510 | A fresh DSO header with the first identifier drawn that is not zero and not outstanding, recorded with its context, or identifier zero for a unidirectional message; exactly when no slot is free or none of 1001 draws will do, nothing changes |
| DsoReceive.CutRange | library/mDNSResponder-1310.80.1/DSO/dso.c:669-704 | A TLV that starts inside a message announces too much, or is taken, with up to four octets behind the end, and the rest parses on |
| DsoReceive.Endpoint.TakeTlvs | library/mDNSResponder-1310.80.1/DSO/dso.c:667-705 | For every message: the loop keeps the first TLV and the next ten, leaves those held before when there is none, and drops the connection at a TLV that announces too much, keeping those in front of it |
| DsoReceive.Endpoint.MatchResponse | library/mDNSResponder-1310.80.1/DSO/dso.c:580-631 | A response takes the query with its identifier off the table, yields its context and may establish the session, and one that is a header alone clears the TLVs; any other response drops the connection and changes nothing else |
| DsoReceive.Endpoint.Admit | library/mDNSResponder-1310.80.1/DSO/dso.c:566-665 | The checks on a header, and what every message, sound or not, does to table, session, connection and TLVs |
| DsoReceive.Endpoint.MessageReceived | library/mDNSResponder-1310.80.1/DSO/dso.c:566-723 | For every message and whatever lies behind it: exactly the acceptable ones reach the callback, as keepalive, retry delay, response or request by their octets, with context and result code; any other drops the connection; the table, the session and the TLVs held are those specified, after a refused message too |
| DsoReceive.Endpoint.DnsMessageReceived | library/mDNSResponder-1310.80.1/DSO/dso.c:726-757 | A message whose opcode is 6 does what the message received does, one of another opcode goes to the callback as plain DNS and changes nothing, and a short one drops the connection |
| DsoReceive.EventOfOctets | library/mDNSResponder-1310.80.1/DSO/dso.c:707-723 | The event of an acceptable message by its octets: keepalive when the first TLV has type 1, retry delay when it has type 2, otherwise the response with the context of its identifier and its code, or the request |
| DsoOctets.ReceivedSpelled | library/mDNSResponder-1310.80.1/DSO/dso.c:566-665 | Which headers are sound, which queries are taken off the table, when a session is established and when a message is out of session, each by the octets of the message |
| DsoOctets.SeenSpelled | library/mDNSResponder-1310.80.1/DSO/dso.c:667-705 | The callback sees the first TLV and the ten after it, one by one, nothing after a response without any, and those of before after a request without any |
| DsoOctets.HeldWhenDropped | library/mDNSResponder-1310.80.1/DSO/dso.c:566-705 | What is held after a message that drops the connection: cleared by an expected response that is a header alone, left by another unsound header, and otherwise the TLVs in front of the one that announces too much |
| DsoReceive.HeldWhenAcceptable | library/mDNSResponder-1310.80.1/DSO/dso.c:615-704 | After an acceptable message the TLVs held are its own, or for a request without any those of before |
| DsoReceive.SeesOwnTlvsIff | library/mDNSResponder-1310.80.1/DSO/dso.c:615-619 | The callback sees the TLVs of the message itself exactly when it has some, or is a response, or none were held before |
| DsoReceive.HasTlvsIff | library/mDNSResponder-1310.80.1/DSO/dso.c:669-704 | The acceptable messages that have TLVs are those longer than a header |
| DsoReceive.StaleTlvSeen | library/mDNSResponder-1310.80.1/DSO/dso.c:615-723 | A request with a TLV, then one without: the callback of the second sees the TLV of the first |
| DsoReceive.SessionOrRefusal | library/mDNSResponder-1310.80.1/DSO/dso.c:654-665 | On a connection that stands after a message there is a session, unless a client's request was answered with an error |
| DsoQueries.Queries.constructor | library/mDNSResponder-1310.80.1/DSO/dso.c:177-185 | No query is outstanding at first |
| DsoQueries.Queries.Scan | library/mDNSResponder-1310.80.1/DSO/dso.c:485-491 | A free slot is found when there is one, and an identifier in use is noticed |
| DsoQueries.Queries.DrawId | library/mDNSResponder-1310.80.1/DSO/dso.c:475-493 | The identifier is the first of 1001 draws that is not zero and not in use, and there is none exactly when all of them are |
| DsoQueries.Queries.MakeQuery | library/mDNSResponder-1310.80.1/DSO/dso.c:470-498 | Exactly when a slot is free and one of 1001 draws is nonzero and not in use, the query takes one free slot with the first such draw and its context and is recorded; otherwise nothing changes |
| DsoQueries.Queries.TakeResponse | library/mDNSResponder-1310.80.1/DSO/dso.c:597-622 | A response frees exactly the slot of its identifier and yields its context |
| DsoQueries.Queries.IgnoreResponse | library/mDNSResponder-1310.80.1/DSO/dso.c:419-430 | Ignored contexts become null and every identifier stays outstanding |
| DsoQueries.Queries.CountIsNonzero | library/mDNSResponder-1310.80.1/DSO/dso.c:419-622 | The count is the number of nonzero identifiers and lies between zero and the number of slots |
| DsoQueries.ZeroExists | library/mDNSResponder-1310.80.1/DSO/dso.c:470-494 | While fewer queries are outstanding than there are slots, a slot is free |
| DsoQueries.RunFits | library/mDNSResponder-1310.80.1/DSO/dso.c:419-631 | Over every run of operations the queries outstanding fit the slots |
| DsoQueries.ContextKept | library/mDNSResponder-1310.80.1/DSO/dso.c:419-631 | Until its response an identifier keeps its context, or null once that context was ignored, whatever happens to others |
| DsoQueries.UnansweredIsHeld | library/mDNSResponder-1310.80.1/DSO/dso.c:419-631 | A query made and not yet answered is in the table with the context it was made with, or null when that was ignored |
| DsoQueries.Queries.OutstandingIff | library/mDNSResponder-1310.80.1/DSO/dso.c:419-631 | After any run of the operations the identifiers in use are exactly those of the queries made and not answered since, each with the context of its query, or null when that was ignored |
| DsoConnections.Connections.Create | library/mDNSResponder-1310.80.1/DSO/dso.c:172-201 | A created connection is live and numbered with the next serial number |
| DsoConnections.Connections.FindBySerial | library/mDNSResponder-1310.80.1/DSO/dso.c:71-81 | The search yields a live connection with the serial number, or there is none |
| DsoConnections.Connections.Unlink | library/mDNSResponder-1310.80.1/DSO/dso.c:91-104 | The connection is taken off the list in use, from its head or from behind another |
| DsoConnections.Connections.Drop | library/mDNSResponder-1310.80.1/DSO/dso.c:87-107 | A live connection moves to the other list; a second drop changes nothing; both lists stay well formed and disjoint |
| DsoConnections.Connections.FinaliseDropped | library/mDNSResponder-1310.80.1/DSO/dso.c:114-137 | Every dropped connection is finalised, once, and the list is empty |
| DsoConnections.OnExactlyOne | library/mDNSResponder-1310.80.1/DSO/dso.c:71-198 | A connection created is on exactly one of the lists, once, or has been finalised, once |
| DsoConnections.SerialFindsLive | library/mDNSResponder-1310.80.1/DSO/dso.c:71-81 | Until serial numbers wrap, the search for a connection's number finds it exactly when it has not been dropped |
| DsoAddresses.ConnectState.constructor | library/mDNSResponder-1310.80.1/DSO/dso-transport.c:739-809 | At most one address to begin with, and all ports the configured one |
| DsoAddresses.CopiedIff | library/mDNSResponder-1310.80.1/DSO/dso-transport.c:1141-1149 | The address copied out of a socket address is the one it stands for exactly when that is IPv4, or IPv6 with the flow information four times over for its address |
| DsoAddresses.WrongAddressCopied | library/mDNSResponder-1310.80.1/DSO/dso-transport.c:1141-1149 | 2001:db8::1 with flow information zero is copied as 0:0:2001:db8:: |
| DsoAddresses.ConnectState.MakeRoom | library/mDNSResponder-1310.80.1/DSO/dso-transport.c:1129-1139 | A full array is compacted unless at most one of its addresses has been tried; those waiting stay, in their order |
| DsoAddresses.ConnectState.Store | library/mDNSResponder-1310.80.1/DSO/dso-transport.c:1129-1152 | What is copied of the address found joins those waiting; it is refused only when the array is full with at most one address tried |
| DsoAddresses.ConnectState.TryNext | library/mDNSResponder-1310.80.1/DSO/dso-transport.c:1061-1096 | The address tried is the first of those waiting, with the configured port, if the platform grants a socket |
| DsoAddresses.ConnectState.AddressFound | library/mDNSResponder-1310.80.1/DSO/dso-transport.c:1109-1159 | What a lookup without an error has found is copied to the end of the queue, and the next is tried when no attempt is pending |
| DsoAddresses.ConnectState.ConnectFailed | library/mDNSResponder-1310.80.1/DSO/dso-transport.c:1020-1101 | After a failed connection the next address is tried in the same way |
| DsoAddresses.ConnectState.TriedInOrder | library/mDNSResponder-1310.80.1/DSO/dso-transport.c:1061-1152 | After any run of the operations, the addresses tried are those given and those copied, in order of arrival and each once, and all of them when none is waiting; one is tried as it was found exactly when it is IPv4 or repeats its flow information |
| RegisterTable.GuardSufficesIff | kenmec/main_application/control_logic/control_logic_update.c:1077-1079 | The guard keeps a type within the table at every address exactly when a value at the last address fits: on a table whose addresses all exist, when it starts at zero and the type takes one register |
| RegisterTable.LastRegisterOverrun | kenmec/main_application/control_logic/control_logic_update.c:1077-1094 | Ten registers: a 32-bit value at the last one, and a 16-bit value at index 15 of a table that starts at 10, run over the end |
| RegisterTable.Update | kenmec/main_application/control_logic/control_logic_update.c:1063-1133 | Exactly the registers of the value change, low word first, or nothing when address or type is refused |
| RegisterTable.Load | kenmec/main_application/control_logic/control_logic_update.c:1135-1199 | Word by word and type by type, the value that the registers hold, low word first, with its sign |
| RegisterTable.WordsRoundTrip | kenmec/main_application/control_logic/control_logic_update.c:1077-1199 | A value of each integer type, negative ones included, is rebuilt from its registers |
| RegisterTable.PatternsRoundTrip | kenmec/main_application/control_logic/control_logic_update.c:1077-1199 | Every pattern of registers is a value of its type, and storing that value gives the registers back |
| RegisterTable.ValueSpelled | kenmec/main_application/control_logic/control_logic_update.c:1135-1199 | The value of each type in figures: low word first, and signed for the signed types |
| RegisterTable.StoredIsLoaded | kenmec/main_application/control_logic/control_logic_update.c:1063-1199 | A stored value is loaded unchanged whatever is stored apart from it afterwards |
| RegisterTable.RemoteClientRebuilds | library/libmodbus/src/modbus.c:765-797 | A remote client that reads the registers, in RTU or TCP, rebuilds the value low word first |
| Base64.Base64Encode | library/mDNSResponder-1310.80.1/Clients/dns-sd.c:435-462 | The buffer holds the encoding cut to fit, then NUL, and nothing behind that changes; a buffer of no length is left alone |
| Base64.PutQuantum | library/mDNSResponder-1310.80.1/Clients/dns-sd.c:446-458 | As many of the four characters of a group as there is room for |
| Base64.PutQuanta | library/mDNSResponder-1310.80.1/Clients/dns-sd.c:443-460 | The loop writes the encoding up to the limit |
| Base64.LetterSpelled | library/mDNSResponder-1310.80.1/Clients/dns-sd.c:433-433 | The 64 letters by their character codes, from A to Z, a to z and 0 to 9 to + and / |
| Base64.QuantumSpelled | library/mDNSResponder-1310.80.1/Clients/dns-sd.c:449-458 | The four characters of a group by the bits of its octets, with padding for those that are missing |
| Base64.EncodedLength | library/mDNSResponder-1310.80.1/Clients/dns-sd.c:435-462 | The encoding has four characters for every three octets, begun or complete |
| Base64.RoundTrip | library/mDNSResponder-1310.80.1/Clients/dns-sd.c:435-462 | Decoding undoes encoding (section 4 of RFC 4648) |
| Base64.CutToFit | library/mDNSResponder-1310.80.1/Clients/dns-sd.c:435-462 | The text has as many characters of the encoding as there is room for in front of the NUL, neither more nor fewer |
| Base64.WholeIff | library/mDNSResponder-1310.80.1/Clients/dns-sd.c:435-462 | The text is the whole encoding exactly when the buffer has room for it and the NUL, and then it decodes to the input |

## Left out

- Serial lines, sockets, `select`, timeouts, flushing, reconnecting and link error recovery: the link and the sockets
  supply pieces, fail, or end, in every possible way.
- Error recovery modes of libmodbus, which sleep and flush: the model has them off, as they are by default.
- Debug output and logging.
- Client calls with a negative count, or an address that does not fit 16 bits: counts are natural numbers and addresses
  are words.
- Mappings whose bit tables hold anything but 0 and 1, as far as the server is concerned: `modbus_mapping_new` clears
  them and the server keeps them so. The loops over bits are described for cells of any value.
- Assertions of libmodbus: it is taken as compiled with NDEBUG, so that `BitLoops.GetByteFromBits` goes on with eight
  cells where it would stop with more asked for.
- The octets 4 and 5 of a TCP header before sealing, which the source leaves unset: they are zero here, and sealing
  overwrites them.
- The CRC tables are laid out in sixteen rows of sixteen entries.
- `Bus.ListensToItsOwn`: the octets of the station's own replies are not heard back on the line.
- `ServerLoop.Run` is the loop of a TCP server, on one connection.
- `EndToEnd.TransactRefines`: a call to the broadcast address of an RTU line, which every server executes and none
  answers (`Calls.BroadcastExecutes`), so that the client is left to its timeout.
- Function 0x07 answers nothing, as in the source; `modbus_reply_exception` and raw requests are thin paths over the
  same builders.
- The protocol identifier test of the TCP client rejects only when both octets are nonzero; nothing more is said of it.
- The float setters and getters of modbus-data.c and the scaling of sensor values: C floats have no counterpart here.
  A FLOAT32 of the register table is its bit pattern.
- `RegisterTable.Update` and `RegisterTable.Load` ask that the last register of a value that passes the guard exists,
  which the source leaves to its callers; the host is little-endian, as the unions of the source assume.
- Network Framework, TLS and Win32 variants.
- `DsoMessage.Message.StartTlv` and the other builder methods: the conditions that the source asserts are their
  preconditions.
- `DsoReceive.Endpoint.MessageReceived` does not describe what the keepalive and retry-delay handlers do with a payload
  of the wrong length. The TLVs held are modelled by their content: the source points into its input buffer, where a
  later message that is a header alone does not reach them. What lies behind a message is memory of the transport, whose
  output buffer follows its input buffer in one allocation.
- `DsoReceive.Endpoint.MakeMessage`: the random numbers are those it is given, and an identifier lies in memory low octet
  first.
- `DsoWrite.Transport.MessageWrite`: a hunk is modelled by the octets it had when it was offered, where the source
  keeps a pointer; the hunks of an earlier message that go out again may have been overwritten since.
- `DsoAddresses.ConnectState.TryNext`: address literals given as a host name, and the callback after a connection.
- `DsoConnections.Connections.FinaliseDropped`: the callbacks it makes leave the lists alone; allocation succeeds.
- `DsoExchange.Exchange` ends at a read that splits a length; what follows such a read is described by `DsoRead`.
- `DsoRead.Reader.ReadCallback` ends at the first drop; what the handler of a delivered message does to the connection
  is described by `DsoReceive`.
- Keepalive and retry timers, activities, `dso_find_activity`: single-branch updates or code that rests on callbacks.
- dnssd-proxy.c, dnssd-relay.c, the hmac files, the HID and configuration code of the control logic, the Python tools,
  Redfish and the rest of dns-sd.c: I/O, dispatch and printing around code not shown.
