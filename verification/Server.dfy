/** What `modbus_reply` makes of a request: the new tables and the reply, as functions of the PDU. */
module Server {
  import opened Bytes
  import opened Protocol
  import opened Packing
  import opened Framing
  import opened Backend

  /** The four tables of `modbus_mapping_t`, each with the address of its first cell. */
  datatype Tables = Tables(
    startBits: nat, bits: seq<bit>,
    startInputBits: nat, inputBits: seq<bit>,
    startRegisters: nat, registers: seq<word>,
    startInputRegisters: nat, inputRegisters: seq<word>)

  /** Echo sends the request back; Silence is the unimplemented function 0x07. */
  datatype Reply = Answer(pdu: seq<byte>) | Echo | Exception(code: byte) | Silence

  datatype Executed = Executed(tables: Tables, reply: Reply)

  function Field(pdu: seq<byte>, at: nat): word
    requires at + 1 < |pdu|
  {
    Word(pdu[at], pdu[at + 1])
  }

  /** `mapping_address >= 0 && mapping_address + nb <= size`. */
  predicate Covers(start: nat, size: nat, address: word, nb: int) {
    address - start >= 0 && address - start + nb <= size
  }

  function ReadBits(start: nat, cells: seq<bit>, pdu: seq<byte>): (r: Reply)
    requires |pdu| >= 5
    ensures r.Answer? || r.Exception?
  {
    var address, nb := Field(pdu, 1), Field(pdu, 3);
    if nb < 1 || MAX_READ_BITS < nb then Exception(ILLEGAL_DATA_VALUE)
    else if !Covers(start, |cells|, address, nb) then Exception(ILLEGAL_DATA_ADDRESS)
    else Answer([pdu[0], ByteCount(nb)] + Pack(cells[address - start..address - start + nb]))
  }

  function ReadRegisters(start: nat, regs: seq<word>, pdu: seq<byte>): (r: Reply)
    requires |pdu| >= 5
    ensures r.Answer? || r.Exception?
  {
    var address, nb := Field(pdu, 1), Field(pdu, 3);
    if nb < 1 || MAX_READ_REGISTERS < nb then Exception(ILLEGAL_DATA_VALUE)
    else if !Covers(start, |regs|, address, nb) then Exception(ILLEGAL_DATA_ADDRESS)
    else Answer([pdu[0], 2 * nb] + RegisterBytes(regs[address - start..address - start + nb]))
  }

  function WriteBit(t: Tables, pdu: seq<byte>): (e: Executed)
    requires |pdu| >= 5
    ensures e.reply.Echo? || e.reply.Exception?
  {
    var address, data := Field(pdu, 1), Field(pdu, 3);
    if !Covers(t.startBits, |t.bits|, address, 1) then Executed(t, Exception(ILLEGAL_DATA_ADDRESS))
    else if data == 0xFF00 || data == 0 then
      Executed(t.(bits := t.bits[address - t.startBits := if data != 0 then 1 else 0]), Echo)
    else Executed(t, Exception(ILLEGAL_DATA_VALUE))
  }

  function WriteRegister(t: Tables, pdu: seq<byte>): (e: Executed)
    requires |pdu| >= 5
    ensures e.reply.Echo? || e.reply.Exception?
  {
    var address := Field(pdu, 1);
    if !Covers(t.startRegisters, |t.registers|, address, 1) then Executed(t, Exception(ILLEGAL_DATA_ADDRESS))
    else Executed(t.(registers := t.registers[address - t.startRegisters := Field(pdu, 3)]), Echo)
  }

  function WriteBits(t: Tables, pdu: seq<byte>): (e: Executed)
    requires |pdu| >= 6 && |pdu| - 6 == pdu[5]
    ensures e.reply.Answer? || e.reply.Exception?
  {
    var address, nb := Field(pdu, 1), Field(pdu, 3);
    if nb < 1 || MAX_WRITE_BITS < nb || pdu[5] * 8 < nb then Executed(t, Exception(ILLEGAL_DATA_VALUE))
    else if !Covers(t.startBits, |t.bits|, address, nb) then Executed(t, Exception(ILLEGAL_DATA_ADDRESS))
    else Executed(t.(bits := Splice(t.bits, address - t.startBits, Unpack(pdu[6..], nb))), Answer(pdu[..5]))
  }

  function WriteRegisters(t: Tables, pdu: seq<byte>): (e: Executed)
    requires |pdu| >= 6 && |pdu| - 6 == pdu[5]
    ensures e.reply.Answer? || e.reply.Exception?
  {
    var address, nb := Field(pdu, 1), Field(pdu, 3);
    if nb < 1 || MAX_WRITE_REGISTERS < nb || pdu[5] != nb * 2 then Executed(t, Exception(ILLEGAL_DATA_VALUE))
    else if !Covers(t.startRegisters, |t.registers|, address, nb) then Executed(t, Exception(ILLEGAL_DATA_ADDRESS))
    else Executed(t.(registers := Splice(t.registers, address - t.startRegisters, BytesToRegisters(pdu[6..], nb))),
                  Answer(pdu[..5]))
  }

  /** `(data & and) | (or & ~and)`, as stored in a `uint16_t`. */
  function Masked(data: word, andMask: word, orMask: word): word {
    U16(Or(And(data, andMask, 16), And(orMask, Not(andMask, 16), 16), 16))
  }

  function MaskWrite(t: Tables, pdu: seq<byte>): (e: Executed)
    requires |pdu| >= 7
    ensures e.reply.Echo? || e.reply.Exception?
  {
    var address := Field(pdu, 1);
    if !Covers(t.startRegisters, |t.registers|, address, 1) then Executed(t, Exception(ILLEGAL_DATA_ADDRESS))
    else
      var at := address - t.startRegisters;
      Executed(t.(registers := t.registers[at := Masked(t.registers[at], Field(pdu, 3), Field(pdu, 5))]), Echo)
  }

  // Function 0x17 has two tests: of its quantities, and of its addresses.

  predicate BadQuantities(pdu: seq<byte>)
    requires |pdu| >= 10
  {
    var nb, nbWrite := Field(pdu, 3), Field(pdu, 7);
    nbWrite < 1 || MAX_WR_WRITE_REGISTERS < nbWrite || nb < 1 || MAX_WR_READ_REGISTERS < nb || pdu[9] != nbWrite * 2
  }

  /** The read address is tested at both ends, at its lower one twice, and the write address at its upper end. */
  predicate BadAddresses(start: nat, size: nat, pdu: seq<byte>)
    requires |pdu| >= 10
  {
    var mappingAddress, mappingAddressWrite := Field(pdu, 1) - start, Field(pdu, 5) - start;
    || mappingAddress < 0 || mappingAddress + Field(pdu, 3) > size
    || mappingAddress < 0 || mappingAddressWrite + Field(pdu, 7) > size
  }

  /** A request that passes both tests does not write below the start of the table. */
  predicate WritesFromStart(start: nat, size: nat, pdu: seq<byte>)
    requires |pdu| >= 10
  {
    BadQuantities(pdu) || BadAddresses(start, size, pdu) || Field(pdu, 5) >= start
  }

  function WriteAndRead(t: Tables, pdu: seq<byte>): (e: Executed)
    requires |pdu| >= 10 && |pdu| - 10 == pdu[9]
    requires WritesFromStart(t.startRegisters, |t.registers|, pdu)
    ensures e.reply.Answer? || e.reply.Exception?
  {
    if BadQuantities(pdu) then Executed(t, Exception(ILLEGAL_DATA_VALUE))
    else if BadAddresses(t.startRegisters, |t.registers|, pdu) then Executed(t, Exception(ILLEGAL_DATA_ADDRESS))
    else
      var nb, nbWrite := Field(pdu, 3), Field(pdu, 7);
      var mappingAddress, mappingAddressWrite := Field(pdu, 1) - t.startRegisters, Field(pdu, 5) - t.startRegisters;
      var regs := Splice(t.registers, mappingAddressWrite, BytesToRegisters(pdu[10..], nbWrite));
      Executed(t.(registers := regs),
               Answer([pdu[0], 2 * nb] + RegisterBytes(regs[mappingAddress..mappingAddress + nb])))
  }

  /** Slave number 180, run indicator ON, then "LMB3.1.6". */
  const SLAVE_ID_DATA: seq<byte> := [180, 0xFF, 76, 77, 66, 51, 46, 49, 46, 54]

  /** Requests whose execution the source leaves within its tables: all of them when the registers start at
      zero, as `modbus_mapping_new` makes them. */
  predicate Supported(start: nat, size: nat, pdu: seq<byte>) {
    |pdu| >= 10 && pdu[0] == WRITE_AND_READ_REGISTERS ==> WritesFromStart(start, size, pdu)
  }

  function Execute(t: Tables, pdu: seq<byte>): (e: Executed)
    requires Complete(Indication, pdu) && Supported(t.startRegisters, |t.registers|, pdu)
    ensures e.reply.Answer? ==> 2 <= |e.reply.pdu| <= 252
  {
    var function_ := pdu[0];
    if function_ == READ_COILS then Executed(t, ReadBits(t.startBits, t.bits, pdu))
    else if function_ == READ_DISCRETE_INPUTS then Executed(t, ReadBits(t.startInputBits, t.inputBits, pdu))
    else if function_ == READ_HOLDING_REGISTERS then Executed(t, ReadRegisters(t.startRegisters, t.registers, pdu))
    else if function_ == READ_INPUT_REGISTERS then
      Executed(t, ReadRegisters(t.startInputRegisters, t.inputRegisters, pdu))
    else if function_ == WRITE_SINGLE_COIL then WriteBit(t, pdu)
    else if function_ == WRITE_SINGLE_REGISTER then WriteRegister(t, pdu)
    else if function_ == WRITE_MULTIPLE_COILS then WriteBits(t, pdu)
    else if function_ == WRITE_MULTIPLE_REGISTERS then WriteRegisters(t, pdu)
    else if function_ == REPORT_SLAVE_ID then
      Executed(t, Answer([pdu[0], |SLAVE_ID_DATA|] + SLAVE_ID_DATA))
    else if function_ == READ_EXCEPTION_STATUS then Executed(t, Silence)
    else if function_ == MASK_WRITE_REGISTER then MaskWrite(t, pdu)
    else if function_ == WRITE_AND_READ_REGISTERS then WriteAndRead(t, pdu)
    else Executed(t, Exception(ILLEGAL_FUNCTION))
  }

  // ---------------------------------------------------------------------------------------------
  // Frames

  /** `response_exception`: the function octet wraps at 256. */
  function ReplyPdu(pdu: seq<byte>, reply: Reply): seq<byte>
    requires pdu != [] && !reply.Silence?
  {
    match reply
    case Answer(p) => p
    case Echo => pdu
    case Exception(code) => var function_: int := pdu[0]; [Lo(function_ + 0x80), code]
  }

  datatype Option<T> = None | Some(value: T)

  /** The message that is sealed and sent: an echo repeats the request, header included. */
  function Response(b: Backend, req: seq<byte>, reply: Reply): (rsp: seq<byte>)
    requires |req| > b.HeaderLength() + b.ChecksumLength() && !reply.Silence?
    requires reply.Answer? ==> reply.pdu != []
    ensures |rsp| > b.HeaderLength()
  {
    var h := b.HeaderLength();
    if reply.Echo? then req[..|req| - b.ChecksumLength()]
    else b.Header(b.Tid(req), req[h - 1]) + ReplyPdu(b.Pdu(req), reply)
  }

  datatype Served = Served(tables: Tables, frame: Option<seq<byte>>)

  /** `modbus_reply`: nothing is sent for function 0x07, nor for a broadcast in RTU. */
  function Serve(b: Backend, t: Tables, req: seq<byte>): Served
    requires |req| > b.HeaderLength() + b.ChecksumLength()
    requires IsMessage(b, Indication, req) && Supported(t.startRegisters, |t.registers|, b.Pdu(req))
  {
    MessageIffComplete(b, Indication, req);
    var e := Execute(t, b.Pdu(req));
    if e.reply.Silence? || (b.Rtu? && req[0] == BROADCAST_ADDRESS) then Served(e.tables, None)
    else Served(e.tables, Some(b.Sealed(Response(b, req, e.reply))))
  }
}
