/** Client, link and server together, against an abstract machine of four arrays. */
module EndToEnd {
  import opened Bytes
  import opened Protocol
  import opened Packing
  import opened Framing
  import opened Backend
  import opened Server
  import opened Client
  import Crc

  // ---------------------------------------------------------------------------------------------
  // The abstract machine: what each call does to four arrays (section 6 of the MODBUS Application
  // Protocol), with no message in sight.  Its limits, and the error numbers of modbus.h, stand here in figures.

  /** The cells `addr` to `addr + nb - 1` exist in a table of `size` cells that starts at `start`. */
  predicate Exists(start: nat, size: nat, addr: word, nb: nat) {
    start <= addr && addr + nb <= start + size
  }

  const ADDRESS_ERROR := Error(112345680)
  const VALUE_ERROR := Error(112345681)
  const TOO_MANY_ERROR := Error(112345694)
  const NO_ROOM_ERROR := Error(22)

  function ReadCells(start: nat, cells: seq<word>, most: nat, addr: word, nb: nat): Outcome {
    if nb > most then TOO_MANY_ERROR
    else if nb == 0 then VALUE_ERROR
    else if !Exists(start, |cells|, addr, nb) then ADDRESS_ERROR
    else Ok(nb, cells[addr - start..addr - start + nb])
  }

  /** Each bit of the AND mask keeps the register's bit; each clear bit takes the OR mask's (section 6.16). */
  function Select(data: nat, andMask: nat, orMask: nat, n: nat): nat {
    if n == 0 then 0
    else (if andMask % 2 == 1 then data % 2 else orMask % 2) + 2 * Select(data / 2, andMask / 2, orMask / 2, n - 1)
  }

  function WriteRegs(t: Tables, addr: word, values: seq<word>): Tables
    requires Exists(t.startRegisters, |t.registers|, addr, |values|)
  {
    t.(registers := Splice(t.registers, addr - t.startRegisters, values))
  }

  function Abstract(t: Tables, c: Call): (Tables, Outcome) {
    match c
    case ReadBitsCall(addr, nb) => (t, ReadCells(t.startBits, t.bits, 2000, addr, nb))
    case ReadInputBitsCall(addr, nb) => (t, ReadCells(t.startInputBits, t.inputBits, 2000, addr, nb))
    case ReadRegistersCall(addr, nb) => (t, ReadCells(t.startRegisters, t.registers, 125, addr, nb))
    case ReadInputRegistersCall(addr, nb) =>
      (t, ReadCells(t.startInputRegisters, t.inputRegisters, 125, addr, nb))
    case WriteBitCall(addr, status) =>
      if !Exists(t.startBits, |t.bits|, addr, 1) then (t, ADDRESS_ERROR)
      else (t.(bits := t.bits[addr - t.startBits := if status then 1 else 0]), Ok(1, []))
    case WriteRegisterCall(addr, value) =>
      if !Exists(t.startRegisters, |t.registers|, addr, 1) then (t, ADDRESS_ERROR)
      else (t.(registers := t.registers[addr - t.startRegisters := value]), Ok(1, []))
    case WriteBitsCall(addr, cells) =>
      if |cells| > 1968 then (t, TOO_MANY_ERROR)
      else if cells == [] then (t, VALUE_ERROR)
      else if !Exists(t.startBits, |t.bits|, addr, |cells|) then (t, ADDRESS_ERROR)
      else (t.(bits := Splice(t.bits, addr - t.startBits, Normalised(cells))), Ok(|cells|, []))
    case WriteRegistersCall(addr, values) =>
      if |values| > 123 then (t, TOO_MANY_ERROR)
      else if values == [] then (t, VALUE_ERROR)
      else if !Exists(t.startRegisters, |t.registers|, addr, |values|) then (t, ADDRESS_ERROR)
      else (WriteRegs(t, addr, values), Ok(|values|, []))
    case MaskWriteCall(addr, andMask, orMask) =>
      if !Exists(t.startRegisters, |t.registers|, addr, 1) then (t, ADDRESS_ERROR)
      else
        var at := addr - t.startRegisters;
        (t.(registers := t.registers[at := U16(Select(t.registers[at], andMask, orMask, 16))]), Ok(1, []))
    case WriteAndReadCall(writeAddr, values, addr, nb) =>
      if |values| > 121 || nb > 125 then (t, TOO_MANY_ERROR)
      else if values == [] || nb == 0 then (t, VALUE_ERROR)
      else if !Exists(t.startRegisters, |t.registers|, addr, nb)
              || !Exists(t.startRegisters, |t.registers|, writeAddr, |values|) then (t, ADDRESS_ERROR)
      else
        var t' := WriteRegs(t, writeAddr, values);  // the read sees the write (section 6.17)
        (t', ReadCells(t'.startRegisters, t'.registers, 125, addr, nb))
    case ReportSlaveIdCall(maxDest) =>
      if maxDest == 0 then (t, NO_ROOM_ERROR)
      else (t, Ok(10, [180, 255, 76, 77, 66, 51, 46, 49, 46, 54][..if maxDest < 10 then maxDest else 10]))
  }

  // ---------------------------------------------------------------------------------------------
  // One exchange, PDU for PDU

  /** `check_confirmation` on the PDUs alone. */
  function CheckPdu(q: seq<byte>, p: seq<byte>): Checked
    requires Complete(Indication, q) && Complete(Confirmation, p)
  {
    var computed := ResponseLength(Tcp, q) - 7;
    if p[0] >= 0x80 then
      if |p| == 2 && q[0] == p[0] - 0x80 && p[1] < EXCEPTION_MAX then Rejected(ENOBASE + p[1]) else Rejected(EMBBADEXC)
    else if |p| != computed && q[0] != REPORT_SLAVE_ID then Rejected(EMBBADDATA)
    else if p[0] != q[0] then Rejected(EMBBADDATA)
    else
      var (reqNb, rspNb) := Quantities(q, p);
      if reqNb == rspNb then Accepted(rspNb) else Rejected(EMBBADDATA)
  }

  /** The PDU that answers call `c`, what the client accepts of it, and what it decodes. */
  ghost predicate Answers(c: Call, p: seq<byte>, o: Outcome)
    requires !Refused(c)
  {
    RequestComplete(c);
    && Complete(Confirmation, p) && |p| <= 253
    && match CheckPdu(RequestPdu(c), p)
       case Rejected(errno) => o == Error(errno)
       case Accepted(n) => Decodable(c, p, n) && o == Decode(c, p, n)
  }

  lemma {:induction false} MaskedIsSelect(d: nat, a: nat, o: nat, n: nat)
    ensures Or(And(d, a, n), And(o, Not(a, n), n), n) == Select(d, a, o, n)
  {
    if n != 0 {
      var notA, left := Not(a, n), And(d, a, n);
      var right := And(o, notA, n);
      assert notA / 2 == Not(a / 2, n - 1) && notA % 2 == if a % 2 == 1 then 0 else 1;
      assert left / 2 == And(d / 2, a / 2, n - 1) && right / 2 == And(o / 2, notA / 2, n - 1);
      MaskedIsSelect(d / 2, a / 2, o / 2, n - 1);
    }
  }

  // The client's test, answer by answer; `q` is any request PDU.

  lemma CheckException(q: seq<byte>, code: byte)
    requires Complete(Indication, q) && q[0] < 0x80 && code < EXCEPTION_MAX
    ensures var p := ReplyPdu(q, Exception(code));
            Complete(Confirmation, p) && |p| == 2 && CheckPdu(q, p) == Rejected(ENOBASE + code)
  {
  }

  lemma CheckBits(q: seq<byte>, bytes: seq<byte>)
    requires Complete(Indication, q) && q[0] in {READ_COILS, READ_DISCRETE_INPUTS}
    requires |bytes| == ByteCount(Field(q, 3)) <= 250
    ensures var p := [q[0], |bytes|] + bytes;
            Complete(Confirmation, p) && p[2..] == bytes && CheckPdu(q, p) == Accepted(|bytes|)
  {
  }

  lemma CheckRegisters(q: seq<byte>, bytes: seq<byte>)
    requires Complete(Indication, q)
    requires q[0] in {READ_HOLDING_REGISTERS, READ_INPUT_REGISTERS, WRITE_AND_READ_REGISTERS}
    requires |bytes| == 2 * Field(q, 3) <= 250
    ensures var p := [q[0], |bytes|] + bytes;
            Complete(Confirmation, p) && p[2..] == bytes && CheckPdu(q, p) == Accepted(Field(q, 3))
  {
  }

  lemma CheckCount(q: seq<byte>)
    requires Complete(Indication, q) && q[0] in {WRITE_MULTIPLE_COILS, WRITE_MULTIPLE_REGISTERS}
    ensures Complete(Confirmation, q[..5]) && CheckPdu(q, q[..5]) == Accepted(Field(q, 3))
  {
  }

  lemma CheckEcho(q: seq<byte>)
    requires Complete(Indication, q) && q[0] in {WRITE_SINGLE_COIL, WRITE_SINGLE_REGISTER, MASK_WRITE_REGISTER}
    ensures Complete(Confirmation, q) && CheckPdu(q, q) == Accepted(1)
  {
  }

  // The calls

  /** The one demand on a call of function 0x17, should nothing else be wrong with it: that it does not write below
      the start of the registers. */
  predicate AboveStart(start: nat, size: nat, c: Call) {
    c.WriteAndReadCall? && 1 <= |c.values| <= 121 && 1 <= c.nb <= 125 && Exists(start, size, c.addr, c.nb)
    && c.writeAddr + |c.values| <= start + size ==>
      c.writeAddr >= start
  }

  /** It is what the source needs to stay within its tables, neither more nor less. */
  lemma SupportedIff(start: nat, size: nat, c: Call)
    requires !Refused(c)
    ensures AboveStart(start, size, c) <==> Supported(start, size, RequestPdu(c))
  {
    hide RequestPdu, Field;
    if c.WriteAndReadCall? {
      WriteAndReadFields(c);
    } else {
      RequestKind(c);
      OtherKind(c);
    }
  }

  lemma OtherKind(c: Call)
    requires !Refused(c) && !c.WriteAndReadCall?
    ensures RequestPdu(c)[0] != WRITE_AND_READ_REGISTERS
  {
    hide Pack, RegisterBytes;
  }

  /** What the server makes of the request of a call. */
  function Executes(t: Tables, c: Call): Executed
    requires !Refused(c) && AboveStart(t.startRegisters, |t.registers|, c)
  {
    hide RequestPdu, Refused, Complete, AboveStart;
    RequestComplete(c);
    SupportedIff(t.startRegisters, |t.registers|, c);
    Execute(t, RequestPdu(c))
  }

  ghost predicate Refines(t: Tables, c: Call)
    requires !Refused(c) && AboveStart(t.startRegisters, |t.registers|, c)
  {
    var e := Executes(t, c);
    && !e.reply.Silence?
    && e.tables == Abstract(t, c).0
    && Answers(c, ReplyPdu(RequestPdu(c), e.reply), Abstract(t, c).1)
  }

  /** The five-octet request of a call that reads, or writes one cell. */
  lemma BasisRequest(c: Call)
    requires !Refused(c)
    requires c.ReadBitsCall? || c.ReadInputBitsCall? || c.ReadRegistersCall? || c.ReadInputRegistersCall?
             || c.WriteBitCall? || c.WriteRegisterCall?
    ensures var q := RequestPdu(c);
            && |q| == 5 && Field(q, 1) == c.addr
            && q[0] == (match c case ReadBitsCall(_, _) => READ_COILS
                                case ReadInputBitsCall(_, _) => READ_DISCRETE_INPUTS
                                case ReadRegistersCall(_, _) => READ_HOLDING_REGISTERS
                                case ReadInputRegistersCall(_, _) => READ_INPUT_REGISTERS
                                case WriteBitCall(_, _) => WRITE_SINGLE_COIL
                                case _ => WRITE_SINGLE_REGISTER)
            && Field(q, 3) == (match c case WriteBitCall(_, status) => if status then 0xFF00 else 0
                                       case WriteRegisterCall(_, value) => value
                                       case _ => c.nb)
  {
    hide Basis, Field;
    match c {
      case ReadBitsCall(addr, nb) => BasisFields(READ_COILS, addr, nb);
      case ReadInputBitsCall(addr, nb) => BasisFields(READ_DISCRETE_INPUTS, addr, nb);
      case ReadRegistersCall(addr, nb) => BasisFields(READ_HOLDING_REGISTERS, addr, nb);
      case ReadInputRegistersCall(addr, nb) => BasisFields(READ_INPUT_REGISTERS, addr, nb);
      case WriteBitCall(addr, status) => BasisFields(WRITE_SINGLE_COIL, addr, if status then 0xFF00 else 0);
      case WriteRegisterCall(addr, value) => BasisFields(WRITE_SINGLE_REGISTER, addr, value);
    }
  }

  lemma MaskWriteFields(c: Call)
    requires c.MaskWriteCall?
    ensures var q := RequestPdu(c);
            && |q| == 7 && q[0] == MASK_WRITE_REGISTER && Field(q, 1) == c.addr
            && Field(q, 3) == c.andMask && Field(q, 5) == c.orMask
  {
  }

  lemma WriteBitsFields(c: Call)
    requires !Refused(c) && c.WriteBitsCall?
    ensures var q, n := RequestPdu(c), |c.cells|;
            && |q| == 6 + ByteCount(n) && q[0] == WRITE_MULTIPLE_COILS && Field(q, 1) == c.addr && Field(q, 3) == n
            && q[5] == ByteCount(n) && q[6..] == Pack(Normalised(c.cells))
  {
    var q, n := RequestPdu(c), |c.cells|;
    var head := Basis(WRITE_MULTIPLE_COILS, c.addr, n) + [ByteCount(n)];
    assert q == head + Pack(Normalised(c.cells));
    hide Pack, RequestPdu, Refused;
    BasisFields(WRITE_MULTIPLE_COILS, c.addr, n);
    assert forall k | 0 <= k < 6 :: q[k] == head[k];
  }

  lemma WriteRegistersFields(c: Call)
    requires !Refused(c) && c.WriteRegistersCall?
    ensures var q, n := RequestPdu(c), |c.values|;
            && |q| == 6 + 2 * n && q[0] == WRITE_MULTIPLE_REGISTERS && Field(q, 1) == c.addr && Field(q, 3) == n
            && q[5] == 2 * n && q[6..] == RegisterBytes(c.values)
  {
    var q, n := RequestPdu(c), |c.values|;
    var head := Basis(WRITE_MULTIPLE_REGISTERS, c.addr, n) + [2 * n];
    assert q == head + RegisterBytes(c.values);
    hide RegisterBytes, RequestPdu, Refused;
    BasisFields(WRITE_MULTIPLE_REGISTERS, c.addr, n);
    assert forall k | 0 <= k < 6 :: q[k] == head[k];
  }

  lemma WriteAndReadFields(c: Call)
    requires !Refused(c) && c.WriteAndReadCall?
    ensures var q, n := RequestPdu(c), |c.values|;
            && |q| == 10 + 2 * n && q[0] == WRITE_AND_READ_REGISTERS
            && Field(q, 1) == c.addr && Field(q, 3) == c.nb && Field(q, 5) == c.writeAddr && Field(q, 7) == n
            && q[9] == 2 * n && q[10..] == RegisterBytes(c.values)
  {
    var q, n := RequestPdu(c), |c.values|;
    var head := Basis(WRITE_AND_READ_REGISTERS, c.addr, c.nb) + [Hi(c.writeAddr), Lo(c.writeAddr), Hi(n), Lo(n), 2 * n];
    assert q == head + RegisterBytes(c.values);
    hide RegisterBytes, RequestPdu, Refused;
    WordsOf(head, c.addr, c.nb, c.writeAddr, n);
    assert forall k | 0 <= k < 10 :: q[k] == head[k];
  }

  lemma WordsOf(head: seq<byte>, a: word, b: word, c: word, d: word)
    requires |head| == 10 && head[1..9] == [Hi(a), Lo(a), Hi(b), Lo(b), Hi(c), Lo(c), Hi(d), Lo(d)]
    ensures Field(head, 1) == a && Field(head, 3) == b && Field(head, 5) == c && Field(head, 7) == d
  {
    var w := head[1..9];
    assert forall k | 0 <= k < 8 :: w[k] == head[1 + k];
    assert head[1] == w[0] && head[2] == w[1] && head[3] == w[2] && head[4] == w[3];
    assert head[5] == w[4] && head[6] == w[5] && head[7] == w[6] && head[8] == w[7];
  }

  lemma ReadBitsRefines(t: Tables, c: Call)
    requires !Refused(c) && AboveStart(t.startRegisters, |t.registers|, c)
    requires c.ReadBitsCall? || c.ReadInputBitsCall?
    ensures Refines(t, c)
  {
    hide RequestPdu, CheckPdu, Complete, Pack, Unpack, Field;
    var q := RequestPdu(c);
    var (start, cells) := if c.ReadBitsCall? then (t.startBits, t.bits) else (t.startInputBits, t.inputBits);
    BasisRequest(c);
    RequestComplete(c);
    if c.nb == 0 {
      CheckException(q, ILLEGAL_DATA_VALUE);
    } else if !Exists(start, |cells|, c.addr, c.nb) {
      CheckException(q, ILLEGAL_DATA_ADDRESS);
    } else {
      var asked := cells[c.addr - start..c.addr - start + c.nb];
      UnpackPack(asked);
      CheckBits(q, Pack(asked));
    }
  }

  lemma ReadRegistersRefines(t: Tables, c: Call)
    requires !Refused(c) && AboveStart(t.startRegisters, |t.registers|, c)
    requires c.ReadRegistersCall? || c.ReadInputRegistersCall?
    ensures Refines(t, c)
  {
    hide RequestPdu, CheckPdu, Complete, RegisterBytes, BytesToRegisters, Field;
    var q := RequestPdu(c);
    var (start, regs) :=
      if c.ReadRegistersCall? then (t.startRegisters, t.registers) else (t.startInputRegisters, t.inputRegisters);
    BasisRequest(c);
    RequestComplete(c);
    if c.nb == 0 {
      CheckException(q, ILLEGAL_DATA_VALUE);
    } else if !Exists(start, |regs|, c.addr, c.nb) {
      CheckException(q, ILLEGAL_DATA_ADDRESS);
    } else {
      var asked := regs[c.addr - start..c.addr - start + c.nb];
      RegistersRoundTrip(asked);
      CheckRegisters(q, RegisterBytes(asked));
    }
  }

  lemma WriteOneRefines(t: Tables, c: Call)
    requires AboveStart(t.startRegisters, |t.registers|, c)
    requires c.WriteBitCall? || c.WriteRegisterCall? || c.MaskWriteCall?
    ensures Refines(t, c)
  {
    hide RequestPdu, CheckPdu, Complete, Field, And, Or, Not, Select;
    var q := RequestPdu(c);
    var (start, size) := if c.WriteBitCall? then (t.startBits, |t.bits|) else (t.startRegisters, |t.registers|);
    if c.MaskWriteCall? {
      MaskWriteFields(c);
    } else {
      BasisRequest(c);
    }
    RequestComplete(c);
    if !Exists(start, size, c.addr, 1) {
      CheckException(q, ILLEGAL_DATA_ADDRESS);
    } else {
      CheckEcho(q);
      if c.MaskWriteCall? {
        MaskedIsSelect(t.registers[c.addr - start], c.andMask, c.orMask, 16);
      }
    }
  }

  lemma WriteBitsRefines(t: Tables, c: Call)
    requires !Refused(c) && AboveStart(t.startRegisters, |t.registers|, c) && c.WriteBitsCall?
    ensures Refines(t, c)
  {
    hide RequestPdu, CheckPdu, Complete, Pack, Unpack, Splice, Field;
    var q, n := RequestPdu(c), |c.cells|;
    WriteBitsFields(c);
    RequestComplete(c);
    if n == 0 {
      CheckException(q, ILLEGAL_DATA_VALUE);
    } else if !Exists(t.startBits, |t.bits|, c.addr, n) {
      CheckException(q, ILLEGAL_DATA_ADDRESS);
    } else {
      UnpackPack(Normalised(c.cells));
      CheckCount(q);
    }
  }

  lemma WriteRegistersRefines(t: Tables, c: Call)
    requires !Refused(c) && AboveStart(t.startRegisters, |t.registers|, c) && c.WriteRegistersCall?
    ensures Refines(t, c)
  {
    hide RequestPdu, CheckPdu, Complete, RegisterBytes, BytesToRegisters, Splice, Field;
    var q, n := RequestPdu(c), |c.values|;
    WriteRegistersFields(c);
    RequestComplete(c);
    if n == 0 {
      CheckException(q, ILLEGAL_DATA_VALUE);
    } else if !Exists(t.startRegisters, |t.registers|, c.addr, n) {
      CheckException(q, ILLEGAL_DATA_ADDRESS);
    } else {
      RegistersRoundTrip(c.values);
      CheckCount(q);
    }
  }

  lemma WriteAndReadRefines(t: Tables, c: Call)
    requires !Refused(c) && AboveStart(t.startRegisters, |t.registers|, c) && c.WriteAndReadCall?
    ensures Refines(t, c)
  {
    hide RequestPdu, CheckPdu, Complete, RegisterBytes, BytesToRegisters, Splice, Field;
    var q, n := RequestPdu(c), |c.values|;
    WriteAndReadFields(c);
    RequestComplete(c);
    if n == 0 || c.nb == 0 {
      CheckException(q, ILLEGAL_DATA_VALUE);
    } else if !Exists(t.startRegisters, |t.registers|, c.addr, c.nb)
              || !Exists(t.startRegisters, |t.registers|, c.writeAddr, n) {
      CheckException(q, ILLEGAL_DATA_ADDRESS);
    } else {
      RegistersRoundTrip(c.values);
      var at := c.addr - t.startRegisters;
      var asked := Splice(t.registers, c.writeAddr - t.startRegisters, c.values)[at..at + c.nb];
      RegistersRoundTrip(asked);
      CheckRegisters(q, RegisterBytes(asked));
    }
  }

  lemma ReportSlaveIdRefines(t: Tables, c: Call)
    requires !Refused(c) && AboveStart(t.startRegisters, |t.registers|, c) && c.ReportSlaveIdCall?
    ensures Refines(t, c)
  {
    var n := if c.maxDest < 10 then c.maxDest else 10;
    BehindTheCount(REPORT_SLAVE_ID, [180, 255, 76, 77, 66, 51, 46, 49, 46, 54], n);
  }

  lemma BehindTheCount(function_: byte, data: seq<byte>, n: nat)
    requires n <= |data| < 0x100
    ensures ([function_, |data|] + data)[2..2 + n] == data[..n]
  {
  }

  /** At the level of PDUs every call the client sends does what the abstract machine does. */
  lemma PduRefinement(t: Tables, c: Call)
    requires !Refused(c) && AboveStart(t.startRegisters, |t.registers|, c)
    ensures Refines(t, c)
  {
    match c {
      case ReadBitsCall(_, _) => ReadBitsRefines(t, c);
      case ReadInputBitsCall(_, _) => ReadBitsRefines(t, c);
      case ReadRegistersCall(_, _) => ReadRegistersRefines(t, c);
      case ReadInputRegistersCall(_, _) => ReadRegistersRefines(t, c);
      case WriteBitCall(_, _) => WriteOneRefines(t, c);
      case WriteRegisterCall(_, _) => WriteOneRefines(t, c);
      case WriteBitsCall(_, _) => WriteBitsRefines(t, c);
      case WriteRegistersCall(_, _) => WriteRegistersRefines(t, c);
      case MaskWriteCall(_, _, _) => WriteOneRefines(t, c);
      case WriteAndReadCall(_, _, _, _) => WriteAndReadRefines(t, c);
      case ReportSlaveIdCall(_) => ReportSlaveIdRefines(t, c);
    }
  }

  // ---------------------------------------------------------------------------------------------
  // Whole frames

  lemma MessageIsLong(b: Backend, t: MsgType, s: seq<byte>)
    requires Frame(b, t, s).Message?
    ensures var n := Frame(b, t, s).length;
            b.HeaderLength() + b.ChecksumLength() < n <= |s| && IsMessage(b, t, s[..n])
  {
    var h, n := b.HeaderLength(), Frame(b, t, s).length;
    assert s[..n][h] == s[h];
    assert forall k | 0 <= k < n - h :: s[..n][h..][k] == s[h..][k];
  }

  predicate Servable(b: Backend, start: nat, size: nat, s: seq<byte>) {
    Frame(b, Indication, s).Message? ==>
      (MessageIsLong(b, Indication, s);
       Supported(start, size, b.Pdu(s[..Frame(b, Indication, s).length])))
  }

  /** The server reads one request from the octets at hand and sends what `modbus_reply` answers. */
  function ServerTurn(b: Backend, slave: byte, t: Tables, s: seq<byte>): (Tables, seq<byte>)
    requires Servable(b, t.startRegisters, |t.registers|, s)
  {
    match Frame(b, Indication, s)
    case Message(n) =>
      MessageIsLong(b, Indication, s);
      if b.CheckIntegrity(slave, s[..n]) <= 0 then (t, [])
      else
        var served := Serve(b, t, s[..n]);
        (served.tables, if served.frame.Some? then served.frame.value else [])
    case _ => (t, [])
  }

  /** The client reads one response; a response from another slave reaches `check_confirmation` with length 0. */
  function ClientTurn(b: Backend, tId: word, slave: byte, c: Call, s: seq<byte>): Outcome
    requires !Refused(c)
  {
    match Frame(b, Confirmation, s)
    case Partial => Error(ECONNRESET)
    case TooLong(_) => Error(EMBBADDATA)
    case Message(n) =>
      MessageIsLong(b, Confirmation, s);
      var rc := b.CheckIntegrity(slave, s[..n]);
      if rc < 0 then Error(EMBBADCRC) else Finish(b, tId, slave, c, s[..n], rc)
  }

  lemma RequestServable(b: Backend, tId: word, slave: byte, start: nat, size: nat, c: Call)
    requires !Refused(c) && AboveStart(start, size, c)
    ensures Servable(b, start, size, Request(b, tId, slave, c))
  {
    hide RequestPdu, Refused, Complete, AboveStart, Frame, Supported, Backend.Pdu, Request;
    RequestIsMessage(b, tId, slave, c);
    SupportedIff(start, size, c);
    var req := Request(b, tId, slave, c);
    assert req[..|req|] == req;
  }

  /** One call against a server over a link that loses nothing. */
  function Transact(b: Backend, tId: word, slave: byte, t: Tables, c: Call): (Tables, Outcome)
    requires AboveStart(t.startRegisters, |t.registers|, c) && (b.Rtu? ==> slave != BROADCAST_ADDRESS)
  {
    hide Servable, Request, AboveStart, Refused;
    if Refused(c) then (t, Error(RefusalErrno(c)))
    else
      RequestServable(b, tId, slave, t.startRegisters, |t.registers|, c);
      var (t', s) := ServerTurn(b, slave, t, Request(b, tId, slave, c));
      (t', ClientTurn(b, tId, slave, c, s))
  }

  /** Whatever is echoed or built, the sealed reply is header, reply PDU and checksum. */
  lemma ReplySealed(b: Backend, tId: word, slave: byte, q: seq<byte>, reply: Reply)
    requires q != [] && |q| <= 253 && !reply.Silence? && (reply.Answer? ==> reply.pdu != [])
    ensures var req := b.Sealed(b.Header(tId, slave) + q);
            b.Sealed(Response(b, req, reply)) == b.Sealed(b.Header(tId, slave) + ReplyPdu(q, reply))
  {
    hide Crc.CrcHi, Crc.CrcLo;
    var msg := b.Header(tId, slave) + q;
    var req := b.Sealed(msg);
    SealedKeeps(b, tId, slave, q);
    if reply.Echo? {
      if b.Rtu? {
        assert req[..|req| - 2] == msg;
      }
    }
  }

  /** On a reply that keeps header and identifier, `check_confirmation` compares the PDUs. */
  lemma CheckSealed(b: Backend, tId: word, slave: byte, q: seq<byte>, p: seq<byte>)
    requires Complete(Indication, q) && |q| <= 253
    requires Complete(Confirmation, p) && |p| <= 253
    ensures var req, rsp := b.Sealed(b.Header(tId, slave) + q), b.Sealed(b.Header(tId, slave) + p);
            && b.Pdu(req) == q && b.Pdu(rsp) == p && IsMessage(b, Confirmation, rsp)
            && CheckConfirmation(b, req, rsp, |rsp|) == CheckPdu(q, p)
  {
    assert q != [] && p != [];
    hide Complete, IsMessage, Quantities;
    var req, rsp := b.Sealed(b.Header(tId, slave) + q), b.Sealed(b.Header(tId, slave) + p);
    SealedKeeps(b, tId, slave, q);
    SealedKeeps(b, tId, slave, p);
    MessageIffComplete(b, Confirmation, rsp);
    SealedStart(b, tId, slave, q);
    SealedStart(b, tId, slave, p);
  }

  lemma SealedStart(b: Backend, tId: word, slave: byte, q: seq<byte>)
    requires q != []
    ensures var f := b.Sealed(b.Header(tId, slave) + q);
            if b.Rtu? then f[0] == slave
            else f[0] == Hi(tId) && f[1] == Lo(tId) && f[2] == 0 && f[6] == slave
  {
    hide Crc.CrcHi, Crc.CrcLo;
  }

  lemma ServerAnswers(b: Backend, tId: word, slave: byte, t: Tables, c: Call)
    requires !Refused(c) && AboveStart(t.startRegisters, |t.registers|, c) && (b.Rtu? ==> slave != BROADCAST_ADDRESS)
    requires !Executes(t, c).reply.Silence?
    requires Servable(b, t.startRegisters, |t.registers|, Request(b, tId, slave, c))
    ensures RequestPdu(c) != []
    ensures var e := Executes(t, c);
            ServerTurn(b, slave, t, Request(b, tId, slave, c))
            == (e.tables, b.Sealed(b.Header(tId, slave) + ReplyPdu(RequestPdu(c), e.reply)))
  {
    hide RequestPdu, Complete, Frame, Execute, Response, ReplyPdu, Supported, Refused, AboveStart, Servable,
         Backend.Sealed, Backend.CheckIntegrity, Backend.Pdu;
    RequestComplete(c);
    SupportedIff(t.startRegisters, |t.registers|, c);
    var q, req := RequestPdu(c), Request(b, tId, slave, c);
    RequestIsMessage(b, tId, slave, c);
    assert req[..|req|] == req;
    ReplySealed(b, tId, slave, q, Execute(t, q).reply);
  }

  lemma ClientAccepts(b: Backend, tId: word, slave: byte, c: Call, p: seq<byte>, o: Outcome)
    requires !Refused(c) && Answers(c, p, o)
    ensures ClientTurn(b, tId, slave, c, b.Sealed(b.Header(tId, slave) + p)) == o
  {
    RequestComplete(c);
    assert p != [];
    hide RequestPdu, Complete, Frame, CheckPdu, CheckConfirmation, Decode, Decodable,
         Backend.Sealed, Backend.CheckIntegrity, Backend.Pdu;
    var rsp := b.Sealed(b.Header(tId, slave) + p);
    assert rsp[..|rsp|] == rsp;
    CheckSealed(b, tId, slave, RequestPdu(c), p);
    SealedPasses(b, b.Header(tId, slave) + p);
  }

  lemma RefusedAlike(t: Tables, c: Call)
    requires Refused(c)
    ensures Abstract(t, c) == (t, Error(RefusalErrno(c)))
  {
  }

  /** Every call, over RTU or TCP, returns what the abstract machine returns and leaves its tables. */
  lemma TransactRefines(b: Backend, tId: word, slave: byte, t: Tables, c: Call)
    requires AboveStart(t.startRegisters, |t.registers|, c) && (b.Rtu? ==> slave != BROADCAST_ADDRESS)
    ensures Transact(b, tId, slave, t, c) == Abstract(t, c)
  {
    hide RequestPdu, Executes, ServerTurn, ClientTurn, Answers, Backend.Sealed, Refused, AboveStart, Servable, Request;
    if Refused(c) {
      RefusedAlike(t, c);
    } else {
      PduRefinement(t, c);
      RequestServable(b, tId, slave, t.startRegisters, |t.registers|, c);
      ServerAnswers(b, tId, slave, t, c);
      ClientAccepts(b, tId, slave, c, ReplyPdu(RequestPdu(c), Executes(t, c).reply), Abstract(t, c).1);
    }
  }

  // ---------------------------------------------------------------------------------------------
  // Whole sessions

  /** `_modbus_tcp_build_request_basis`: the identifier of the next request. */
  function NextTid(tId: word): word {
    if tId < 0xFFFF then tId + 1 else 0
  }

  function Session(b: Backend, tId: word, slave: byte, t: Tables, calls: seq<Call>): (Tables, seq<Outcome>)
    requires forall k | 0 <= k < |calls| :: AboveStart(t.startRegisters, |t.registers|, calls[k])
    requires b.Rtu? ==> slave != BROADCAST_ADDRESS
    decreases |calls|
  {
    if calls == [] then (t, [])
    else
      var tId' := if Refused(calls[0]) then tId else NextTid(tId);
      hide Transact, Abstract;
      TransactRefines(b, tId', slave, t, calls[0]);
      AbstractKeepsStart(t, calls[0]);
      var (t', o) := Transact(b, tId', slave, t, calls[0]);
      var (t'', os) := Session(b, tId', slave, t', calls[1..]);
      (t'', [o] + os)
  }

  function AbstractSession(t: Tables, calls: seq<Call>): (Tables, seq<Outcome>)
    decreases |calls|
  {
    if calls == [] then (t, [])
    else
      var (t', o) := Abstract(t, calls[0]);
      var (t'', os) := AbstractSession(t', calls[1..]);
      (t'', [o] + os)
  }

  /** For every sequence of calls, the values and errors they return and the tables they leave are those
      of the abstract machine, in RTU and in TCP, whatever the first transaction identifier. */
  lemma {:induction false} SessionRefines(b: Backend, tId: word, slave: byte, t: Tables, calls: seq<Call>)
    requires forall k | 0 <= k < |calls| :: AboveStart(t.startRegisters, |t.registers|, calls[k])
    requires b.Rtu? ==> slave != BROADCAST_ADDRESS
    ensures Session(b, tId, slave, t, calls) == AbstractSession(t, calls)
    decreases |calls|
  {
    hide Transact, Abstract, Refused;
    if calls != [] {
      var tId' := if Refused(calls[0]) then tId else NextTid(tId);
      TransactRefines(b, tId', slave, t, calls[0]);
      AbstractKeepsStart(t, calls[0]);
      SessionRefines(b, tId', slave, Abstract(t, calls[0]).0, calls[1..]);
    }
  }

  lemma AbstractKeepsStart(t: Tables, c: Call)
    ensures Abstract(t, c).0.startRegisters == t.startRegisters && |Abstract(t, c).0.registers| == |t.registers|
  {
  }

  lemma FirstCall(t: Tables, calls: seq<Call>)
    requires calls != []
    ensures var (t1, o) := Abstract(t, calls[0]);
            AbstractSession(t, calls)
            == (AbstractSession(t1, calls[1..]).0, [o] + AbstractSession(t1, calls[1..]).1)
  {
    hide Abstract;
  }

  lemma SessionOfTwo(t: Tables, first: Call, second: Call)
    ensures var (t1, o1) := Abstract(t, first);
            var (t2, o2) := Abstract(t1, second);
            AbstractSession(t, [first, second]) == (t2, [o1, o2])
  {
    hide Abstract, AbstractSession;
    var t1 := Abstract(t, first).0;
    FirstCall(t, [first, second]);
    assert [first, second][1..] == [second] && [second][1..] == [];
    FirstCall(t1, [second]);
    NoCalls(Abstract(t1, second).0);
    var o1, o2 := Abstract(t, first).1, Abstract(t1, second).1;
    assert [o1] + ([o2] + []) == [o1, o2];
  }

  lemma NoCalls(t: Tables)
    ensures AbstractSession(t, []) == (t, [])
  {
  }

  /** Coils written are read back as 0 or 1, whatever nonzero octets stood for ON and however many they are, and no
      cell outside the range is touched. */
  lemma BitsReadBack(b: Backend, tId: word, slave: byte, t: Tables, addr: word, cells: seq<byte>)
    requires b.Rtu? ==> slave != BROADCAST_ADDRESS
    requires 1 <= |cells| <= MAX_WRITE_BITS && Exists(t.startBits, |t.bits|, addr, |cells|)
    ensures Session(b, tId, slave, t, [WriteBitsCall(addr, cells), ReadBitsCall(addr, |cells|)])
            == (t.(bits := Splice(t.bits, addr - t.startBits, Normalised(cells))),
                [Ok(|cells|, []), Ok(|cells|, Normalised(cells))])
  {
    hide Session, AbstractSession, Splice, Normalised;
    var first, second := WriteBitsCall(addr, cells), ReadBitsCall(addr, |cells|);
    assert AboveStart(t.startRegisters, |t.registers|, first) && AboveStart(t.startRegisters, |t.registers|, second);
    SessionRefines(b, tId, slave, t, [first, second]);
    SessionOfTwo(t, first, second);
  }

  /** Registers written are read back unchanged, and no register outside the range is touched. */
  lemma RegistersReadBack(b: Backend, tId: word, slave: byte, t: Tables, addr: word, values: seq<word>)
    requires b.Rtu? ==> slave != BROADCAST_ADDRESS
    requires 1 <= |values| <= MAX_WRITE_REGISTERS && Exists(t.startRegisters, |t.registers|, addr, |values|)
    ensures Session(b, tId, slave, t, [WriteRegistersCall(addr, values), ReadRegistersCall(addr, |values|)])
            == (t.(registers := Splice(t.registers, addr - t.startRegisters, values)),
                [Ok(|values|, []), Ok(|values|, values)])
  {
    hide Session, AbstractSession, Splice;
    var first, second := WriteRegistersCall(addr, values), ReadRegistersCall(addr, |values|);
    assert AboveStart(t.startRegisters, |t.registers|, first) && AboveStart(t.startRegisters, |t.registers|, second);
    SessionRefines(b, tId, slave, t, [first, second]);
    SessionOfTwo(t, first, second);
  }
}
