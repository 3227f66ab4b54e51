/** What each call comes to, cell by cell, and for which calls: the quantities of section 6 of the MODBUS Application
    Protocol and the error numbers a caller meets, in figures. */
module Calls {
  import opened Bytes
  import opened Packing
  import opened Framing
  import opened Backend
  import opened Server
  import opened Client
  import opened EndToEnd
  import opened ServerSafety

  /** A quantity that the protocol allows. */
  predicate Within(c: Call) {
    match c
    case ReadBitsCall(_, nb) => 1 <= nb <= 2000
    case ReadInputBitsCall(_, nb) => 1 <= nb <= 2000
    case ReadRegistersCall(_, nb) => 1 <= nb <= 125
    case ReadInputRegistersCall(_, nb) => 1 <= nb <= 125
    case WriteBitsCall(_, cells) => 1 <= |cells| <= 1968
    case WriteRegistersCall(_, values) => 1 <= |values| <= 123
    case WriteAndReadCall(_, values, _, nb) => 1 <= |values| <= 121 && 1 <= nb <= 125
    case ReportSlaveIdCall(maxDest) => 1 <= maxDest
    case _ => true
  }

  predicate Above(c: Call) {
    match c
    case ReadBitsCall(_, nb) => nb > 2000
    case ReadInputBitsCall(_, nb) => nb > 2000
    case ReadRegistersCall(_, nb) => nb > 125
    case ReadInputRegistersCall(_, nb) => nb > 125
    case WriteBitsCall(_, cells) => |cells| > 1968
    case WriteRegistersCall(_, values) => |values| > 123
    case WriteAndReadCall(_, values, _, nb) => |values| > 121 || nb > 125
    case _ => false
  }

  /** The client refuses, before it sends anything, exactly what is above the limits and an identity that has no
      room. */
  lemma RefusedIff(c: Call)
    ensures Refused(c) <==> Above(c) || (c.ReportSlaveIdCall? && !Within(c))
  {
  }

  predicate In(start: nat, size: nat, addr: word, nb: nat) {
    start <= addr && addr + nb <= start + size
  }

  /** The server has all the cells that a call is about. */
  predicate CellsExist(t: Tables, c: Call) {
    match c
    case ReadBitsCall(addr, nb) => In(t.startBits, |t.bits|, addr, nb)
    case ReadInputBitsCall(addr, nb) => In(t.startInputBits, |t.inputBits|, addr, nb)
    case ReadRegistersCall(addr, nb) => In(t.startRegisters, |t.registers|, addr, nb)
    case ReadInputRegistersCall(addr, nb) => In(t.startInputRegisters, |t.inputRegisters|, addr, nb)
    case WriteBitCall(addr, _) => In(t.startBits, |t.bits|, addr, 1)
    case WriteBitsCall(addr, cells) => In(t.startBits, |t.bits|, addr, |cells|)
    case WriteRegisterCall(addr, _) => In(t.startRegisters, |t.registers|, addr, 1)
    case WriteRegistersCall(addr, values) => In(t.startRegisters, |t.registers|, addr, |values|)
    case MaskWriteCall(addr, _, _) => In(t.startRegisters, |t.registers|, addr, 1)
    case WriteAndReadCall(writeAddr, values, addr, nb) =>
      In(t.startRegisters, |t.registers|, writeAddr, |values|) && In(t.startRegisters, |t.registers|, addr, nb)
    case ReportSlaveIdCall(_) => true
  }

  /** Coil `i` after the cells from `addr` on have been written with `cells`, of which any nonzero octet is ON. */
  function CoilAfter(t: Tables, addr: int, cells: seq<byte>, i: nat): byte
    requires i < |t.bits|
  {
    var k := i - (addr - t.startBits);
    if 0 <= k < |cells| then (if cells[k] != 0 then 1 else 0) else t.bits[i]
  }

  function RegisterAfter(t: Tables, addr: int, values: seq<word>, i: nat): word
    requires i < |t.registers|
  {
    var k := i - (addr - t.startRegisters);
    if 0 <= k < |values| then values[k] else t.registers[i]
  }

  /** The coils of `t'` are those of `t` with `cells` written from `addr` on, and nothing else differs. */
  ghost predicate CoilsWritten(t: Tables, t': Tables, addr: int, cells: seq<byte>) {
    && t' == t.(bits := t'.bits) && |t'.bits| == |t.bits|
    && forall i | 0 <= i < |t.bits| :: t'.bits[i] == CoilAfter(t, addr, cells, i)
  }

  ghost predicate RegistersWritten(t: Tables, t': Tables, addr: int, values: seq<word>) {
    && t' == t.(registers := t'.registers) && |t'.registers| == |t.registers|
    && forall i | 0 <= i < |t.registers| :: t'.registers[i] == RegisterAfter(t, addr, values, i)
  }

  /** Each bit of `new` is the old one where the AND mask has a 1, and the OR mask's where it has a 0. */
  ghost predicate MaskedBits(new_: word, old_: word, andMask: word, orMask: word) {
    forall k | 0 <= k < 16 :: Bit(new_, k) == if Bit(andMask, k) == 1 then Bit(old_, k) else Bit(orMask, k)
  }

  predicate Holding(start: nat, cells: seq<word>, addr: int, nb: nat, o: Outcome)
    requires start <= addr && addr + nb <= start + |cells|
  {
    o == Ok(nb, cells[addr - start..addr - start + nb])
  }

  /** What the call leaves and returns when it goes through. */
  ghost predicate GoesThrough(t: Tables, c: Call, t': Tables, o: Outcome)
    requires CellsExist(t, c)
  {
    match c
    case ReadBitsCall(addr, nb) => t' == t && Holding(t.startBits, t.bits, addr, nb, o)
    case ReadInputBitsCall(addr, nb) => t' == t && Holding(t.startInputBits, t.inputBits, addr, nb, o)
    case ReadRegistersCall(addr, nb) => t' == t && Holding(t.startRegisters, t.registers, addr, nb, o)
    case ReadInputRegistersCall(addr, nb) => t' == t && Holding(t.startInputRegisters, t.inputRegisters, addr, nb, o)
    case WriteBitCall(addr, status) => CoilsWritten(t, t', addr, [if status then 1 else 0]) && o == Ok(1, [])
    case WriteBitsCall(addr, cells) => CoilsWritten(t, t', addr, cells) && o == Ok(|cells|, [])
    case WriteRegisterCall(addr, value) => RegistersWritten(t, t', addr, [value]) && o == Ok(1, [])
    case WriteRegistersCall(addr, values) => RegistersWritten(t, t', addr, values) && o == Ok(|values|, [])
    case MaskWriteCall(addr, andMask, orMask) =>
      var at := addr - t.startRegisters;
      && |t'.registers| == |t.registers| && RegistersWritten(t, t', addr, [t'.registers[at]])
      && MaskedBits(t'.registers[at], t.registers[at], andMask, orMask) && o == Ok(1, [])
    case WriteAndReadCall(writeAddr, values, addr, nb) =>
      RegistersWritten(t, t', writeAddr, values) && Holding(t.startRegisters, t'.registers, addr, nb, o)
    case ReportSlaveIdCall(maxDest) =>
      t' == t && o == Ok(10, [180, 255, 76, 77, 66, 51, 46, 49, 46, 54][..if maxDest < 10 then maxDest else 10])
  }

  /** A call on its own, and as a session of one call. */
  ghost predicate Yields(b: Backend, tId: word, slave: byte, t: Tables, c: Call, t': Tables, o: Outcome)
    requires AboveStart(t.startRegisters, |t.registers|, c) && (b.Rtu? ==> slave != 0)
  {
    Transact(b, tId, slave, t, c) == (t', o) && Session(b, tId, slave, t, [c]) == (t', [o])
  }

  lemma YieldsAbstract(b: Backend, tId: word, slave: byte, t: Tables, c: Call)
    requires AboveStart(t.startRegisters, |t.registers|, c) && (b.Rtu? ==> slave != 0)
    ensures Yields(b, tId, slave, t, c, Abstract(t, c).0, Abstract(t, c).1)
  {
    hide Transact, Session, AbstractSession, Abstract, AboveStart;
    TransactRefines(b, tId, slave, t, c);
    assert Session(b, tId, slave, t, [c]) == AbstractSession(t, [c]) by {
      SessionRefines(b, tId, slave, t, [c]);
    }
    FirstCall(t, [c]);
    NoCalls(Abstract(t, c).0);
    assert [c][1..] == [];
    assert [Abstract(t, c).1] + [] == [Abstract(t, c).1];
  }

  lemma {:induction false} SelectBit(d: nat, a: nat, o: nat, n: nat, k: nat)
    requires k < n
    ensures Bit(Select(d, a, o, n), k) == if Bit(a, k) == 1 then Bit(d, k) else Bit(o, k)
  {
    if k != 0 {
      SelectBit(d / 2, a / 2, o / 2, n - 1, k - 1);
    }
  }

  lemma {:induction false} SelectBound(d: nat, a: nat, o: nat, n: nat)
    ensures Select(d, a, o, n) < Pow2(n)
  {
    if n != 0 {
      SelectBound(d / 2, a / 2, o / 2, n - 1);
    }
  }

  lemma Pow2Of16()
    ensures Pow2(16) == 0x1_0000
  {
    assert Pow2(8) == 0x100;
  }

  lemma MaskedValue(d: word, a: word, o: word)
    ensures MaskedBits(U16(Select(d, a, o, 16)), d, a, o)
  {
    hide Bit, Select, Pow2;
    Pow2Of16();
    SelectBound(d, a, o, 16);
    forall k: nat | k < 16 {
      SelectBit(d, a, o, 16, k);
    }
  }

  lemma MaskGoesThrough(t: Tables, c: Call)
    requires c.MaskWriteCall? && CellsExist(t, c)
    ensures GoesThrough(t, c, Abstract(t, c).0, Abstract(t, c).1)
  {
    MaskedValue(t.registers[c.addr - t.startRegisters], c.andMask, c.orMask);
    hide Select, MaskedBits;
  }

  lemma WriteGoesThrough(t: Tables, c: Call)
    requires Within(c) && CellsExist(t, c)
    requires c.WriteBitCall? || c.WriteBitsCall? || c.WriteRegisterCall? || c.WriteRegistersCall?
    ensures GoesThrough(t, c, Abstract(t, c).0, Abstract(t, c).1)
  {
  }

  lemma WriteAndReadGoesThrough(t: Tables, c: Call)
    requires Within(c) && CellsExist(t, c) && c.WriteAndReadCall?
    ensures GoesThrough(t, c, Abstract(t, c).0, Abstract(t, c).1)
  {
  }

  lemma AbstractGoesThrough(t: Tables, c: Call)
    requires Within(c) && CellsExist(t, c)
    ensures GoesThrough(t, c, Abstract(t, c).0, Abstract(t, c).1)
  {
    hide Splice, RegistersWritten, CoilsWritten, MaskedBits, Normalised;
    match c {
      case MaskWriteCall(_, _, _) => MaskGoesThrough(t, c);
      case WriteAndReadCall(_, _, _, _) => WriteAndReadGoesThrough(t, c);
      case WriteBitCall(_, _) => WriteGoesThrough(t, c);
      case WriteBitsCall(_, _) => WriteGoesThrough(t, c);
      case WriteRegisterCall(_, _) => WriteGoesThrough(t, c);
      case WriteRegistersCall(_, _) => WriteGoesThrough(t, c);
      case _ =>
    }
  }

  /** Inside the limits, and on cells that exist, every call goes through. */
  lemma InsideTheLimits(b: Backend, tId: word, slave: byte, t: Tables, c: Call) returns (t': Tables, o: Outcome)
    requires b.Rtu? ==> slave != 0
    requires Within(c) && CellsExist(t, c)
    ensures AboveStart(t.startRegisters, |t.registers|, c)
    ensures Yields(b, tId, slave, t, c, t', o) && GoesThrough(t, c, t', o)
  {
    assert AboveStart(t.startRegisters, |t.registers|, c);
    AbstractGoesThrough(t, c);
    YieldsAbstract(b, tId, slave, t, c);
    t', o := Abstract(t, c).0, Abstract(t, c).1;
  }

  /** Outside them nothing is written, and the error number is EMBMDATA above the limits, EINVAL for an identity that
      has no room, EMBXILVAL for a quantity of zero, and EMBXILADD for cells that do not exist. */
  lemma OutsideTheLimits(b: Backend, tId: word, slave: byte, t: Tables, c: Call)
    requires AboveStart(t.startRegisters, |t.registers|, c) && (b.Rtu? ==> slave != 0)
    ensures Above(c) ==> Yields(b, tId, slave, t, c, t, Error(112345694))
    ensures c.ReportSlaveIdCall? && !Within(c) ==> Yields(b, tId, slave, t, c, t, Error(22))
    ensures !c.ReportSlaveIdCall? && !Above(c) && !Within(c) ==> Yields(b, tId, slave, t, c, t, Error(112345681))
    ensures Within(c) && !CellsExist(t, c) ==> Yields(b, tId, slave, t, c, t, Error(112345680))
  {
    YieldsAbstract(b, tId, slave, t, c);
    hide AboveStart, Yields;
  }

  // ---------------------------------------------------------------------------------------------
  // Broadcast

  /** Every frame a server receives is executed, and answered unless it is function 0x07 or, in RTU, for all slaves. */
  lemma AnsweredIff(b: Backend, t: Tables, req: seq<byte>)
    requires Acceptable(b, t.startRegisters, |t.registers|, req)
    ensures Complete(Indication, b.Pdu(req))
    ensures Serve(b, t, req).tables == Execute(t, b.Pdu(req)).tables
    ensures Serve(b, t, req).frame.None? <==> b.Pdu(req)[0] == 7 || (b.Rtu? && req[0] == 0)
  {
    MessageIffComplete(b, Indication, req);
    hide IsMessage, ReadBits, ReadRegisters, WriteBit, WriteRegister, WriteBits, WriteRegisters, MaskWrite,
         WriteAndRead;
  }

  /** A call made to all slaves at once is executed by each of them as the abstract machine does it, and answered by
      none. */
  lemma BroadcastExecutes(slave: byte, tId: word, t: Tables, c: Call)
    requires !Refused(c) && AboveStart(t.startRegisters, |t.registers|, c)
    ensures var req := Request(Rtu, tId, 0, c);
            && Acceptable(Rtu, t.startRegisters, |t.registers|, req)
            && Serve(Rtu, t, req) == Served(Abstract(t, c).0, None)
            && Servable(Rtu, t.startRegisters, |t.registers|, req)
            && ServerTurn(Rtu, slave, t, req) == (Abstract(t, c).0, [])
  {
    hide RequestPdu, Refused, Complete, AboveStart, Frame, Execute, Supported, Request, Answers,
         Backend.Sealed, Backend.Pdu;
    RequestIsMessage(Rtu, tId, 0, c);
    RequestComplete(c);
    SupportedIff(t.startRegisters, |t.registers|, c);
    var req := Request(Rtu, tId, 0, c);
    assert req[..|req|] == req;
    AnsweredIff(Rtu, t, req);
    PduRefinement(t, c);
    SealedPassesAll(slave, tId, c);
  }

  /** What is sealed for slave 0 passes the test of every slave. */
  lemma SealedPassesAll(slave: byte, tId: word, c: Call)
    requires !Refused(c)
    ensures var req := Request(Rtu, tId, 0, c); |req| > 3 && Rtu.CheckIntegrity(slave, req) == |req| && req[0] == 0
  {
    hide RequestPdu, Refused, Complete, CrcDetection.CrcMatches, IsMessage, Request, Backend.Pdu, Backend.Tid;
    RequestIsMessage(Rtu, tId, 0, c);
  }
}
