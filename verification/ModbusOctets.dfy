/** The messages of the MODBUS half octet by octet, with every number of the protocol in figures: what the client sends,
    where a frame ends, what the server makes of any PDU, and what the client makes of an answer. */
module ModbusOctets {
  import opened Bytes
  import opened Packing
  import opened Framing
  import opened Backend
  import opened Server
  import opened Client
  import opened EndToEnd
  import opened ServerSafety
  import opened Calls
  import Crc
  import CrcDetection

  /** The 16-bit value at `at`, high octet first. */
  function Value(p: seq<byte>, at: nat): (v: word)
    requires at + 1 < |p|
  {
    var high: int, low: int := p[at], p[at + 1];
    256 * high + low
  }

  // ---------------------------------------------------------------------------------------------
  // Bits and registers

  /** The bits of an octet, low bit first. */
  lemma BitsInFigures(v: byte)
    ensures v == Bit(v, 0) + 2 * Bit(v, 1) + 4 * Bit(v, 2) + 8 * Bit(v, 3)
                 + 16 * Bit(v, 4) + 32 * Bit(v, 5) + 64 * Bit(v, 6) + 128 * Bit(v, 7)
  {
    hide Bit;
    LowBitsOf(v, 0);
    LowBitsOf(v, 1);
    LowBitsOf(v, 2);
    LowBitsOf(v, 3);
    LowBitsOf(v / 16, 0);
    assert v / 16 / 16 == 0;
  }

  lemma LowBitsOf(v: nat, k: nat)
    ensures v == 16 * (v / 16) + Bit(v, 0) + 2 * Bit(v, 1) + 4 * Bit(v, 2) + 8 * Bit(v, 3)
    ensures Bit(v, k + 4) == Bit(v / 16, k)
  {
    hide Bit;
    var w := v / 4;
    TwoBitsOf(v, 0);
    TwoBitsOf(v, 1);
    TwoBitsOf(v, k + 2);
    TwoBitsOf(w, k);
    assert w / 4 == v / 16;
  }

  lemma TwoBitsOf(v: nat, k: nat)
    ensures v == 4 * (v / 4) + Bit(v, 0) + 2 * Bit(v, 1)
    ensures Bit(v, k + 2) == Bit(v / 4, k)
  {
    hide Bit;
    NextBitOf(v, 0);
    NextBitOf(v, k + 1);
    NextBitOf(v / 2, k);
    LowestBitOf(v);
    LowestBitOf(v / 2);
    assert v / 2 / 2 == v / 4;
  }

  lemma NextBitOf(v: nat, k: nat)
    ensures Bit(v, k + 1) == Bit(v / 2, k)
  {
  }

  lemma LowestBitOf(v: nat)
    ensures Bit(v, 0) == v % 2
  {
  }

  /** Octets that carry `cells`, cell `k` in bit `k % 8` of octet `k / 8`, and nothing else. */
  ghost predicate Carry(bytes: seq<byte>, cells: seq<byte>) {
    && |bytes| == (|cells| + 7) / 8
    && forall k | 0 <= k < 8 * |bytes| ::
         Bit(bytes[k / 8], k % 8) == if k < |cells| && cells[k] != 0 then 1 else 0
  }

  /** Octets that carry `values`, high octet first. */
  ghost predicate CarryWords(bytes: seq<byte>, values: seq<word>) {
    && |bytes| == 2 * |values|
    && forall i | 0 <= i < |values| :: bytes[2 * i] == values[i] / 256 && bytes[2 * i + 1] == values[i] % 256
  }

  lemma PackCarries(src: seq<byte>)
    ensures Carry(Pack(Normalised(src)), src)
  {
    var cells, bytes := Normalised(src), Pack(Normalised(src));
    forall k | 0 <= k < 8 * |bytes|
      ensures Bit(bytes[k / 8], k % 8) == if k < |src| && src[k] != 0 then 1 else 0
    {
      if k < |src| {
        PackIndex(cells, k);
      } else {
        BeyondDigits(Group(cells, k / 8), k % 8);
      }
    }
  }

  lemma {:induction false} BeyondDigits(cells: seq<bit>, k: nat)
    requires k >= |cells|
    ensures Bit(FromBits(cells), k) == 0
  {
    if cells == [] {
      HighBitClear(0, k);
      assert Pow2(k) > 0;
    } else {
      BeyondDigits(cells[1..], k - 1);
    }
  }

  lemma RegisterBytesCarry(values: seq<word>)
    ensures CarryWords(RegisterBytes(values), values)
  {
    forall i | 0 <= i < |values|
      ensures RegisterBytes(values)[2 * i] == values[i] / 256 && RegisterBytes(values)[2 * i + 1] == values[i] % 256
    {
      OctetsOfRegister(values, i);
      OctetsInFigures(values[i]);
      hide *;
    }
  }

  // ---------------------------------------------------------------------------------------------
  // Requests

  /** The PDU of each call. */
  ghost predicate Spells(c: Call, q: seq<byte>)
    requires Within(c) || Zero(c)
  {
    match c
    case ReadBitsCall(addr, nb) => q == [1, addr / 256, addr % 256, nb / 256, nb % 256]
    case ReadInputBitsCall(addr, nb) => q == [2, addr / 256, addr % 256, nb / 256, nb % 256]
    case ReadRegistersCall(addr, nb) => q == [3, addr / 256, addr % 256, 0, nb]
    case ReadInputRegistersCall(addr, nb) => q == [4, addr / 256, addr % 256, 0, nb]
    case WriteBitCall(addr, status) => q == [5, addr / 256, addr % 256, if status then 255 else 0, 0]
    case WriteRegisterCall(addr, value) => q == [6, addr / 256, addr % 256, value / 256, value % 256]
    case WriteBitsCall(addr, cells) =>
      var n := |cells|;
      && |q| >= 6 && q[..6] == [15, addr / 256, addr % 256, n / 256, n % 256, (n + 7) / 8] && Carry(q[6..], cells)
    case WriteRegistersCall(addr, values) =>
      var n := |values|;
      && |q| >= 6 && q[..6] == [16, addr / 256, addr % 256, 0, n, 2 * n] && CarryWords(q[6..], values)
    case ReportSlaveIdCall(_) => q == [17]
    case MaskWriteCall(addr, a, o) => q == [22, addr / 256, addr % 256, a / 256, a % 256, o / 256, o % 256]
    case WriteAndReadCall(writeAddr, values, addr, nb) =>
      var n := |values|;
      && |q| >= 10 && CarryWords(q[10..], values)
      && q[..10] == [23, addr / 256, addr % 256, 0, nb, writeAddr / 256, writeAddr % 256, 0, n, 2 * n]
  }

  /** A quantity of zero, which the client sends and the server refuses. */
  predicate Zero(c: Call) {
    !Above(c) && !c.ReportSlaveIdCall? && !Within(c)
  }

  lemma RequestSpelled(c: Call)
    requires !Refused(c)
    ensures Within(c) || Zero(c)
    ensures Spells(c, RequestPdu(c))
  {
    RefusedIff(c);
    hide Spells, RequestPdu;
    match c {
      case WriteBitsCall(_, _) => WriteBitsSpelled(c);
      case WriteRegistersCall(_, _) => WriteRegistersSpelled(c);
      case WriteAndReadCall(_, _, _, _) => WriteAndReadSpelled(c);
      case _ => FixedSpelled(c);
    }
  }

  lemma BasisInFigures(f: byte, addr: word, nb: word)
    ensures Basis(f, addr, nb) == [f, addr / 256, addr % 256, nb / 256, nb % 256]
  {
    OctetsInFigures(addr);
    OctetsInFigures(nb);
  }

  lemma FixedSpelled(c: Call)
    requires Within(c) || Zero(c)
    requires !c.WriteBitsCall? && !c.WriteRegistersCall? && !c.WriteAndReadCall?
    ensures !Refused(c) && Spells(c, RequestPdu(c))
  {
    match c {
      case ReadBitsCall(addr, nb) => BasisInFigures(1, addr, nb);
      case ReadInputBitsCall(addr, nb) => BasisInFigures(2, addr, nb);
      case ReadRegistersCall(addr, nb) => BasisInFigures(3, addr, nb);
      case ReadInputRegistersCall(addr, nb) => BasisInFigures(4, addr, nb);
      case WriteBitCall(addr, status) => BasisInFigures(5, addr, if status then 0xFF00 else 0);
      case WriteRegisterCall(addr, value) => BasisInFigures(6, addr, value);
      case MaskWriteCall(addr, a, o) =>
        BasisInFigures(22, addr, 0);
        OctetsInFigures(a);
        OctetsInFigures(o);
      case ReportSlaveIdCall(_) => BasisInFigures(17, 0, 0);
    }
    hide Basis, Hi, Lo;
  }

  lemma WriteBitsSpelled(c: Call)
    requires c.WriteBitsCall? && |c.cells| <= 1968
    ensures !Refused(c) && Spells(c, RequestPdu(c))
  {
    BasisInFigures(15, c.addr, |c.cells|);
    PackCarries(c.cells);
    hide Basis, Pack, Carry;
    var head := Basis(15, c.addr, |c.cells|) + [ByteCount(|c.cells|)];
    Halves(head, Pack(Normalised(c.cells)));
  }

  lemma WriteRegistersSpelled(c: Call)
    requires c.WriteRegistersCall? && |c.values| <= 123
    ensures !Refused(c) && Spells(c, RequestPdu(c))
  {
    BasisInFigures(16, c.addr, |c.values|);
    RegisterBytesCarry(c.values);
    hide Basis, RegisterBytes, CarryWords;
    var head := Basis(16, c.addr, |c.values|) + [2 * |c.values|];
    Halves(head, RegisterBytes(c.values));
  }

  lemma WriteAndReadSpelled(c: Call)
    requires c.WriteAndReadCall? && |c.values| <= 121 && c.nb <= 125
    ensures !Refused(c) && Spells(c, RequestPdu(c))
  {
    BasisInFigures(23, c.addr, c.nb);
    RegisterBytesCarry(c.values);
    OctetsInFigures(c.writeAddr);
    OctetsInFigures(|c.values|);
    hide Basis, RegisterBytes, CarryWords, Hi, Lo;
    var n := |c.values|;
    var head := Basis(23, c.addr, c.nb) + [Hi(c.writeAddr), Lo(c.writeAddr), Hi(n), Lo(n), 2 * n];
    Halves(head, RegisterBytes(c.values));
  }

  lemma Halves(head: seq<byte>, tail: seq<byte>)
    ensures (head + tail)[..|head|] == head && (head + tail)[|head|..] == tail
  {
  }

  // ---------------------------------------------------------------------------------------------
  // Frames

  /** A sealed frame: in RTU the slave, the PDU and two octets of CRC; in TCP the transaction identifier, two zeros, the
      length of what follows, the unit and the PDU. */
  lemma FrameSpelled(b: Backend, tId: word, slave: byte, pdu: seq<byte>)
    requires 1 <= |pdu| <= 253
    ensures var f, n := b.Sealed(b.Header(tId, slave) + pdu), |pdu|;
            if b.Rtu? then |f| == n + 3 && f[..n + 1] == [slave] + pdu && CrcDetection.CrcMatches(f)
            else f == [tId / 256, tId % 256, 0, 0, 0, n + 1, slave] + pdu
  {
    hide Crc.CrcHi, Crc.CrcLo, CrcDetection.CrcMatches;
    CrcDetection.SealMatches(b.Header(tId, slave) + pdu);
  }

  /** The CRC of `[2, 7]` is 0x1241, and its low octet goes out first. */
  lemma KnownCrc()
    ensures CrcDetection.Seal([2, 7]) == [2, 7, 0x41, 0x12]
  {
  }

  /** How long a PDU announces itself to be. */
  lemma CompleteIff(p: seq<byte>)
    ensures Complete(Indication, p) <==>
              && p != []
              && if p[0] <= 6 then |p| == 5
                 else if p[0] in {15, 16} then |p| >= 6 && |p| - 6 == p[5]
                 else if p[0] == 22 then |p| == 7
                 else if p[0] == 23 then |p| >= 10 && |p| - 10 == p[9]
                 else |p| == 1
    ensures Complete(Confirmation, p) <==>
              && p != []
              && if p[0] in {5, 6, 15, 16} then |p| == 5
                 else if p[0] == 22 then |p| == 7
                 else if p[0] <= 4 || p[0] in {17, 23} then |p| >= 2 && |p| - 2 == p[1]
                 else |p| == 2
  {
  }

  /** A message is a complete PDU between header and checksum, and no longer than 256 octets in RTU and 260 in TCP. */
  lemma MessageIff(t: MsgType, f: seq<byte>)
    ensures |f| >= 4 ==> (IsMessage(Rtu, t, f) <==> |f| <= 256 && Complete(t, f[1..|f| - 2]))
    ensures |f| >= 8 ==> (IsMessage(Tcp, t, f) <==> |f| <= 260 && Complete(t, f[7..]))
  {
    hide Complete, IsMessage;
    if |f| >= 4 {
      MessageIffComplete(Rtu, t, f);
    }
    if |f| >= 8 {
      MessageIffComplete(Tcp, t, f);
      assert f[7..|f|] == f[7..];
    }
  }

  /** A reception is given up exactly when the octet count, the last octet read by then, makes the frame too long for
      its backend.  Only a request to write many cells and an answer with an octet count can do that. */
  lemma TooLongIff(b: Backend, t: MsgType, s: seq<byte>)
    ensures var h: nat, room: nat := if b.Rtu? then 1 else 7, if b.Rtu? then 254 else 260;
            Frame(b, t, s).TooLong? <==>
              && |s| > h
              && var f: int, at: nat := s[h], h + if t.Confirmation? then 1 else if s[h] == 23 then 9 else 5;
                 && (if t.Indication? then f in {15, 16, 23} else f <= 4 || f in {17, 23})
                 && |s| > at && at + 1 + s[at] > room && Frame(b, t, s) == TooLong(at + 1)
  {
  }

  // ---------------------------------------------------------------------------------------------
  // What the server makes of any PDU

  /** The bits of octets from `at` on, and the registers. */
  function BitsFrom(p: seq<byte>, at: nat, n: nat): (cells: seq<bit>)
    requires at + (n + 7) / 8 <= |p|
    ensures |cells| == n
  {
    seq(n, k requires 0 <= k < n => Bit(p[at + k / 8], k % 8))
  }

  function WordsFrom(p: seq<byte>, at: nat, n: nat): (words: seq<word>)
    requires at + 2 * n <= |p|
    ensures |words| == n
  {
    seq(n, k requires 0 <= k < n => Value(p, at + 2 * k))
  }

  ghost predicate BitsAnswered(start: nat, cells: seq<bit>, p: seq<byte>, r: Reply)
    requires |p| == 5
  {
    var addr, n := Value(p, 1), Value(p, 3);
    if n < 1 || n > 2000 then r == Exception(3)
    else if !In(start, |cells|, addr, n) then r == Exception(2)
    else
      && r.Answer? && |r.pdu| >= 2 && r.pdu[0] == p[0] && r.pdu[1] == (n + 7) / 8
      && Carry(r.pdu[2..], cells[addr - start..addr - start + n])
  }

  ghost predicate WordsAnswered(start: nat, regs: seq<word>, p: seq<byte>, r: Reply)
    requires |p| >= 5
  {
    var addr, n := Value(p, 1), Value(p, 3);
    if n < 1 || n > 125 then r == Exception(3)
    else if !In(start, |regs|, addr, n) then r == Exception(2)
    else
      && r.Answer? && |r.pdu| >= 2 && r.pdu[0] == p[0] && r.pdu[1] == 2 * n
      && CarryWords(r.pdu[2..], regs[addr - start..addr - start + n])
  }

  /** A single coil: the address is tested before the value, which must be 0xFF00 or 0. */
  ghost predicate CoilTaken(t: Tables, p: seq<byte>, e: Executed)
    requires |p| == 5
  {
    if !In(t.startBits, |t.bits|, Value(p, 1), 1) then e == Executed(t, Exception(2))
    else if p[3] in {0, 255} && p[4] == 0 then
      e.reply.Echo? && CoilsWritten(t, e.tables, Value(p, 1), [if p[3] == 255 then 1 else 0])
    else e == Executed(t, Exception(3))
  }

  ghost predicate RegisterTaken(t: Tables, p: seq<byte>, e: Executed)
    requires |p| == 5
  {
    if !In(t.startRegisters, |t.registers|, Value(p, 1), 1) then e == Executed(t, Exception(2))
    else e.reply.Echo? && RegistersWritten(t, e.tables, Value(p, 1), [Value(p, 3)])
  }

  /** Many coils: more octets than their number needs are let pass, fewer are not. */
  ghost predicate CoilsTaken(t: Tables, p: seq<byte>, e: Executed)
    requires |p| >= 6 && |p| - 6 == p[5]
  {
    var addr, n := Value(p, 1), Value(p, 3);
    if n < 1 || n > 1968 || 8 * (|p| - 6) < n then e == Executed(t, Exception(3))
    else if !In(t.startBits, |t.bits|, addr, n) then e == Executed(t, Exception(2))
    else e.reply == Answer(p[..5]) && CoilsWritten(t, e.tables, addr, BitsFrom(p, 6, n))
  }

  /** Many registers: their octets must be as many as they need. */
  ghost predicate RegistersTaken(t: Tables, p: seq<byte>, e: Executed)
    requires |p| >= 6 && |p| - 6 == p[5]
  {
    var addr, n := Value(p, 1), Value(p, 3);
    if n < 1 || n > 123 || |p| - 6 != 2 * n then e == Executed(t, Exception(3))
    else if !In(t.startRegisters, |t.registers|, addr, n) then e == Executed(t, Exception(2))
    else e.reply == Answer(p[..5]) && RegistersWritten(t, e.tables, addr, WordsFrom(p, 6, n))
  }

  ghost predicate MaskTaken(t: Tables, p: seq<byte>, e: Executed)
    requires |p| == 7
  {
    var addr, at := Value(p, 1), Value(p, 1) - t.startRegisters;
    if !In(t.startRegisters, |t.registers|, addr, 1) then e == Executed(t, Exception(2))
    else
      && e.reply.Echo? && |e.tables.registers| == |t.registers|
      && RegistersWritten(t, e.tables, addr, [e.tables.registers[at]])
      && MaskedBits(e.tables.registers[at], t.registers[at], Value(p, 3), Value(p, 5))
  }

  /** Written first and read afterwards; both quantities are tested before both addresses. */
  ghost predicate WrittenAndRead(t: Tables, p: seq<byte>, e: Executed)
    requires |p| >= 10 && |p| - 10 == p[9]
  {
    var addr, n, writeAddr, m := Value(p, 1), Value(p, 3), Value(p, 5), Value(p, 7);
    if m < 1 || m > 121 || n < 1 || n > 125 || |p| - 10 != 2 * m then e == Executed(t, Exception(3))
    else if !In(t.startRegisters, |t.registers|, addr, n) || !In(t.startRegisters, |t.registers|, writeAddr, m) then
      e == Executed(t, Exception(2))
    else
      && RegistersWritten(t, e.tables, writeAddr, WordsFrom(p, 10, m))
      && WordsAnswered(t.startRegisters, e.tables.registers, p, e.reply)
  }

  /** What a server does with a complete PDU, function by function. */
  ghost predicate Obeys(t: Tables, p: seq<byte>, e: Executed)
    requires Complete(Indication, p)
  {
    CompleteIff(p);
    if p[0] == 1 then e.tables == t && BitsAnswered(t.startBits, t.bits, p, e.reply)
    else if p[0] == 2 then e.tables == t && BitsAnswered(t.startInputBits, t.inputBits, p, e.reply)
    else if p[0] == 3 then e.tables == t && WordsAnswered(t.startRegisters, t.registers, p, e.reply)
    else if p[0] == 4 then e.tables == t && WordsAnswered(t.startInputRegisters, t.inputRegisters, p, e.reply)
    else if p[0] == 5 then CoilTaken(t, p, e)
    else if p[0] == 6 then RegisterTaken(t, p, e)
    else if p[0] == 7 then e == Executed(t, Silence)
    else if p[0] == 15 then CoilsTaken(t, p, e)
    else if p[0] == 16 then RegistersTaken(t, p, e)
    else if p[0] == 17 then e == Executed(t, Answer([17, 10, 180, 255, 76, 77, 66, 51, 46, 49, 46, 54]))
    else if p[0] == 22 then MaskTaken(t, p, e)
    else if p[0] == 23 then WrittenAndRead(t, p, e)
    else e == Executed(t, Exception(1))
  }

  lemma FieldInFigures(p: seq<byte>, at: nat)
    requires at + 1 < |p|
    ensures Field(p, at) == Value(p, at)
  {
  }

  lemma PackCarriesBits(cells: seq<bit>)
    ensures Carry(Pack(cells), cells)
  {
    assert Normalised(cells) == cells;
    PackCarries(cells);
  }

  lemma ByteCountInFigures(n: nat)
    ensures ByteCount(n) == (n + 7) / 8
  {
  }

  lemma BehindTwo(a: byte, b: byte, tail: seq<byte>)
    ensures var p := [a, b] + tail; p[0] == a && p[1] == b && p[2..] == tail
  {
  }

  lemma ReadBitsObeys(start: nat, cells: seq<bit>, p: seq<byte>)
    requires |p| == 5
    ensures BitsAnswered(start, cells, p, ReadBits(start, cells, p))
  {
    hide Pack, Carry, Field, Value, ByteCount;
    FieldInFigures(p, 1);
    FieldInFigures(p, 3);
    var addr, n := Value(p, 1), Value(p, 3);
    if 1 <= n <= 2000 && In(start, |cells|, addr, n) {
      PackCarriesBits(cells[addr - start..addr - start + n]);
      ByteCountInFigures(n);
      BehindTwo(p[0], ByteCount(n), Pack(cells[addr - start..addr - start + n]));
    }
  }

  lemma ReadRegistersObeys(start: nat, regs: seq<word>, p: seq<byte>)
    requires |p| == 5
    ensures WordsAnswered(start, regs, p, ReadRegisters(start, regs, p))
  {
    hide RegisterBytes, CarryWords, Field, Value;
    FieldInFigures(p, 1);
    FieldInFigures(p, 3);
    var addr, n := Value(p, 1), Value(p, 3);
    if 1 <= n <= 125 && In(start, |regs|, addr, n) {
      RegisterBytesCarry(regs[addr - start..addr - start + n]);
      BehindTwo(p[0], 2 * n, RegisterBytes(regs[addr - start..addr - start + n]));
    }
  }

  lemma WriteBitObeys(t: Tables, p: seq<byte>)
    requires |p| == 5
    ensures CoilTaken(t, p, WriteBit(t, p))
  {
    hide Field;
    FieldInFigures(p, 1);
    FieldInFigures(p, 3);
  }

  lemma WriteRegisterObeys(t: Tables, p: seq<byte>)
    requires |p| == 5
    ensures RegisterTaken(t, p, WriteRegister(t, p))
  {
    hide Field;
    FieldInFigures(p, 1);
    FieldInFigures(p, 3);
  }

  lemma SplicedCoils(t: Tables, addr: word, cells: seq<bit>)
    requires In(t.startBits, |t.bits|, addr, |cells|)
    ensures CoilsWritten(t, t.(bits := Splice(t.bits, addr - t.startBits, cells)), addr, cells)
  {
  }

  lemma SplicedRegisters(t: Tables, addr: word, values: seq<word>)
    requires In(t.startRegisters, |t.registers|, addr, |values|)
    ensures RegistersWritten(t, t.(registers := Splice(t.registers, addr - t.startRegisters, values)), addr, values)
  {
  }

  lemma UnpackInFigures(p: seq<byte>, at: nat, n: nat)
    requires at <= |p| && n <= 8 * (|p| - at)
    ensures Unpack(p[at..], n) == BitsFrom(p, at, n)
  {
  }

  lemma WriteBitsObeys(t: Tables, p: seq<byte>)
    requires |p| >= 6 && |p| - 6 == p[5]
    ensures CoilsTaken(t, p, WriteBits(t, p))
  {
    hide Field, Unpack, BitsFrom, Splice, CoilsWritten;
    FieldInFigures(p, 1);
    FieldInFigures(p, 3);
    var addr, n := Value(p, 1), Value(p, 3);
    if 1 <= n <= 1968 && 8 * (|p| - 6) >= n && In(t.startBits, |t.bits|, addr, n) {
      UnpackInFigures(p, 6, n);
      SplicedCoils(t, addr, BitsFrom(p, 6, n));
    }
  }

  lemma RegistersInFigures(p: seq<byte>, at: nat, n: nat)
    requires at + 2 * n <= |p|
    ensures BytesToRegisters(p[at..], n) == WordsFrom(p, at, n)
  {
    forall k | 0 <= k < n
      ensures BytesToRegisters(p[at..], n)[k] == WordsFrom(p, at, n)[k]
    {
      assert p[at..][2 * k] == p[at + 2 * k] && p[at..][2 * k + 1] == p[at + 2 * k + 1];
      FieldInFigures(p, at + 2 * k);
    }
  }

  lemma WriteRegistersObeys(t: Tables, p: seq<byte>)
    requires |p| >= 6 && |p| - 6 == p[5]
    ensures RegistersTaken(t, p, WriteRegisters(t, p))
  {
    hide Field, BytesToRegisters, WordsFrom, Splice, RegistersWritten;
    FieldInFigures(p, 1);
    FieldInFigures(p, 3);
    var addr, n := Value(p, 1), Value(p, 3);
    if 1 <= n <= 123 && |p| - 6 == 2 * n && In(t.startRegisters, |t.registers|, addr, n) {
      RegistersInFigures(p, 6, n);
      SplicedRegisters(t, addr, WordsFrom(p, 6, n));
    }
  }

  lemma MaskWriteObeys(t: Tables, p: seq<byte>)
    requires |p| == 7
    ensures MaskTaken(t, p, MaskWrite(t, p))
  {
    hide Field, And, Or, Not, Select, MaskedBits;
    FieldInFigures(p, 1);
    FieldInFigures(p, 3);
    FieldInFigures(p, 5);
    if In(t.startRegisters, |t.registers|, Value(p, 1), 1) {
      var d := t.registers[Value(p, 1) - t.startRegisters];
      MaskedIsSelect(d, Value(p, 3), Value(p, 5), 16);
      MaskedValue(d, Value(p, 3), Value(p, 5));
    }
  }

  lemma WriteAndReadObeys(t: Tables, p: seq<byte>)
    requires |p| >= 10 && |p| - 10 == p[9] && WritesFromStart(t.startRegisters, |t.registers|, p)
    ensures WrittenAndRead(t, p, WriteAndRead(t, p))
  {
    hide Field, Value, BytesToRegisters, WordsFrom, Splice, RegistersWritten, RegisterBytes, CarryWords;
    FieldInFigures(p, 1);
    FieldInFigures(p, 3);
    FieldInFigures(p, 5);
    FieldInFigures(p, 7);
    var addr, n, writeAddr, m := Value(p, 1), Value(p, 3), Value(p, 5), Value(p, 7);
    if 1 <= m <= 121 && 1 <= n <= 125 && |p| - 10 == 2 * m
       && In(t.startRegisters, |t.registers|, addr, n) && In(t.startRegisters, |t.registers|, writeAddr, m) {
      RegistersInFigures(p, 10, m);
      SplicedRegisters(t, writeAddr, WordsFrom(p, 10, m));
      var regs := Splice(t.registers, writeAddr - t.startRegisters, WordsFrom(p, 10, m));
      RegisterBytesCarry(regs[addr - t.startRegisters..addr - t.startRegisters + n]);
      BehindTwo(p[0], 2 * n, RegisterBytes(regs[addr - t.startRegisters..addr - t.startRegisters + n]));
    }
  }

  /** Whatever complete PDU arrives, the server does what section 6 of the protocol says. */
  lemma ServerObeys(t: Tables, p: seq<byte>)
    requires Complete(Indication, p) && Supported(t.startRegisters, |t.registers|, p)
    ensures Obeys(t, p, Execute(t, p))
  {
    CompleteIff(p);
    hide BitsAnswered, WordsAnswered, CoilTaken, RegisterTaken, CoilsTaken, RegistersTaken, MaskTaken, WrittenAndRead,
         ReadBits, ReadRegisters, WriteBit, WriteRegister, WriteBits, WriteRegisters, MaskWrite, WriteAndRead;
    if p[0] == 1 {
      ReadBitsObeys(t.startBits, t.bits, p);
    } else if p[0] == 2 {
      ReadBitsObeys(t.startInputBits, t.inputBits, p);
    } else if p[0] == 3 {
      ReadRegistersObeys(t.startRegisters, t.registers, p);
    } else if p[0] == 4 {
      ReadRegistersObeys(t.startInputRegisters, t.inputRegisters, p);
    } else if p[0] == 5 {
      WriteBitObeys(t, p);
    } else if p[0] == 6 {
      WriteRegisterObeys(t, p);
    } else if p[0] == 15 {
      WriteBitsObeys(t, p);
    } else if p[0] == 16 {
      WriteRegistersObeys(t, p);
    } else if p[0] == 22 {
      MaskWriteObeys(t, p);
    } else if p[0] == 23 {
      WriteAndReadObeys(t, p);
    }
  }

  /** The frame of a reply: the slave or unit asked, the identifier of the request, and then the PDU, which is the
      request's own for an echo and two octets for an exception. */
  lemma ReplySpelled(b: Backend, t: Tables, req: seq<byte>)
    requires Acceptable(b, t.startRegisters, |t.registers|, req) && Serve(b, t, req).frame.Some?
    ensures Complete(Indication, b.Pdu(req))
    ensures var f, r := Serve(b, t, req).frame.value, Execute(t, b.Pdu(req)).reply;
            && !r.Silence?
            && (if b.Rtu? then |f| > 3 && f[0] == req[0] && CrcDetection.CrcMatches(f)
                else
                  && |f| > 7 && f[..2] == req[..2] && f[6] == req[6] && Value(f, 4) == |f| - 6
                  && (!r.Echo? ==> f[2] == f[3] == 0))
            && var q, p := b.Pdu(req), b.Pdu(f);
               match r
               case Answer(pdu) => p == pdu
               case Echo => p == q
               case Exception(code) => p == [if q[0] < 128 then q[0] + 128 else q[0] - 128, code]
  {
    MessageIffComplete(b, Indication, req);
    var q, r := b.Pdu(req), Execute(t, b.Pdu(req)).reply;
    hide IsMessage, Complete, Execute, Response, ReplyPdu, Backend.Sealed, Backend.Pdu, Backend.Header;
    ResponsePdu(b, req, r);
    ReplyHeader(b, req, r);
    ReplyPduSpelled(q, r);
  }

  lemma ReplyPduSpelled(q: seq<byte>, r: Reply)
    requires q != [] && !r.Silence?
    ensures ReplyPdu(q, r) ==
            match r
            case Answer(pdu) => pdu
            case Echo => q
            case Exception(code) => [if q[0] < 128 then q[0] + 128 else q[0] - 128, code]
  {
  }

  lemma ReplyHeader(b: Backend, req: seq<byte>, r: Reply)
    requires |req| > b.HeaderLength() + b.ChecksumLength() && |req| <= b.MaxAduLength() && !r.Silence?
    requires r.Answer? ==> 1 <= |r.pdu| <= 252
    ensures var f := b.Sealed(Response(b, req, r));
            if b.Rtu? then |f| > 3 && f[0] == req[0] && CrcDetection.CrcMatches(f)
            else
              && |f| > 7 && f[..2] == req[..2] && f[6] == req[6] && Value(f, 4) == |f| - 6
              && (!r.Echo? ==> f[2] == f[3] == 0)
  {
    hide CrcDetection.CrcMatches, Crc.CrcHi, Crc.CrcLo;
    var msg := Response(b, req, r);
    if b.Rtu? {
      CrcDetection.SealMatches(msg);
    } else {
      TidOctets(req[0], req[1]);
      assert |msg| - 6 < 0x1_0000;
      OctetsInFigures(|msg| - 6);
      hide Hi, Lo, Word;
    }
  }

  lemma TidOctets(high: byte, low: byte)
    ensures Hi(Word(high, low)) == high && Lo(Word(high, low)) == low
  {
  }

  // ---------------------------------------------------------------------------------------------
  // What the client makes of an answer

  /** A response is taken for nobody's when its slave is another, in RTU, unless the request was for all; or when its
      transaction identifier is another, or neither octet of its protocol identifier is zero, in TCP.  An exception must
      be two octets, name the function asked and carry a code below 12; anything else that is not accepted is bad
      data. */
  lemma CheckSpelled(b: Backend, req: seq<byte>, rsp: seq<byte>)
    requires |req| > b.HeaderLength() + b.ChecksumLength() && Complete(Indication, b.Pdu(req))
    requires |rsp| > b.HeaderLength() + b.ChecksumLength() && IsMessage(b, Confirmation, rsp)
    ensures b.Pdu(rsp) != []
    ensures var q, p, r := b.Pdu(req), b.Pdu(rsp), CheckConfirmation(b, req, rsp, |rsp|);
            if b.Rtu? && req[0] != rsp[0] && req[0] != 0 then r == Rejected(112345695)
            else if b.Tcp? && (req[..2] != rsp[..2] || (rsp[2] != 0 && rsp[3] != 0)) then r == Rejected(112345691)
            else if p[0] >= 128 then
              && r.Rejected?
              && if |p| == 2 && p[0] - 128 == q[0] && p[1] < 12 then r.errno - 112345678 == p[1]
                 else r.errno == 112345692
            else r.Accepted? || r == Rejected(112345691)
  {
    MessageIffComplete(b, Confirmation, rsp);
    if b.Tcp? {
      assert req[..2] == rsp[..2] <==> req[0] == rsp[0] && req[1] == rsp[1] by {
        assert req[..2] == [req[0], req[1]] && rsp[..2] == [rsp[0], rsp[1]];
      }
    }
    hide IsMessage, Complete, Quantities, ResponseLength;
  }

  /** Nothing whole to be read ends a call with ECONNRESET, an announced length that is too long with EMBBADDATA, and a
      damaged frame that names the slave asked with EMBBADCRC. */
  lemma TurnSpelled(b: Backend, tId: word, slave: byte, c: Call, s: seq<byte>)
    requires !Refused(c)
    ensures match Frame(b, Confirmation, s)
            case Partial => ClientTurn(b, tId, slave, c, s) == Error(104)
            case TooLong(_) => ClientTurn(b, tId, slave, c, s) == Error(112345691)
            case Message(n) =>
              n <= |s| && (b.Rtu? && n >= 4 && s[0] in {slave, 0} && !CrcDetection.CrcMatches(s[..n]) ==>
                             ClientTurn(b, tId, slave, c, s) == Error(112345690))
  {
    hide Frame, Refused, CrcDetection.CrcMatches, Finish;
    if Frame(b, Confirmation, s).Message? {
      MessageIsLong(b, Confirmation, s);
    }
  }

  /** What a call takes out of a response it has accepted, with the quantity `n`. */
  lemma DecodeSpelled(c: Call, p: seq<byte>, n: nat)
    requires Decodable(c, p, n)
    ensures match c
            case ReadBitsCall(_, nb) => |p| == 2 + n && nb <= 8 * n && Decode(c, p, n) == Ok(nb, BitsFrom(p, 2, nb))
            case ReadInputBitsCall(_, nb) =>
              |p| == 2 + n && nb <= 8 * n && Decode(c, p, n) == Ok(nb, BitsFrom(p, 2, nb))
            case ReadRegistersCall(_, _) => |p| == 2 + 2 * n && Decode(c, p, n) == Ok(n, WordsFrom(p, 2, n))
            case ReadInputRegistersCall(_, _) => |p| == 2 + 2 * n && Decode(c, p, n) == Ok(n, WordsFrom(p, 2, n))
            case WriteAndReadCall(_, _, _, _) => |p| == 2 + 2 * n && Decode(c, p, n) == Ok(n, WordsFrom(p, 2, n))
            case ReportSlaveIdCall(maxDest) =>
              |p| == 2 + n && Decode(c, p, n) == Ok(n, p[2..2 + if n < maxDest then n else maxDest])
            case _ => Decode(c, p, n) == Ok(n, [])
  {
    hide Unpack, BitsFrom, BytesToRegisters, WordsFrom;
    if c.ReadBitsCall? || c.ReadInputBitsCall? {
      UnpackInFigures(p, 2, c.nb);
    } else if c.ReadRegistersCall? || c.ReadInputRegistersCall? || c.WriteAndReadCall? {
      RegistersInFigures(p, 2, n);
    }
  }
}
