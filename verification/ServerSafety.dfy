/** What no received frame, well meant or not, can make the server do. */
module ServerSafety {
  import opened Bytes
  import opened Protocol
  import opened Packing
  import opened Framing
  import opened Backend
  import opened Server
  import Crc

  /** The coil at `address` is one the request addresses for writing. */
  predicate WritesBit(pdu: seq<byte>, address: int)
    requires Complete(Indication, pdu)
  {
    || (pdu[0] == WRITE_SINGLE_COIL && address == Field(pdu, 1))
    || (pdu[0] == WRITE_MULTIPLE_COILS && Field(pdu, 1) <= address < Field(pdu, 1) + Field(pdu, 3))
  }

  /** The register at `address` is one the request addresses for writing. */
  predicate WritesRegister(pdu: seq<byte>, address: int)
    requires Complete(Indication, pdu)
  {
    || (pdu[0] in {WRITE_SINGLE_REGISTER, MASK_WRITE_REGISTER} && address == Field(pdu, 1))
    || (pdu[0] == WRITE_MULTIPLE_REGISTERS && Field(pdu, 1) <= address < Field(pdu, 1) + Field(pdu, 3))
    || (pdu[0] == WRITE_AND_READ_REGISTERS && Field(pdu, 5) <= address < Field(pdu, 5) + Field(pdu, 7))
  }

  ghost predicate SameShape(t: Tables, t': Tables) {
    && t'.startBits == t.startBits && |t'.bits| == |t.bits|
    && t'.startRegisters == t.startRegisters && |t'.registers| == |t.registers|
    && t'.startInputBits == t.startInputBits && t'.inputBits == t.inputBits
    && t'.startInputRegisters == t.startInputRegisters && t'.inputRegisters == t.inputRegisters
  }

  /** Input tables and the extent of all tables never change; an exception leaves every table as it was;
      and a cell changes only if the request addresses it for writing. */
  lemma ExecuteSafe(t: Tables, pdu: seq<byte>)
    requires Complete(Indication, pdu) && Supported(t.startRegisters, |t.registers|, pdu)
    ensures var e := Execute(t, pdu);
            && SameShape(t, e.tables)
            && (e.reply.Exception? || e.reply.Silence? ==> e.tables == t)
            && (forall i | 0 <= i < |t.bits| && !WritesBit(pdu, t.startBits + i) :: e.tables.bits[i] == t.bits[i])
            && (forall i | 0 <= i < |t.registers| && !WritesRegister(pdu, t.startRegisters + i) ::
                  e.tables.registers[i] == t.registers[i])
  {
    hide Field, Unpack, BytesToRegisters, Masked, RegisterBytes, Pack;
  }

  ghost predicate Receivable(b: Backend, req: seq<byte>) {
    |req| > b.HeaderLength() + b.ChecksumLength() && IsMessage(b, Indication, req)
  }

  /** A received frame that a server with `size` registers from `start` on executes within its tables. */
  ghost predicate Acceptable(b: Backend, start: nat, size: nat, req: seq<byte>) {
    Receivable(b, req) && Supported(start, size, b.Pdu(req))
  }

  /** With the registers starting at zero, as `modbus_mapping_new` makes them, that is every received frame. */
  lemma EveryFrameAcceptable(b: Backend, size: nat, req: seq<byte>)
    requires Receivable(b, req)
    ensures Acceptable(b, 0, size, req)
  {
  }

  ghost function ServeAll(b: Backend, t: Tables, frames: seq<seq<byte>>): (t': Tables)
    requires forall k | 0 <= k < |frames| :: Acceptable(b, t.startRegisters, |t.registers|, frames[k])
    decreases |frames|
  {
    if frames == [] then t
    else
      assert Acceptable(b, t.startRegisters, |t.registers|, frames[0]);
      hide Acceptable, SomeBitWriter, SomeRegisterWriter;
      ServeSafe(b, t, frames[0]);
      ServeAll(b, Serve(b, t, frames[0]).tables, frames[1..])
  }

  predicate BitWriter(b: Backend, req: seq<byte>, address: int) {
    && |req| > b.HeaderLength() + b.ChecksumLength() && Complete(Indication, b.Pdu(req))
    && WritesBit(b.Pdu(req), address)
  }

  predicate RegisterWriter(b: Backend, req: seq<byte>, address: int) {
    && |req| > b.HeaderLength() + b.ChecksumLength() && Complete(Indication, b.Pdu(req))
    && WritesRegister(b.Pdu(req), address)
  }

  predicate SomeBitWriter(b: Backend, frames: seq<seq<byte>>, address: int) {
    exists k | 0 <= k < |frames| :: BitWriter(b, frames[k], address)
  }

  predicate SomeRegisterWriter(b: Backend, frames: seq<seq<byte>>, address: int) {
    exists k | 0 <= k < |frames| :: RegisterWriter(b, frames[k], address)
  }

  lemma BitWriterAmong(b: Backend, frames: seq<seq<byte>>, address: int)
    requires frames != []
    requires SomeBitWriter(b, [frames[0]], address) || SomeBitWriter(b, frames[1..], address)
    ensures SomeBitWriter(b, frames, address)
  {
    hide BitWriter;
    if SomeBitWriter(b, frames[1..], address) {
      var k :| 0 <= k < |frames[1..]| && BitWriter(b, frames[1..][k], address);
      assert BitWriter(b, frames[k + 1], address);
    }
  }

  lemma RegisterWriterAmong(b: Backend, frames: seq<seq<byte>>, address: int)
    requires frames != []
    requires SomeRegisterWriter(b, [frames[0]], address) || SomeRegisterWriter(b, frames[1..], address)
    ensures SomeRegisterWriter(b, frames, address)
  {
    hide RegisterWriter;
    if SomeRegisterWriter(b, frames[1..], address) {
      var k :| 0 <= k < |frames[1..]| && RegisterWriter(b, frames[1..][k], address);
      assert RegisterWriter(b, frames[k + 1], address);
    }
  }

  /** The second tables have the shape and the input tables of the first, and a cell differs between the two only
      if some frame of the run addressed it for writing. */
  ghost predicate Explained(b: Backend, t: Tables, t': Tables, frames: seq<seq<byte>>) {
    && SameShape(t, t')
    && (forall i | 0 <= i < |t.bits| && t'.bits[i] != t.bits[i] :: SomeBitWriter(b, frames, t.startBits + i))
    && (forall i | 0 <= i < |t.registers| && t'.registers[i] != t.registers[i] ::
          SomeRegisterWriter(b, frames, t.startRegisters + i))
  }

  lemma ServeSafe(b: Backend, t: Tables, req: seq<byte>)
    requires Acceptable(b, t.startRegisters, |t.registers|, req)
    ensures Explained(b, t, Serve(b, t, req).tables, [req])
  {
    MessageIffComplete(b, Indication, req);
    ExecuteSafe(t, b.Pdu(req));
    var t' := Serve(b, t, req).tables;
    hide Execute, Complete, IsMessage, WritesBit, WritesRegister;
    forall i | 0 <= i < |t.bits| && t'.bits[i] != t.bits[i]
      ensures SomeBitWriter(b, [req], t.startBits + i)
    {
      assert BitWriter(b, [req][0], t.startBits + i);
    }
    forall i | 0 <= i < |t.registers| && t'.registers[i] != t.registers[i]
      ensures SomeRegisterWriter(b, [req], t.startRegisters + i)
    {
      assert RegisterWriter(b, [req][0], t.startRegisters + i);
    }
  }

  lemma ExplainedTogether(b: Backend, t: Tables, t1: Tables, t': Tables, frames: seq<seq<byte>>)
    requires frames != [] && Explained(b, t, t1, [frames[0]]) && Explained(b, t1, t', frames[1..])
    ensures Explained(b, t, t', frames)
  {
    hide SomeBitWriter, SomeRegisterWriter;
    forall i | 0 <= i < |t.bits| && t'.bits[i] != t.bits[i]
      ensures SomeBitWriter(b, frames, t.startBits + i)
    {
      BitWriterAmong(b, frames, t.startBits + i);
    }
    forall i | 0 <= i < |t.registers| && t'.registers[i] != t.registers[i]
      ensures SomeRegisterWriter(b, frames, t.startRegisters + i)
    {
      RegisterWriterAmong(b, frames, t.startRegisters + i);
    }
  }

  /** Over every run of received frames, what the tables become is explained by the frames. */
  lemma {:induction false} RunSafe(b: Backend, t: Tables, frames: seq<seq<byte>>)
    requires forall k | 0 <= k < |frames| :: Acceptable(b, t.startRegisters, |t.registers|, frames[k])
    ensures Explained(b, t, ServeAll(b, t, frames), frames)
    decreases |frames|
  {
    if frames != [] {
      hide Acceptable, SomeBitWriter, SomeRegisterWriter, Serve;
      assert Acceptable(b, t.startRegisters, |t.registers|, frames[0]);
      ServeSafe(b, t, frames[0]);
      var t1 := Serve(b, t, frames[0]).tables;
      RunSafe(b, t1, frames[1..]);
      ExplainedTogether(b, t, t1, ServeAll(b, t1, frames[1..]), frames);
    }
  }

  // ---------------------------------------------------------------------------------------------
  // The reply as a frame

  /** No reply exceeds the ADU of its backend. */
  lemma ReplyFits(b: Backend, t: Tables, req: seq<byte>)
    requires Receivable(b, req) && Supported(t.startRegisters, |t.registers|, b.Pdu(req))
    requires Serve(b, t, req).frame.Some?
    ensures |Serve(b, t, req).frame.value| <= b.MaxAduLength()
  {
    MessageIffComplete(b, Indication, req);
    hide Execute, Complete, IsMessage;
  }

  /** The function codes whose exception reply a client can delimit.  `response_exception` adds 0x80 and
      keeps eight bits, so the reply to a function above 0x7F carries an ordinary function code. */
  predicate ExceptionDelimited(function_: byte) {
    || function_ < 0x80
    || (function_ > 0x84
        && function_ !in {0x85, 0x86, 0x8F, 0x90, 0x91, 0x96, 0x97})
  }

  lemma ReplyPduComplete(t: Tables, pdu: seq<byte>)
    requires Complete(Indication, pdu) && Supported(t.startRegisters, |t.registers|, pdu)
    requires !Execute(t, pdu).reply.Silence?
    ensures Complete(Confirmation, ReplyPdu(pdu, Execute(t, pdu).reply)) <==> ExceptionDelimited(pdu[0])
  {
  }

  lemma ResponsePdu(b: Backend, req: seq<byte>, reply: Reply)
    requires |req| > b.HeaderLength() + b.ChecksumLength() && !reply.Silence?
    requires reply.Answer? ==> reply.pdu != []
    ensures var frame := b.Sealed(Response(b, req, reply));
            |frame| > b.HeaderLength() + b.ChecksumLength() && b.Pdu(frame) == ReplyPdu(b.Pdu(req), reply)
  {
    hide Crc.CrcHi, Crc.CrcLo;
  }

  /** The server's reply to a received frame is one a client receives whole exactly when the frame's function
      code is one whose exception can be delimited; every function the protocol defines is. */
  lemma ReplyIsMessageIff(b: Backend, t: Tables, req: seq<byte>)
    requires Receivable(b, req) && Supported(t.startRegisters, |t.registers|, b.Pdu(req))
    requires Serve(b, t, req).frame.Some?
    ensures IsMessage(b, Confirmation, Serve(b, t, req).frame.value) <==> ExceptionDelimited(b.Pdu(req)[0])
  {
    MessageIffComplete(b, Indication, req);
    var reply := Execute(t, b.Pdu(req)).reply;
    ReplyPduComplete(t, b.Pdu(req));
    ReplyFits(b, t, req);
    hide Execute, Complete, IsMessage, ExceptionDelimited, Response, ReplyPdu, Backend.Sealed, Backend.Pdu;
    ResponsePdu(b, req, reply);
    MessageIffComplete(b, Confirmation, Serve(b, t, req).frame.value);
  }

  /** A request that shows the limit: function 0x85 is refused with function 0x05, which announces more octets. */
  lemma ExceptionNotDelimited(t: Tables)
    ensures Complete(Indication, [0x85]) && Execute(t, [0x85]).reply == Exception(ILLEGAL_FUNCTION)
    ensures ReplyPdu([0x85], Exception(ILLEGAL_FUNCTION)) == [WRITE_SINGLE_COIL, ILLEGAL_FUNCTION]
    ensures !Complete(Confirmation, [WRITE_SINGLE_COIL, ILLEGAL_FUNCTION])
  {
    assert [0x85][0] == 0x85;
  }

  // ---------------------------------------------------------------------------------------------
  // Function 0x17 on a table that does not start at zero

  predicate InTable(i: int, size: nat) {
    0 <= i < size
  }

  /** A request that passes both tests writes within the table exactly when its write address is not below the
      start. */
  lemma WriteInsideIff(start: nat, size: nat, pdu: seq<byte>)
    requires Complete(Indication, pdu) && pdu[0] == WRITE_AND_READ_REGISTERS
    requires !BadQuantities(pdu) && !BadAddresses(start, size, pdu)
    ensures Supported(start, size, pdu) <==>
              forall i | Field(pdu, 5) - start <= i < Field(pdu, 5) - start + Field(pdu, 7) :: InTable(i, size)
  {
    assert Field(pdu, 5) < start ==> !InTable(Field(pdu, 5) - start, size);
  }

  /** Registers 10 to 19: a request that reads register 10 and writes register 9 passes both tests.  With a quantity
      of zero the same request is refused, and does no harm. */
  lemma WriteBelowTheTable()
    ensures var pdu: seq<byte> := [0x17, 0, 10, 0, 1, 0, 9, 0, 1, 2, 0, 0];
            && Complete(Indication, pdu) && !BadQuantities(pdu) && !BadAddresses(10, 10, pdu)
            && Field(pdu, 5) - 10 == -1 && !Supported(10, 10, pdu)
    ensures var pdu: seq<byte> := [0x17, 0, 10, 0, 0, 0, 9, 0, 1, 2, 0, 0];
            Complete(Indication, pdu) && BadQuantities(pdu) && Supported(10, 10, pdu)
  {
  }
}
