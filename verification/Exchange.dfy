/** One call as both sides run it: request built, sealed and sent, received in pieces, served, answered,
    received in pieces again, checked and decoded. */
module Exchange {
  import opened Bytes
  import opened Protocol
  import opened Packing
  import opened ClientLoops
  import opened Framing
  import opened Backend
  import opened Server
  import opened Client
  import opened Reply
  import opened EndToEnd
  import opened Calls

  /** `modbus_t` with the transaction identifier of its TCP backend. */
  class Context {
    const backend: Backend
    var slave: byte
    var tId: word

    constructor (backend: Backend, slave: byte)
      ensures this.backend == backend && this.slave == slave && tId == 0
    {
      this.backend := backend;
      this.slave := slave;
      tId := 0;
    }

    function FreshTid(): word
      reads this
    {
      if backend.Tcp? then NextTid(tId) else tId
    }

    /** `build_request_basis`; the MBAP length octets are filled in by `SendMsgPre`. */
    method BuildRequestBasis(function_: byte, addr: word, nb: word, req: array<byte>) returns (length: nat)
      requires req.Length >= MAX_MESSAGE_LENGTH
      modifies this, req
      ensures slave == old(slave) && tId == old(FreshTid())
      ensures length == backend.HeaderLength() + 5
      ensures req[..length] == backend.Header(tId, slave) + Basis(function_, addr, nb)
    {
      var o := 0;
      if backend.Tcp? {
        tId := if tId < 0xFFFF then tId + 1 else 0;
        req[0], req[1] := Hi(tId), Lo(tId);
        req[2], req[3], req[4], req[5] := 0, 0, 0, 0;
        o := 6;
      }
      req[o], req[o + 1] := slave, function_;
      req[o + 2], req[o + 3] := Hi(addr), Lo(addr);
      req[o + 4], req[o + 5] := Hi(nb), Lo(nb);
      length := o + 6;
    }

    /** The first half of every call, up to `send_msg`. */
    method BuildRequest(c: Call, req: array<byte>) returns (length: nat)
      requires !Refused(c) && req.Length >= MAX_MESSAGE_LENGTH
      modifies this, req
      ensures slave == old(slave) && tId == old(FreshTid())
      ensures length == backend.HeaderLength() + |RequestPdu(c)| <= req.Length
      ensures req[..length] == backend.Header(tId, slave) + RequestPdu(c)
    {
      hide Backend.Header, Pack, RegisterBytes, Basis;
      match c {
        case ReadBitsCall(addr, nb) => length := BuildRequestBasis(READ_COILS, addr, nb, req);
        case ReadInputBitsCall(addr, nb) => length := BuildRequestBasis(READ_DISCRETE_INPUTS, addr, nb, req);
        case ReadRegistersCall(addr, nb) => length := BuildRequestBasis(READ_HOLDING_REGISTERS, addr, nb, req);
        case ReadInputRegistersCall(addr, nb) => length := BuildRequestBasis(READ_INPUT_REGISTERS, addr, nb, req);
        case WriteBitCall(addr, status) =>
          length := BuildRequestBasis(WRITE_SINGLE_COIL, addr, if status then 0xFF00 else 0, req);
        case WriteRegisterCall(addr, value) => length := BuildRequestBasis(WRITE_SINGLE_REGISTER, addr, value, req);
        case WriteBitsCall(addr, cells) => length := BuildWriteBits(addr, cells, req);
        case WriteRegistersCall(addr, values) => length := BuildWriteRegisters(addr, values, req);
        case MaskWriteCall(addr, andMask, orMask) => length := BuildMaskWrite(addr, andMask, orMask, req);
        case WriteAndReadCall(writeAddr, values, addr, nb) =>
          length := BuildWriteAndRead(writeAddr, values, addr, nb, req);
        case ReportSlaveIdCall(_) =>
          length := BuildRequestBasis(REPORT_SLAVE_ID, 0, 0, req);
          length := length - 4;
          Shortened(req[..length + 4], backend.Header(tId, slave), Basis(REPORT_SLAVE_ID, 0, 0), 1);
      }
    }

    /** A request as it leaves: built, then sealed by the backend. */
    method SealRequest(c: Call, req: array<byte>) returns (length: nat)
      requires !Refused(c) && req.Length >= MAX_MESSAGE_LENGTH
      modifies this, req
      ensures slave == old(slave) && tId == old(FreshTid())
      ensures length <= req.Length && req[..length] == Request(backend, tId, slave, c)
    {
      hide Refused, RequestPdu, Backend.Header, Backend.Sealed;
      RequestComplete(c);
      length := BuildRequest(c, req);
      length := SendMsgPre(backend, req, length);
    }

    method BuildWriteBits(addr: word, cells: seq<byte>, req: array<byte>) returns (length: nat)
      requires |cells| <= MAX_WRITE_BITS && req.Length >= MAX_MESSAGE_LENGTH
      modifies this, req
      ensures slave == old(slave) && tId == old(FreshTid())
      ensures length == backend.HeaderLength() + |RequestPdu(WriteBitsCall(addr, cells))| <= req.Length
      ensures req[..length] == backend.Header(tId, slave) + RequestPdu(WriteBitsCall(addr, cells))
    {
      hide Backend.Header, Pack, Basis, Splice;
      length := BuildRequestBasis(WRITE_MULTIPLE_COILS, addr, |cells|, req);
      ghost var header, head := backend.Header(tId, slave), req[..length];
      req[length] := ByteCount(|cells|);
      length := length + 1;
      Appended(head, req[..], [ByteCount(|cells|)]);
      length := PutBits(cells, req, length);
      Built(header, Basis(WRITE_MULTIPLE_COILS, addr, |cells|), [ByteCount(|cells|)], Pack(Normalised(cells)), req[..]);
    }

    method BuildWriteRegisters(addr: word, values: seq<word>, req: array<byte>) returns (length: nat)
      requires |values| <= MAX_WRITE_REGISTERS && req.Length >= MAX_MESSAGE_LENGTH
      modifies this, req
      ensures slave == old(slave) && tId == old(FreshTid())
      ensures length == backend.HeaderLength() + |RequestPdu(WriteRegistersCall(addr, values))| <= req.Length
      ensures req[..length] == backend.Header(tId, slave) + RequestPdu(WriteRegistersCall(addr, values))
    {
      hide Backend.Header, RegisterBytes, Basis, Splice;
      length := BuildRequestBasis(WRITE_MULTIPLE_REGISTERS, addr, |values|, req);
      ghost var header, head := backend.Header(tId, slave), req[..length];
      req[length] := 2 * |values|;
      length := length + 1;
      Appended(head, req[..], [2 * |values|]);
      length := PutWords(values, req, length);
      Built(header, Basis(WRITE_MULTIPLE_REGISTERS, addr, |values|), [2 * |values|], RegisterBytes(values), req[..]);
    }

    method BuildMaskWrite(addr: word, andMask: word, orMask: word, req: array<byte>) returns (length: nat)
      requires req.Length >= MAX_MESSAGE_LENGTH
      modifies this, req
      ensures slave == old(slave) && tId == old(FreshTid())
      ensures length == backend.HeaderLength() + |RequestPdu(MaskWriteCall(addr, andMask, orMask))| <= req.Length
      ensures req[..length] == backend.Header(tId, slave) + RequestPdu(MaskWriteCall(addr, andMask, orMask))
    {
      hide Backend.Header, Basis;
      ghost var masks := [Hi(andMask), Lo(andMask), Hi(orMask), Lo(orMask)];
      length := BuildRequestBasis(MASK_WRITE_REGISTER, addr, 0, req);
      ghost var header := backend.Header(tId, slave);
      Shortened(req[..length], header, Basis(MASK_WRITE_REGISTER, addr, 0), 3);
      length := length - 2;
      ghost var head := req[..length];
      req[length], req[length + 1] := Hi(andMask), Lo(andMask);
      req[length + 2], req[length + 3] := Hi(orMask), Lo(orMask);
      length := length + 4;
      Appended(head, req[..], masks);
      assert header + Basis(MASK_WRITE_REGISTER, addr, 0)[..3] + masks
          == header + (Basis(MASK_WRITE_REGISTER, addr, 0)[..3] + masks);
    }

    method BuildWriteAndRead(writeAddr: word, values: seq<word>, addr: word, nb: nat, req: array<byte>)
      returns (length: nat)
      requires |values| <= MAX_WR_WRITE_REGISTERS && nb <= MAX_WR_READ_REGISTERS && req.Length >= MAX_MESSAGE_LENGTH
      modifies this, req
      ensures slave == old(slave) && tId == old(FreshTid())
      ensures length == backend.HeaderLength() + |RequestPdu(WriteAndReadCall(writeAddr, values, addr, nb))|
      ensures length <= req.Length
      ensures req[..length] == backend.Header(tId, slave) + RequestPdu(WriteAndReadCall(writeAddr, values, addr, nb))
    {
      hide Backend.Header, RegisterBytes, Basis, Splice;
      length := BuildRequestBasis(WRITE_AND_READ_REGISTERS, addr, nb, req);
      ghost var header, head := backend.Header(tId, slave), req[..length];
      ghost var middle := [Hi(writeAddr), Lo(writeAddr), Hi(|values|), Lo(|values|), 2 * |values|];
      req[length], req[length + 1] := Hi(writeAddr), Lo(writeAddr);
      req[length + 2], req[length + 3], req[length + 4] := Hi(|values|), Lo(|values|), 2 * |values|;
      length := length + 5;
      Appended(head, req[..], middle);
      length := PutWords(values, req, length);
      Built(header, Basis(WRITE_AND_READ_REGISTERS, addr, nb), middle, RegisterBytes(values), req[..]);
    }
  }

  // A message growing at its end

  lemma Appended(head: seq<byte>, now: seq<byte>, more: seq<byte>)
    requires |head| + |more| <= |now| && now[..|head|] == head
    requires forall k | 0 <= k < |more| :: now[|head| + k] == more[k]
    ensures now[..|head| + |more|] == head + more
  {
  }

  lemma Shortened(msg: seq<byte>, header: seq<byte>, basis: seq<byte>, keep: nat)
    requires msg == header + basis && keep <= |basis|
    ensures msg[..|header| + keep] == header + basis[..keep]
  {
  }

  lemma Built(header: seq<byte>, basis: seq<byte>, middle: seq<byte>, data: seq<byte>, now: seq<byte>)
    requires var n := |header| + |basis| + |middle|;
             && n + |data| <= |now| && now[..n] == header + basis + middle && now[n..n + |data|] == data
    ensures now[..|header| + |basis| + |middle| + |data|] == header + (basis + middle + data)
  {
  }

  // ---------------------------------------------------------------------------------------------
  // What a call hands back

  predicate FillsBits(c: Call) {
    c.ReadBitsCall? || c.ReadInputBitsCall? || c.ReportSlaveIdCall?
  }

  /** Room for what a call may deliver into the caller's arrays. */
  predicate Room(c: Call, bits: nat, registers: nat) {
    match c
    case ReadBitsCall(_, nb) => nb <= bits
    case ReadInputBitsCall(_, nb) => nb <= bits
    case ReadRegistersCall(_, nb) => nb <= registers
    case ReadInputRegistersCall(_, nb) => nb <= registers
    case WriteAndReadCall(_, _, _, nb) => nb <= registers
    case ReportSlaveIdCall(maxDest) => maxDest <= bits
    case _ => true
  }

  /** The caller's arrays before a call and after it. */
  datatype Dest = Dest(bits: seq<byte>, registers: seq<word>)

  /** Return value, errno and arrays are those of outcome `o`: an error leaves the arrays alone, and data goes
      to the front of the one array the call fills. */
  ghost predicate Returned(c: Call, o: Outcome, rc: int, errno: int, was: Dest, now: Dest) {
    match o
    case Error(e) => rc == -1 && errno == e && now == was
    case Ok(n, data) =>
      && rc == n
      && if FillsBits(c) then
           now.registers == was.registers && |data| <= |was.bits| && now.bits == Splice(was.bits, 0, data)
         else
           now.bits == was.bits && |data| <= |was.registers| && now.registers == Splice(was.registers, 0, data)
  }

  /** The last part of every call: the loops that take the values out of a confirmed response. */
  method TakeResponse(c: Call, rsp: array<byte>, offset: nat, n: nat, ghost p: seq<byte>,
                      bits: array<byte>, registers: array<word>)
    returns (rc: int)
    requires Decodable(c, p, n) && Room(c, bits.Length, registers.Length)
    requires offset + |p| <= rsp.Length && rsp[offset..offset + |p|] == p
    requires rsp != bits
    modifies bits, registers
    ensures Returned(c, Decode(c, p, n), rc, 0, old(Dest(bits[..], registers[..])), Dest(bits[..], registers[..]))
  {
    hide Splice, Unpack, BytesToRegisters, ByteCount;
    rc := n;
    if c.ReadBitsCall? || c.ReadInputBitsCall? {
      HeldOctets(rsp[..], offset, p, 2, |p|);
      assert p[2..|p|] == p[2..];
      TakeBits(rsp, offset + 2, n, bits, c.nb);
      rc := c.nb;
    } else if c.ReadRegistersCall? || c.ReadInputRegistersCall? || c.WriteAndReadCall? {
      HeldOctets(rsp[..], offset, p, 2, |p|);
      assert p[2..|p|] == p[2..];
      TakeWords(rsp, offset + 2, n, registers);
    } else if c.ReportSlaveIdCall? {
      HeldOctets(rsp[..], offset, p, 2, 2 + if n < c.maxDest then n else c.maxDest);
      TakeOctets(rsp, offset + 2, n, c.maxDest, bits);
    } else {
      assert Splice(registers[..], 0, []) == registers[..];
    }
  }

  /** A response of `n` octets is checked against its request, and what it carries is taken out; `rspLength` is what
      `check_confirmation` is told of its length. */
  method TakeConfirmed(b: Backend, tId: word, slave: byte, c: Call, req: array<byte>, reqLength: nat,
                       rsp: array<byte>, n: nat, rspLength: nat, bits: array<byte>, registers: array<word>)
    returns (rc: int, errno: int)
    requires !Refused(c) && Room(c, bits.Length, registers.Length)
    requires reqLength <= req.Length && req[..reqLength] == Request(b, tId, slave, c)
    requires b.HeaderLength() + b.ChecksumLength() < n <= rsp.Length && rspLength in {0, n}
    requires IsMessage(b, Confirmation, rsp[..n])
    requires req != bits && rsp != bits
    modifies bits, registers
    ensures Returned(c, Finish(b, tId, slave, c, old(rsp[..n]), rspLength), rc, errno,
                     old(Dest(bits[..], registers[..])), Dest(bits[..], registers[..]))
  {
    hide IsMessage, RequestPdu, CheckConfirmation, Decode, Decodable, Splice, Complete, Room, FillsBits,
         Backend.Sealed, Backend.Pdu, Backend.Header, Refused, Request;
    errno := 0;
    RequestIsMessage(b, tId, slave, c);
    RequestComplete(c);
    ghost var frame := rsp[..n];
    match CheckConfirmation(b, req[..reqLength], rsp[..n], rspLength) {
      case Rejected(e) =>
        rc, errno := -1, e;
      case Accepted(value) =>
        AcceptedIsDecodable(b, req[..reqLength], c, frame, rspLength);
        PduPlace(b, rsp[..], n);
        rc := TakeResponse(c, rsp, b.HeaderLength(), value, b.Pdu(frame), bits, registers);
    }
  }

  /** The client waits for a confirmation, checks it and takes out what it carries.  A response that
      `check_integrity` ignored reaches `check_confirmation` all the same, with length 0; how long it is can be read
      off its octets. */
  method ReceiveResponse(b: Backend, tId: word, slave: byte, c: Call, req: array<byte>, reqLength: nat, link: Link,
                         bits: array<byte>, registers: array<word>)
    returns (rc: int, errno: int)
    requires !Refused(c) && Room(c, bits.Length, registers.Length)
    requires reqLength <= req.Length && req[..reqLength] == Request(b, tId, slave, c)
    requires req != bits
    modifies link, bits, registers
    ensures link.failed ==> rc == -1 && errno == link.fault
    ensures link.failed ==> bits[..] == old(bits[..]) && registers[..] == old(registers[..])
    ensures !link.failed ==>
              Returned(c, ClientTurn(b, tId, slave, c, old(link.pending)), rc, errno,
                       old(Dest(bits[..], registers[..])), Dest(bits[..], registers[..]))
  {
    hide Frame, IsMessage, Finish, Splice, Room, FillsBits, Backend.CheckIntegrity, Refused, Request;
    ghost var s := link.pending;
    var rsp := new byte[MAX_MESSAGE_LENGTH];
    rc, errno := ReceiveMsg(b, slave, link, rsp, Confirmation);
    if !link.failed {
      IntegrityOf(b, Confirmation, slave, s);
      if rc != -1 {
        MessageIsLong(b, Confirmation, s);
        ReadOff(b, rsp[..], Frame(b, Confirmation, s).length);
        var n := Frame(b, Confirmation, rsp[..]).length;
        assert rsp[..n] == s[..n];
        rc, errno := TakeConfirmed(b, tId, slave, c, req, reqLength, rsp, n, rc, bits, registers);
      }
    }
  }

  lemma ReadOff(b: Backend, buffer: seq<byte>, n: nat)
    requires n <= |buffer| && IsMessage(b, Confirmation, buffer[..n])
    ensures Frame(b, Confirmation, buffer) == Message(n)
  {
    hide Frame;
    FrameOfPrefix(b, Confirmation, buffer[..n], buffer[n..]);
    assert buffer[..n] + buffer[n..] == buffer;
  }

  lemma PduPlace(b: Backend, msg: seq<byte>, n: nat)
    requires b.HeaderLength() + b.ChecksumLength() <= n <= |msg|
    ensures var p, o := b.Pdu(msg[..n]), b.HeaderLength();
            o + |p| <= |msg| && msg[o..o + |p|] == p
  {
  }

  /** What `check_integrity` says of a whole message is its length, 0, or -1. */
  lemma IntegrityOf(b: Backend, t: MsgType, slave: byte, s: seq<byte>)
    ensures Frame(b, t, s).Message? ==>
              (MessageIsLong(b, t, s);
               var n := Frame(b, t, s).length;
               var rc := b.CheckIntegrity(slave, s[..n]);
               rc == n || rc == 0 || rc == -1)
  {
    hide Frame, CrcDetection.CrcMatches;
    if Frame(b, t, s).Message? {
      MessageIsLong(b, t, s);
    }
  }

  /** What one reception returns and leaves on the link. */
  ghost predicate Took(b: Backend, slave: byte, s: seq<byte>, rc: int, rest: seq<byte>) {
    match Frame(b, Indication, s)
    case Message(n) =>
      MessageIsLong(b, Indication, s);
      rc == b.CheckIntegrity(slave, s[..n]) && rest == s[n..]
    case _ => rc == -1
  }

  /** One turn of a server: a request received in pieces, and the answer of `modbus_reply` to one meant for it; `rc` is
      what the reception returned. */
  method ServeOne(b: Backend, slave: byte, m: Mapping, link: Link) returns (rc: int, sent: seq<byte>)
    requires m.Valid() && Servable(b, m.startRegisters, m.tabRegisters.Length, link.pending)
    modifies link, m.tabBits, m.tabRegisters
    ensures m.Valid()
    ensures if link.failed then m.Contents() == old(m.Contents()) && sent == []
            else (m.Contents(), sent) == ServerTurn(b, slave, old(m.Contents()), old(link.pending))
    ensures if link.failed then rc == -1 else Took(b, slave, old(link.pending), rc, link.pending)
  {
    hide Frame, IsMessage, Complete, Execute, Response, Backend.Sealed, Backend.CheckIntegrity, Backend.Pdu,
         Mapping.Valid, Mapping.Contents, Serve, Apart;
    ghost var s, t := link.pending, m.Contents();
    var query, rsp := new byte[MAX_MESSAGE_LENGTH], new byte[MAX_MESSAGE_LENGTH];
    var errno;
    rc, errno := ReceiveMsg(b, slave, link, query, Indication);
    sent := [];
    if link.failed {
      return;
    }
    IntegrityOf(b, Indication, slave, s);
    if rc <= 0 {
      return;
    }
    MessageIsLong(b, Indication, s);
    assert query[..rc] == s[..rc];
    Extent(m);
    Separate(m, query, rsp);
    var length := ModbusReply(b, m, query, rc, rsp);
    if length > 0 {
      sent := rsp[..length];
    }
  }

  lemma Separate(m: Mapping, req: array<byte>, rsp: array<byte>)
    requires req != rsp && req != m.tabBits && rsp != m.tabBits && req != m.tabInputBits && rsp != m.tabInputBits
    ensures Apart(m, req, rsp)
  {
  }

  /** One call of the client interface against a server, both ends and the two directions of the link between them as
      they run.  Unless the link fails, the call returns and leaves what the abstract machine does, whatever pieces the
      octets arrive in.  If it fails on the way up, the server has done nothing and the client runs into its timeout; if
      it fails on the way down, the server has executed the call and the client returns the errno that the link
      leaves. */
  method Perform(ctx: Context, c: Call, m: Mapping, bits: array<byte>, registers: array<word>, up: Link, down: Link)
    returns (rc: int, errno: int)
    requires m.Valid() && AboveStart(m.startRegisters, m.tabRegisters.Length, c)
    requires Room(c, bits.Length, registers.Length)
    requires ctx.backend.Rtu? ==> ctx.slave != BROADCAST_ADDRESS
    requires bits != m.tabBits && bits != m.tabInputBits
    requires registers != m.tabRegisters && registers != m.tabInputRegisters
    requires up != down && !up.failed && !down.failed
    modifies ctx, m.tabBits, m.tabRegisters, bits, registers, up, down
    ensures m.Valid()
    ensures ctx.slave == old(ctx.slave)
    ensures var refused := Above(c) || (c.ReportSlaveIdCall? && !Within(c));
            if refused then ctx.tId == old(ctx.tId) && unchanged(up) && unchanged(down)
            else ctx.tId == old(ctx.FreshTid())
    ensures up.failed || down.failed ==> rc == -1 && bits[..] == old(bits[..]) && registers[..] == old(registers[..])
    ensures up.failed ==> errno == 110 && !down.failed && m.Contents() == old(m.Contents())
    ensures down.failed ==> errno == down.fault && m.Contents() == Abstract(old(m.Contents()), c).0
    ensures !up.failed && !down.failed ==>
              && m.Contents() == Abstract(old(m.Contents()), c).0
              && Returned(c, Abstract(old(m.Contents()), c).1, rc, errno,
                          old(Dest(bits[..], registers[..])), Dest(bits[..], registers[..]))
  {
    hide Refused, AboveStart, Servable, Room, Returned, RequestPdu, Request, ServerTurn, ClientTurn, Above, Within,
         Mapping.Contents, Mapping.Valid, Backend.Sealed, Backend.Header, NextTid;
    Extent(m);
    RefusedIff(c);
    ghost var t, b := m.Contents(), ctx.backend;
    if Refused(c) {
      RefusedReturns(c, t, Dest(bits[..], registers[..]));
      return -1, RefusalErrno(c);
    }
    var req := new byte[MAX_MESSAGE_LENGTH];
    var length := ctx.SealRequest(c, req);
    ghost var tId, slave := ctx.tId, ctx.slave;
    TransactRefines(b, tId, slave, t, c);
    RequestServable(b, tId, slave, t.startRegisters, |t.registers|, c);
    up.pending := req[..length];
    var _, sent := ServeOne(ctx.backend, ctx.slave, m, up);
    if up.failed {
      return -1, ETIMEDOUT;
    }
    down.pending := sent;
    rc, errno := ReceiveResponse(ctx.backend, ctx.tId, ctx.slave, c, req, length, down, bits, registers);
  }

  lemma RefusedReturns(c: Call, t: Tables, dest: Dest)
    requires Refused(c)
    ensures Abstract(t, c).0 == t && Returned(c, Abstract(t, c).1, -1, RefusalErrno(c), dest, dest)
  {
  }
}
