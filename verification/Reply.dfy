/** `modbus_reply` as it runs: on the arrays of a mapping and a response buffer. */
module Reply {
  import opened Bytes
  import Crc
  import opened Protocol
  import opened Packing
  import opened BitLoops
  import opened Framing
  import opened Backend
  import opened Server

  /** `modbus_mapping_t`. */
  class Mapping {
    const startBits: nat
    const startInputBits: nat
    const startRegisters: nat
    const startInputRegisters: nat
    const tabBits: array<byte>
    const tabInputBits: array<byte>
    const tabRegisters: array<word>
    const tabInputRegisters: array<word>

    /** `modbus_mapping_new_start_address`. */
    constructor (startBits: nat, nbBits: nat, startInputBits: nat, nbInputBits: nat,
                 startRegisters: nat, nbRegisters: nat, startInputRegisters: nat, nbInputRegisters: nat)
      ensures Valid()
      ensures fresh(tabBits) && fresh(tabInputBits) && fresh(tabRegisters) && fresh(tabInputRegisters)
      ensures Contents() == Tables(startBits, seq(nbBits, _ => 0), startInputBits, seq(nbInputBits, _ => 0),
                                   startRegisters, seq(nbRegisters, _ => 0),
                                   startInputRegisters, seq(nbInputRegisters, _ => 0))
    {
      this.startBits := startBits;
      this.startInputBits := startInputBits;
      this.startRegisters := startRegisters;
      this.startInputRegisters := startInputRegisters;
      tabBits := new byte[nbBits](_ => 0);
      tabInputBits := new byte[nbInputBits](_ => 0);
      tabRegisters := new word[nbRegisters](_ => 0);
      tabInputRegisters := new word[nbInputRegisters](_ => 0);
    }

    /** The bit tables hold nothing but 0 and 1. */
    ghost predicate Valid()
      reads tabBits, tabInputBits
    {
      && tabBits != tabInputBits && tabRegisters != tabInputRegisters
      && AllBits(tabBits[..]) && AllBits(tabInputBits[..])
    }

    ghost function Contents(): Tables
      requires Valid()
      reads tabBits, tabInputBits, tabRegisters, tabInputRegisters
    {
      Tables(startBits, Cells(tabBits[..]), startInputBits, Cells(tabInputBits[..]),
             startRegisters, tabRegisters[..], startInputRegisters, tabInputRegisters[..])
    }
  }

  datatype Sft = Sft(slave: byte, function_: byte, tId: word)

  /** `send_msg_pre`: the CRC behind the message, or the length in its MBAP header. */
  method SendMsgPre(b: Backend, msg: array<byte>, length: nat) returns (newLength: nat)
    requires b.HeaderLength() < length && length + b.ChecksumLength() <= msg.Length
    modifies msg
    ensures newLength == length + b.ChecksumLength() && msg[..newLength] == b.Sealed(old(msg[..length]))
  {
    hide Crc.CrcHi, Crc.CrcLo;
    newLength := length;
    if b.Rtu? {
      var crc := Crc.Crc16(msg, length);
      msg[length] := Hi(crc);
      msg[length + 1] := Lo(crc);
      newLength := length + 2;
    } else {
      var mbapLength := length - 6;
      msg[4] := Hi(mbapLength);
      msg[5] := Lo(mbapLength);
    }
  }

  /** `build_response_basis`; the MBAP length octets are filled in by `SendMsgPre`. */
  method BuildResponseBasis(b: Backend, sft: Sft, rsp: array<byte>) returns (length: nat)
    requires rsp.Length >= MAX_MESSAGE_LENGTH
    modifies rsp
    ensures length == b.HeaderLength() + 1
    ensures rsp[..length] == b.Header(sft.tId, sft.slave) + [sft.function_]
  {
    if b.Rtu? {
      rsp[0], rsp[1] := sft.slave, sft.function_;
      length := 2;
    } else {
      rsp[0], rsp[1] := Hi(sft.tId), Lo(sft.tId);
      rsp[2], rsp[3], rsp[4], rsp[5] := 0, 0, 0, 0;
      rsp[6], rsp[7] := sft.slave, sft.function_;
      length := 8;
    }
  }

  /** The PDU of a request lies in the request buffer behind the header. */
  ghost predicate Holds(req: array<byte>, o: nat, pdu: seq<byte>)
    reads req
  {
    o + |pdu| <= req.Length && req[o..o + |pdu|] == pdu
  }

  lemma HeldField(req: array<byte>, o: nat, pdu: seq<byte>, at: nat)
    requires Holds(req, o, pdu) && at + 1 < |pdu|
    ensures o + at + 1 < req.Length && Word(req[o + at], req[o + at + 1]) == Field(pdu, at)
  {
    HeldOctet(req, o, pdu, at);
    HeldOctet(req, o, pdu, at + 1);
  }

  lemma HeldOctet(req: array<byte>, o: nat, pdu: seq<byte>, at: nat)
    requires Holds(req, o, pdu) && at < |pdu|
    ensures o + at < req.Length && req[o + at] == pdu[at]
  {
    assert req[o..o + |pdu|][at] == req[o + at];
  }

  ghost predicate Replies(b: Backend, sft: Sft, rsp: array<byte>, length: nat, pdu: seq<byte>, reply: Server.Reply)
    requires pdu != [] && !reply.Silence?
    reads rsp
  {
    length <= rsp.Length && rsp[..length] == b.Header(sft.tId, sft.slave) + ReplyPdu(pdu, reply)
  }

  method ResponseException(b: Backend, sft: Sft, code: byte, ghost pdu: seq<byte>, rsp: array<byte>)
    returns (length: nat)
    requires rsp.Length >= MAX_MESSAGE_LENGTH && pdu != [] && sft.function_ == pdu[0]
    modifies rsp
    ensures Replies(b, sft, rsp, length, pdu, Exception(code))
  {
    hide Backend.Header;
    var function_: int := sft.function_;
    length := BuildResponseBasis(b, sft.(function_ := Lo(function_ + 0x80)), rsp);
    ghost var head := rsp[..length];
    rsp[length] := code;
    length := length + 1;
    assert rsp[..length] == head + [code];
  }

  method ReplyReadBits(b: Backend, sft: Sft, startBits: nat, tabBits: array<byte>, ghost cells: seq<bit>,
                       req: array<byte>, o: nat, ghost pdu: seq<byte>, rsp: array<byte>)
    returns (length: nat)
    requires |pdu| == 5 && Holds(req, o, pdu) && sft.function_ == pdu[0]
    requires tabBits[..] == cells && rsp != tabBits && rsp != req && rsp.Length >= MAX_MESSAGE_LENGTH
    modifies rsp
    ensures Replies(b, sft, rsp, length, pdu, ReadBits(startBits, cells, pdu))
  {
    hide Pack, Word, Field, Replies;
    HeldField(req, o, pdu, 1);
    HeldField(req, o, pdu, 3);
    var address, nb := Word(req[o + 1], req[o + 2]), Word(req[o + 3], req[o + 4]);
    var mappingAddress := address - startBits;
    if nb < 1 || MAX_READ_BITS < nb {
      length := ResponseException(b, sft, ILLEGAL_DATA_VALUE, pdu, rsp);
    } else if mappingAddress < 0 || mappingAddress + nb > tabBits.Length {
      length := ResponseException(b, sft, ILLEGAL_DATA_ADDRESS, pdu, rsp);
    } else {
      length := AnswerBits(b, sft, tabBits, mappingAddress, nb, cells[mappingAddress..mappingAddress + nb], pdu, rsp);
    }
  }

  /** The response that carries bits: their octets behind the octet count. */
  method AnswerBits(b: Backend, sft: Sft, tabBits: array<byte>, mappingAddress: nat, nb: nat, ghost asked: seq<bit>,
                    ghost pdu: seq<byte>, rsp: array<byte>)
    returns (length: nat)
    requires mappingAddress + nb <= tabBits.Length && tabBits[mappingAddress..mappingAddress + nb] == asked
    requires nb <= MAX_READ_BITS && pdu != [] && sft.function_ == pdu[0]
    requires rsp != tabBits && rsp.Length >= MAX_MESSAGE_LENGTH
    modifies rsp
    ensures Replies(b, sft, rsp, length, pdu, Answer([pdu[0], ByteCount(nb)] + Pack(asked)))
  {
    hide Pack, PackCells, Backend.Header;
    PackCellsOfBits(asked);
    length := BuildResponseBasis(b, sft, rsp);
    rsp[length] := ByteCount(nb);
    length := length + 1;
    ghost var head, header := rsp[..length], b.Header(sft.tId, sft.slave);
    assert head == header + [pdu[0], ByteCount(nb)];
    length := ResponseIoStatus(tabBits, mappingAddress, nb, asked, rsp, length);
    PutBehind(header, [pdu[0], ByteCount(nb)], head, rsp[..length], Pack(asked));
  }

  /** The loop that appends registers to a response, high octet first. */
  method PutRegisters(tabRegisters: array<word>, mappingAddress: nat, nb: nat, rsp: array<byte>, offset: nat)
    returns (end: nat)
    requires mappingAddress + nb <= tabRegisters.Length && offset + 2 * nb <= rsp.Length
    modifies rsp
    ensures end == offset + 2 * nb
    ensures rsp[..] == Splice(old(rsp[..]), offset, RegisterBytes(tabRegisters[mappingAddress..mappingAddress + nb]))
  {
    ghost var regs := tabRegisters[mappingAddress..mappingAddress + nb];
    ghost var bytes := RegisterBytes(regs);
    hide RegisterBytes, Hi, Lo;
    end := offset;
    var i := mappingAddress;
    while i < mappingAddress + nb
      invariant mappingAddress <= i <= mappingAddress + nb && end == offset + 2 * (i - mappingAddress)
      invariant forall p | mappingAddress <= p < mappingAddress + nb :: tabRegisters[p] == regs[p - mappingAddress]
      invariant forall p | offset <= p < end :: rsp[p] == bytes[p - offset]
      invariant forall p | 0 <= p < rsp.Length && !(offset <= p < end) :: rsp[p] == old(rsp[p])
    {
      OctetsOfRegister(regs, i - mappingAddress);
      rsp[end] := Hi(tabRegisters[i]);
      end := end + 1;
      rsp[end] := Lo(tabRegisters[i]);
      end := end + 1;
      i := i + 1;
    }
    SplicedCells(old(rsp[..]), rsp[..], offset, bytes);
  }

  /** The loop that stores the registers of a request. */
  method TakeRegisters(req: array<byte>, at: nat, nb: nat, tabRegisters: array<word>, mappingAddress: nat)
    requires at + 2 * nb <= req.Length && mappingAddress + nb <= tabRegisters.Length
    modifies tabRegisters
    ensures tabRegisters[..] ==
            Splice(old(tabRegisters[..]), mappingAddress, BytesToRegisters(old(req[at..at + 2 * nb]), nb))
  {
    ghost var values := BytesToRegisters(req[at..at + 2 * nb], nb);
    var i, j := mappingAddress, at;
    while i < mappingAddress + nb
      invariant mappingAddress <= i <= mappingAddress + nb && j == at + 2 * (i - mappingAddress)
      invariant forall p | at <= p < at + 2 * nb :: req[p] == old(req[p])
      invariant forall p | mappingAddress <= p < i :: tabRegisters[p] == values[p - mappingAddress]
      invariant forall p | 0 <= p < tabRegisters.Length && !(mappingAddress <= p < i) ::
                  tabRegisters[p] == old(tabRegisters[p])
    {
      tabRegisters[i] := Word(req[j], req[j + 1]);
      i := i + 1;
      j := j + 2;
    }
    SplicedCells(old(tabRegisters[..]), tabRegisters[..], mappingAddress, values);
  }

  method ReplyReadRegisters(b: Backend, sft: Sft, startRegisters: nat, tabRegisters: array<word>,
                            req: array<byte>, o: nat, ghost pdu: seq<byte>, rsp: array<byte>)
    returns (length: nat)
    requires |pdu| == 5 && Holds(req, o, pdu) && sft.function_ == pdu[0]
    requires rsp != req && rsp.Length >= MAX_MESSAGE_LENGTH
    modifies rsp
    ensures Replies(b, sft, rsp, length, pdu, ReadRegisters(startRegisters, tabRegisters[..], pdu))
  {
    hide RegisterBytes, Word, Field, Replies;
    HeldField(req, o, pdu, 1);
    HeldField(req, o, pdu, 3);
    var address, nb := Word(req[o + 1], req[o + 2]), Word(req[o + 3], req[o + 4]);
    var mappingAddress := address - startRegisters;
    if nb < 1 || MAX_READ_REGISTERS < nb {
      length := ResponseException(b, sft, ILLEGAL_DATA_VALUE, pdu, rsp);
    } else if mappingAddress < 0 || mappingAddress + nb > tabRegisters.Length {
      length := ResponseException(b, sft, ILLEGAL_DATA_ADDRESS, pdu, rsp);
    } else {
      length := AnswerRegisters(b, sft, tabRegisters, mappingAddress, nb, pdu, rsp);
    }
  }

  /** The response that carries registers: their octets behind the octet count. */
  method AnswerRegisters(b: Backend, sft: Sft, tabRegisters: array<word>, mappingAddress: nat, nb: nat,
                         ghost pdu: seq<byte>, rsp: array<byte>)
    returns (length: nat)
    requires mappingAddress + nb <= tabRegisters.Length && nb <= MAX_READ_REGISTERS
    requires pdu != [] && sft.function_ == pdu[0] && rsp.Length >= MAX_MESSAGE_LENGTH
    modifies rsp
    ensures Replies(b, sft, rsp, length, pdu,
                    Answer([pdu[0], 2 * nb] + RegisterBytes(tabRegisters[..][mappingAddress..mappingAddress + nb])))
  {
    hide RegisterBytes, Backend.Header;
    ghost var asked := tabRegisters[..][mappingAddress..mappingAddress + nb];
    length := BuildResponseBasis(b, sft, rsp);
    rsp[length] := 2 * nb;
    length := length + 1;
    ghost var head, header := rsp[..length], b.Header(sft.tId, sft.slave);
    assert head == header + [pdu[0], 2 * nb];
    length := PutRegisters(tabRegisters, mappingAddress, nb, rsp, length);
    PutBehind(header, [pdu[0], 2 * nb], head, rsp[..length], RegisterBytes(asked));
  }

  /** `memcpy(rsp, req, req_length)`. */
  method CopyRequest(req: array<byte>, length: nat, rsp: array<byte>)
    requires length <= req.Length && length <= rsp.Length && rsp != req
    modifies rsp
    ensures rsp[..length] == req[..length]
  {
    forall i | 0 <= i < length {
      rsp[i] := req[i];
    }
  }

  /** The response that repeats address and quantity: `memcpy(rsp + rsp_length, req + rsp_length, 4)`. */
  method RepeatQuantity(b: Backend, sft: Sft, req: array<byte>, o: nat, ghost pdu: seq<byte>, rsp: array<byte>)
    returns (length: nat)
    requires |pdu| >= 5 && Holds(req, o, pdu) && sft.function_ == pdu[0] && o == b.HeaderLength()
    requires rsp != req && rsp.Length >= MAX_MESSAGE_LENGTH
    modifies rsp
    ensures Replies(b, sft, rsp, length, pdu, Answer(pdu[..5]))
  {
    HeldOctets(req[..], o, pdu, 1, 5);
    length := BuildResponseBasis(b, sft, rsp);
    ghost var head := rsp[..length];
    forall i | 0 <= i < 4 {
      rsp[length + i] := req[length + i];
    }
    length := length + 4;
    assert rsp[..length] == head + pdu[1..5];
  }

  /** What a handler leaves: the tables of `e`, and either the echo of the request or the reply of `e`. */
  ghost predicate Handled(b: Backend, sft: Sft, rsp: array<byte>, length: nat, pdu: seq<byte>,
                          reply: Server.Reply, frame: seq<byte>)
    requires pdu != [] && !reply.Silence?
    reads rsp
  {
    if reply.Echo? then length <= rsp.Length && rsp[..length] == frame else Replies(b, sft, rsp, length, pdu, reply)
  }

  method ReplyWriteBit(b: Backend, sft: Sft, m: Mapping, req: array<byte>, o: nat, reqLength: nat,
                       ghost pdu: seq<byte>, rsp: array<byte>)
    returns (length: nat)
    requires |pdu| == 5 && Holds(req, o, pdu) && sft.function_ == pdu[0] && reqLength <= req.Length
    requires m.Valid() && rsp != req && rsp != m.tabBits && rsp != m.tabInputBits && req != m.tabBits
    requires rsp.Length >= MAX_MESSAGE_LENGTH >= reqLength
    modifies m.tabBits, rsp
    ensures m.Valid() && m.Contents() == WriteBit(old(m.Contents()), pdu).tables
    ensures Handled(b, sft, rsp, length, pdu, WriteBit(old(m.Contents()), pdu).reply, req[..reqLength])
  {
    hide Word, Field, Replies;
    HeldField(req, o, pdu, 1);
    HeldField(req, o, pdu, 3);
    var address := Word(req[o + 1], req[o + 2]);
    var data := Word(req[o + 3], req[o + 4]);
    var mappingAddress := address - m.startBits;
    if mappingAddress < 0 || mappingAddress >= m.tabBits.Length {
      length := ResponseException(b, sft, ILLEGAL_DATA_ADDRESS, pdu, rsp);
    } else if data == 0xFF00 || data == 0 {
      m.tabBits[mappingAddress] := if data != 0 then 1 else 0;
      CopyRequest(req, reqLength, rsp);
      length := reqLength;
    } else {
      length := ResponseException(b, sft, ILLEGAL_DATA_VALUE, pdu, rsp);
    }
  }

  method ReplyWriteRegister(b: Backend, sft: Sft, m: Mapping, req: array<byte>, o: nat, reqLength: nat,
                            ghost pdu: seq<byte>, rsp: array<byte>)
    returns (length: nat)
    requires |pdu| == 5 && Holds(req, o, pdu) && sft.function_ == pdu[0] && reqLength <= req.Length
    requires m.Valid() && rsp != req && rsp != m.tabBits && rsp != m.tabInputBits
    requires rsp.Length >= MAX_MESSAGE_LENGTH >= reqLength
    modifies m.tabRegisters, rsp
    ensures m.Valid() && m.Contents() == WriteRegister(old(m.Contents()), pdu).tables
    ensures Handled(b, sft, rsp, length, pdu, WriteRegister(old(m.Contents()), pdu).reply, req[..reqLength])
  {
    hide Word, Field, Replies;
    HeldField(req, o, pdu, 1);
    HeldField(req, o, pdu, 3);
    var address := Word(req[o + 1], req[o + 2]);
    var data := Word(req[o + 3], req[o + 4]);
    var mappingAddress := address - m.startRegisters;
    if mappingAddress < 0 || mappingAddress >= m.tabRegisters.Length {
      length := ResponseException(b, sft, ILLEGAL_DATA_ADDRESS, pdu, rsp);
    } else {
      m.tabRegisters[mappingAddress] := data;
      CopyRequest(req, reqLength, rsp);
      length := reqLength;
    }
  }

  method ReplyMaskWrite(b: Backend, sft: Sft, m: Mapping, req: array<byte>, o: nat, reqLength: nat,
                        ghost pdu: seq<byte>, rsp: array<byte>)
    returns (length: nat)
    requires |pdu| == 7 && Holds(req, o, pdu) && sft.function_ == pdu[0] && reqLength <= req.Length
    requires m.Valid() && rsp != req && rsp != m.tabBits && rsp != m.tabInputBits
    requires rsp.Length >= MAX_MESSAGE_LENGTH >= reqLength
    modifies m.tabRegisters, rsp
    ensures m.Valid() && m.Contents() == MaskWrite(old(m.Contents()), pdu).tables
    ensures Handled(b, sft, rsp, length, pdu, MaskWrite(old(m.Contents()), pdu).reply, req[..reqLength])
  {
    hide And, Or, Not, Word, Field, Replies;
    HeldField(req, o, pdu, 1);
    HeldField(req, o, pdu, 3);
    HeldField(req, o, pdu, 5);
    var address := Word(req[o + 1], req[o + 2]);
    var andMask := Word(req[o + 3], req[o + 4]);
    var orMask := Word(req[o + 5], req[o + 6]);
    var mappingAddress := address - m.startRegisters;
    if mappingAddress < 0 || mappingAddress >= m.tabRegisters.Length {
      length := ResponseException(b, sft, ILLEGAL_DATA_ADDRESS, pdu, rsp);
    } else {
      var data := m.tabRegisters[mappingAddress];
      data := U16(Or(And(data, andMask, 16), And(orMask, Not(andMask, 16), 16), 16));
      m.tabRegisters[mappingAddress] := data;
      CopyRequest(req, reqLength, rsp);
      length := reqLength;
    }
  }

  /** What the guards of the handlers read off the mapping. */
  lemma Extent(m: Mapping)
    requires m.Valid()
    ensures var t := m.Contents();
            && t.startBits == m.startBits && |t.bits| == m.tabBits.Length
            && t.startRegisters == m.startRegisters && |t.registers| == m.tabRegisters.Length
  {
  }

  /** The coils of a request taken into the table. */
  method StoreBits(m: Mapping, mappingAddress: nat, nb: nat, req: array<byte>, at: nat)
    requires m.Valid() && req != m.tabBits
    requires mappingAddress + nb <= m.tabBits.Length && at + ByteCount(nb) <= req.Length
    modifies m.tabBits
    ensures m.Valid()
    ensures mappingAddress + nb <= |old(m.Contents()).bits|
    ensures m.Contents() == var t := old(m.Contents());
              t.(bits := Splice(t.bits, mappingAddress, Unpack(old(req[at..at + ByteCount(nb)]), nb)))
  {
    hide Unpack, Splice, AllBits, Cells;
    ghost var was := Cells(m.tabBits[..]);
    ghost var cells := Unpack(req[at..at + ByteCount(nb)], nb);
    SetBitsFromBytes(m.tabBits, mappingAddress, nb, req, at);
    SplicedBits(m.tabBits[..], was, mappingAddress, cells);
  }

  lemma SplicedBits(now: seq<byte>, was: seq<bit>, at: nat, cells: seq<bit>)
    requires at + |cells| <= |was| && now == Splice(was, at, cells)
    ensures AllBits(now) && Cells(now) == Splice(was, at, cells)
  {
  }

  method ReplyWriteBits(b: Backend, sft: Sft, m: Mapping, req: array<byte>, o: nat,
                        ghost pdu: seq<byte>, rsp: array<byte>)
    returns (length: nat)
    requires |pdu| >= 6 && |pdu| - 6 == pdu[5] && Holds(req, o, pdu) && sft.function_ == pdu[0]
    requires o == b.HeaderLength()
    requires m.Valid() && rsp != req && rsp != m.tabBits && rsp != m.tabInputBits && req != m.tabBits
    requires rsp.Length >= MAX_MESSAGE_LENGTH
    modifies m.tabBits, rsp
    ensures m.Valid() && m.Contents() == WriteBits(old(m.Contents()), pdu).tables
    ensures Replies(b, sft, rsp, length, pdu, WriteBits(old(m.Contents()), pdu).reply)
  {
    hide Word, Field, WriteBits, Unpack, Splice, ByteCount, Mapping.Valid, Mapping.Contents, Replies;
    HeldField(req, o, pdu, 1);
    HeldField(req, o, pdu, 3);
    HeldOctet(req, o, pdu, 5);
    var address, nb := Word(req[o + 1], req[o + 2]), Word(req[o + 3], req[o + 4]);
    var nbBits: int := req[o + 5];
    WriteBitsCases(m.Contents(), pdu);
    Extent(m);
    var mappingAddress := address - m.startBits;
    if nb < 1 || MAX_WRITE_BITS < nb || nbBits * 8 < nb {
      length := ResponseException(b, sft, ILLEGAL_DATA_VALUE, pdu, rsp);
    } else if mappingAddress < 0 || mappingAddress + nb > m.tabBits.Length {
      length := ResponseException(b, sft, ILLEGAL_DATA_ADDRESS, pdu, rsp);
    } else {
      HeldOctets(req[..], o, pdu, 6, 6 + ByteCount(nb));
      StoreBits(m, mappingAddress, nb, req, o + 6);
      length := RepeatQuantity(b, sft, req, o, pdu, rsp);
    }
  }

  lemma HeldOctets(req: seq<byte>, o: nat, pdu: seq<byte>, from: nat, to: nat)
    requires o + |pdu| <= |req| && req[o..o + |pdu|] == pdu && from <= to <= |pdu|
    ensures req[o + from..o + to] == pdu[from..to]
  {
    forall k | 0 <= k < to - from
      ensures req[o + from..o + to][k] == pdu[from..to][k]
    {
      assert req[o..o + |pdu|][from + k] == pdu[from + k];
    }
  }

  lemma WriteBitsCases(t: Tables, pdu: seq<byte>)
    requires |pdu| >= 6 && |pdu| - 6 == pdu[5]
    ensures var address, nb := Field(pdu, 1), Field(pdu, 3);
            var nbBits: int := pdu[5];
            if nb < 1 || MAX_WRITE_BITS < nb || nbBits * 8 < nb then
              WriteBits(t, pdu) == Executed(t, Exception(ILLEGAL_DATA_VALUE))
            else if !Covers(t.startBits, |t.bits|, address, nb) then
              WriteBits(t, pdu) == Executed(t, Exception(ILLEGAL_DATA_ADDRESS))
            else
              && ByteCount(nb) <= |pdu| - 6
              && var data := pdu[6..6 + ByteCount(nb)];
              && nb <= 8 * |data|
              && WriteBits(t, pdu) == Executed(t.(bits := Splice(t.bits, address - t.startBits, Unpack(data, nb))),
                                               Answer(pdu[..5]))
  {
    var nb := Field(pdu, 3);
    var nbBits: int := pdu[5];
    if nb <= nbBits * 8 {
      UnpackPrefix(pdu[6..], pdu[6..6 + ByteCount(nb)], nb);
    }
  }

  /** The octets beyond the last one needed play no part. */
  lemma UnpackPrefix(bytes: seq<byte>, data: seq<byte>, nb: nat)
    requires nb <= 8 * |bytes| && |data| == ByteCount(nb) <= |bytes| && data == bytes[..|data|]
    ensures Unpack(data, nb) == Unpack(bytes, nb)
  {
  }

  method ReplyWriteRegisters(b: Backend, sft: Sft, m: Mapping, req: array<byte>, o: nat,
                             ghost pdu: seq<byte>, rsp: array<byte>)
    returns (length: nat)
    requires |pdu| >= 6 && |pdu| - 6 == pdu[5] && Holds(req, o, pdu) && sft.function_ == pdu[0]
    requires o == b.HeaderLength()
    requires m.Valid() && rsp != req && rsp != m.tabBits && rsp != m.tabInputBits
    requires rsp.Length >= MAX_MESSAGE_LENGTH
    modifies m.tabRegisters, rsp
    ensures m.Valid() && m.Contents() == WriteRegisters(old(m.Contents()), pdu).tables
    ensures Replies(b, sft, rsp, length, pdu, WriteRegisters(old(m.Contents()), pdu).reply)
  {
    hide BytesToRegisters, Splice, Word, Field, Replies;
    HeldField(req, o, pdu, 1);
    HeldField(req, o, pdu, 3);
    HeldOctet(req, o, pdu, 5);
    var address, nb := Word(req[o + 1], req[o + 2]), Word(req[o + 3], req[o + 4]);
    var nbBytes: int := req[o + 5];
    var mappingAddress := address - m.startRegisters;
    if nb < 1 || MAX_WRITE_REGISTERS < nb || nbBytes != nb * 2 {
      length := ResponseException(b, sft, ILLEGAL_DATA_VALUE, pdu, rsp);
    } else if mappingAddress < 0 || mappingAddress + nb > m.tabRegisters.Length {
      length := ResponseException(b, sft, ILLEGAL_DATA_ADDRESS, pdu, rsp);
    } else {
      assert req[o + 6..o + 6 + 2 * nb] == pdu[6..];
      TakeRegisters(req, o + 6, nb, m.tabRegisters, mappingAddress);
      length := RepeatQuantity(b, sft, req, o, pdu, rsp);
    }
  }

  method ReplyWriteAndRead(b: Backend, sft: Sft, m: Mapping, req: array<byte>, o: nat,
                           ghost pdu: seq<byte>, rsp: array<byte>)
    returns (length: nat)
    requires |pdu| >= 10 && |pdu| - 10 == pdu[9] && Holds(req, o, pdu) && sft.function_ == pdu[0]
    requires m.Valid() && WritesFromStart(m.startRegisters, m.tabRegisters.Length, pdu)
    requires rsp != req && rsp != m.tabBits && rsp != m.tabInputBits
    requires rsp.Length >= MAX_MESSAGE_LENGTH
    modifies m.tabRegisters, rsp
    ensures m.Valid() && m.Contents() == WriteAndRead(old(m.Contents()), pdu).tables
    ensures Replies(b, sft, rsp, length, pdu, WriteAndRead(old(m.Contents()), pdu).reply)
  {
    hide Word, Field, WriteAndRead, BytesToRegisters, RegisterBytes, Splice, Mapping.Valid, Mapping.Contents, Replies;
    HeldField(req, o, pdu, 1);
    HeldField(req, o, pdu, 3);
    HeldField(req, o, pdu, 5);
    HeldField(req, o, pdu, 7);
    HeldOctet(req, o, pdu, 9);
    var address, nb := Word(req[o + 1], req[o + 2]), Word(req[o + 3], req[o + 4]);
    var addressWrite, nbWrite := Word(req[o + 5], req[o + 6]), Word(req[o + 7], req[o + 8]);
    var nbWriteBytes: int := req[o + 9];
    Extent(m);
    RefusedWriteAndRead(m.Contents(), pdu);
    var mappingAddress, mappingAddressWrite := address - m.startRegisters, addressWrite - m.startRegisters;
    if nbWrite < 1 || MAX_WR_WRITE_REGISTERS < nbWrite || nb < 1 || MAX_WR_READ_REGISTERS < nb
       || nbWriteBytes != nbWrite * 2 {
      length := ResponseException(b, sft, ILLEGAL_DATA_VALUE, pdu, rsp);
    } else if mappingAddress < 0 || mappingAddress + nb > m.tabRegisters.Length
              || mappingAddress < 0 || mappingAddressWrite + nbWrite > m.tabRegisters.Length {
      length := ResponseException(b, sft, ILLEGAL_DATA_ADDRESS, pdu, rsp);
    } else {
      GrantedWriteAndRead(m.Contents(), pdu);
      HeldOctets(req[..], o, pdu, 10, 10 + 2 * nbWrite);
      length := WriteThenRead(b, sft, m, req, o + 10, mappingAddress, nb, mappingAddressWrite, nbWrite,
                              pdu, rsp);
    }
  }

  lemma RefusedWriteAndRead(t: Tables, pdu: seq<byte>)
    requires |pdu| >= 10 && |pdu| - 10 == pdu[9] && WritesFromStart(t.startRegisters, |t.registers|, pdu)
    ensures BadQuantities(pdu) ==> WriteAndRead(t, pdu) == Executed(t, Exception(ILLEGAL_DATA_VALUE))
    ensures !BadQuantities(pdu) && BadAddresses(t.startRegisters, |t.registers|, pdu) ==>
              WriteAndRead(t, pdu) == Executed(t, Exception(ILLEGAL_DATA_ADDRESS))
  {
    hide Field, RegisterBytes, BytesToRegisters, Splice;
  }

  lemma GrantedWriteAndRead(t: Tables, pdu: seq<byte>)
    requires |pdu| >= 10 && |pdu| - 10 == pdu[9] && WritesFromStart(t.startRegisters, |t.registers|, pdu)
    requires !BadQuantities(pdu) && !BadAddresses(t.startRegisters, |t.registers|, pdu)
    ensures |pdu| == 10 + 2 * Field(pdu, 7) && Field(pdu, 5) >= t.startRegisters
    ensures var nb, nbWrite := Field(pdu, 3), Field(pdu, 7);
            var (at, atWrite) := (Field(pdu, 1) - t.startRegisters, Field(pdu, 5) - t.startRegisters);
            var regs := Splice(t.registers, atWrite, BytesToRegisters(pdu[10..10 + 2 * nbWrite], nbWrite));
            WriteAndRead(t, pdu)
            == Executed(t.(registers := regs), Answer([pdu[0], 2 * nb] + RegisterBytes(regs[at..at + nb])))
  {
    assert pdu[10..|pdu|] == pdu[10..];
    hide Field, RegisterBytes, BytesToRegisters, Splice;
  }

  /** Write first, and read the data for the response.  The octet count is stored before the write, as the source
      does, and the registers are appended after it. */
  method WriteThenRead(b: Backend, sft: Sft, m: Mapping, req: array<byte>, at: nat,
                       mappingAddress: nat, nb: nat, mappingAddressWrite: nat, nbWrite: nat,
                       ghost pdu: seq<byte>, rsp: array<byte>)
    returns (length: nat)
    requires m.Valid() && rsp != m.tabBits && rsp != m.tabInputBits && pdu != [] && sft.function_ == pdu[0]
    requires nb <= MAX_WR_READ_REGISTERS && mappingAddress + nb <= m.tabRegisters.Length
    requires mappingAddressWrite + nbWrite <= m.tabRegisters.Length && at + 2 * nbWrite <= req.Length
    requires rsp != req && rsp.Length >= MAX_MESSAGE_LENGTH
    modifies m.tabRegisters, rsp
    ensures m.Valid() && |old(m.Contents()).registers| == m.tabRegisters.Length
    ensures var t := old(m.Contents());
            var regs := Splice(t.registers, mappingAddressWrite,
                               BytesToRegisters(old(req[at..at + 2 * nbWrite]), nbWrite));
            && m.Contents() == t.(registers := regs)
            && Replies(b, sft, rsp, length, pdu,
                       Answer([pdu[0], 2 * nb] + RegisterBytes(regs[mappingAddress..mappingAddress + nb])))
  {
    hide BytesToRegisters, RegisterBytes, Splice, AllBits, Backend.Header;
    ghost var data, header := req[at..at + 2 * nbWrite], b.Header(sft.tId, sft.slave);
    length := BuildResponseBasis(b, sft, rsp);
    rsp[length] := 2 * nb;
    length := length + 1;
    ghost var head := rsp[..length];
    assert head == header + [pdu[0], 2 * nb];
    assert req[at..at + 2 * nbWrite] == data;
    TakeRegisters(req, at, nbWrite, m.tabRegisters, mappingAddressWrite);
    ghost var asked := m.tabRegisters[..][mappingAddress..mappingAddress + nb];
    length := PutRegisters(m.tabRegisters, mappingAddress, nb, rsp, length);
    PutBehind(header, [pdu[0], 2 * nb], head, rsp[..length], RegisterBytes(asked));
  }

  lemma PutBehind(header: seq<byte>, start: seq<byte>, head: seq<byte>, now: seq<byte>, bytes: seq<byte>)
    requires |now| == |head| + |bytes| && head == header + start
    requires now[..|head|] == head && now[|head|..] == bytes
    ensures now == header + (start + bytes)
  {
    assert header + start + bytes == header + (start + bytes);
  }

  method ReplyReportSlaveId(b: Backend, sft: Sft, ghost pdu: seq<byte>, rsp: array<byte>) returns (length: nat)
    requires pdu != [] && sft.function_ == pdu[0] && rsp.Length >= MAX_MESSAGE_LENGTH
    modifies rsp
    ensures Replies(b, sft, rsp, length, pdu, Answer([pdu[0], |SLAVE_ID_DATA|] + SLAVE_ID_DATA))
  {
    length := BuildResponseBasis(b, sft, rsp);
    ghost var head := rsp[..length];
    var byteCountPos := length;
    length := length + 1;
    forall i | 0 <= i < |SLAVE_ID_DATA| {
      rsp[length + i] := SLAVE_ID_DATA[i];
    }
    length := length + |SLAVE_ID_DATA|;
    rsp[byteCountPos] := length - byteCountPos - 1;
    assert rsp[..length] == head + [|SLAVE_ID_DATA|] + SLAVE_ID_DATA;
  }

  ghost predicate Apart(m: Mapping, req: array<byte>, rsp: array<byte>) {
    && rsp != req && rsp != m.tabBits && rsp != m.tabInputBits
    && req != m.tabBits && req != m.tabInputBits
  }

  /** The switch of `modbus_reply`: the tables are updated and the response is built, not yet sealed. */
  method Dispatch(b: Backend, sft: Sft, m: Mapping, req: array<byte>, reqLength: nat,
                  ghost pdu: seq<byte>, rsp: array<byte>)
    returns (length: int)
    requires m.Valid() && Apart(m, req, rsp) && rsp.Length >= MAX_MESSAGE_LENGTH >= reqLength
    requires Complete(Indication, pdu) && Supported(m.startRegisters, m.tabRegisters.Length, pdu)
    requires Holds(req, b.HeaderLength(), pdu) && sft.function_ == pdu[0] && reqLength <= req.Length
    modifies m.tabBits, m.tabRegisters, rsp
    ensures m.Valid() && m.Contents() == Execute(old(m.Contents()), pdu).tables
    ensures length == -1 <==> Execute(old(m.Contents()), pdu).reply.Silence?
    ensures length != -1 ==>
              && 0 <= length
              && Handled(b, sft, rsp, length, pdu, Execute(old(m.Contents()), pdu).reply, old(req[..reqLength]))
  {
    hide ReadBits, ReadRegisters, WriteBit, WriteRegister, WriteBits, WriteRegisters, MaskWrite, WriteAndRead,
         AllBits;
    var o := b.HeaderLength();
    var function_ := sft.function_;
    if function_ == READ_COILS {
      length := ReplyReadBits(b, sft, m.startBits, m.tabBits, Cells(m.tabBits[..]), req, o, pdu, rsp);
    } else if function_ == READ_DISCRETE_INPUTS {
      length := ReplyReadBits(b, sft, m.startInputBits, m.tabInputBits, Cells(m.tabInputBits[..]), req, o, pdu, rsp);
    } else if function_ == READ_HOLDING_REGISTERS {
      length := ReplyReadRegisters(b, sft, m.startRegisters, m.tabRegisters, req, o, pdu, rsp);
    } else if function_ == READ_INPUT_REGISTERS {
      length := ReplyReadRegisters(b, sft, m.startInputRegisters, m.tabInputRegisters, req, o, pdu, rsp);
    } else if function_ == WRITE_SINGLE_COIL {
      length := ReplyWriteBit(b, sft, m, req, o, reqLength, pdu, rsp);
    } else if function_ == WRITE_SINGLE_REGISTER {
      length := ReplyWriteRegister(b, sft, m, req, o, reqLength, pdu, rsp);
    } else if function_ == WRITE_MULTIPLE_COILS {
      length := ReplyWriteBits(b, sft, m, req, o, pdu, rsp);
    } else if function_ == WRITE_MULTIPLE_REGISTERS {
      length := ReplyWriteRegisters(b, sft, m, req, o, pdu, rsp);
    } else if function_ == REPORT_SLAVE_ID {
      length := ReplyReportSlaveId(b, sft, pdu, rsp);
    } else if function_ == READ_EXCEPTION_STATUS {
      length := -1;
    } else if function_ == MASK_WRITE_REGISTER {
      length := ReplyMaskWrite(b, sft, m, req, o, reqLength, pdu, rsp);
    } else if function_ == WRITE_AND_READ_REGISTERS {
      length := ReplyWriteAndRead(b, sft, m, req, o, pdu, rsp);
    } else {
      length := ResponseException(b, sft, ILLEGAL_FUNCTION, pdu, rsp);
    }
  }

  /** `modbus_reply`, which returns the number of octets of the frame it leaves in `rsp` to be sent,
      0 when an RTU broadcast suppresses it and -1 for function 0x07. */
  method ModbusReply(b: Backend, m: Mapping, req: array<byte>, reqLength: nat, rsp: array<byte>) returns (rc: int)
    requires m.Valid() && Apart(m, req, rsp) && rsp.Length >= MAX_MESSAGE_LENGTH
    requires b.HeaderLength() + b.ChecksumLength() < reqLength <= req.Length
    requires IsMessage(b, Indication, req[..reqLength])
    requires Supported(m.startRegisters, m.tabRegisters.Length, b.Pdu(req[..reqLength]))
    modifies m.tabBits, m.tabRegisters, rsp
    ensures m.Valid() && m.Contents() == Serve(b, old(m.Contents()), old(req[..reqLength])).tables
    ensures match Serve(b, old(m.Contents()), old(req[..reqLength])).frame
            case Some(frame) => rc == |frame| <= rsp.Length && rsp[..rc] == frame
            case None => rc == if b.Pdu(old(req[..reqLength]))[0] == READ_EXCEPTION_STATUS then -1 else 0
    ensures rc == -1 <==> old(req[b.HeaderLength()]) == 7
    ensures rc == 0 <==> b.Rtu? && old(req[0]) == 0 && old(req[1]) != 7
  {
    hide IsMessage, Complete, Execute, Replies, Response, Backend.Header, AllBits;
    ghost var frame, t := req[..reqLength], m.Contents();
    ghost var pdu := b.Pdu(frame);
    MessageIffComplete(b, Indication, frame);
    OnlyOneIsSilent(t, pdu);
    var offset := b.HeaderLength();
    FrontOf(req[..], reqLength, offset, offset + |pdu|);
    assert req[offset] == pdu[0];
    var sft := Sft(req[offset - 1], req[offset], if b.Tcp? then Word(req[0], req[1]) else 0);
    var msgLength := reqLength - b.ChecksumLength();
    var length := Dispatch(b, sft, m, req, msgLength, pdu, rsp);
    if length == -1 {
      return -1;
    }
    ghost var reply := Execute(t, pdu).reply;
    if b.Rtu? && sft.slave == BROADCAST_ADDRESS {
      return 0;
    }
    HandledIsResponse(b, sft, frame, reply, rsp, length);
    rc := SendMsgPre(b, rsp, length);
  }

  lemma OnlyOneIsSilent(t: Tables, pdu: seq<byte>)
    requires Complete(Indication, pdu) && Supported(t.startRegisters, |t.registers|, pdu)
    ensures Execute(t, pdu).reply.Silence? <==> pdu[0] == READ_EXCEPTION_STATUS
  {
    hide ReadBits, ReadRegisters, WriteBit, WriteRegister, WriteBits, WriteRegisters, MaskWrite, WriteAndRead;
  }

  lemma FrontOf(s: seq<byte>, n: nat, from: nat, to: nat)
    requires from <= to <= n <= |s|
    ensures s[from..to] == s[..n][from..to]
  {
  }

  lemma HandledIsResponse(b: Backend, sft: Sft, frame: seq<byte>, reply: Server.Reply, rsp: array<byte>, length: nat)
    requires b.HeaderLength() + b.ChecksumLength() < |frame| <= b.MaxAduLength() && !reply.Silence?
    requires reply.Answer? ==> reply.pdu != [] && |reply.pdu| <= 252
    requires sft.slave == frame[b.HeaderLength() - 1] && sft.tId == b.Tid(frame)
    requires Handled(b, sft, rsp, length, b.Pdu(frame), reply, frame[..|frame| - b.ChecksumLength()])
    ensures length <= rsp.Length && rsp[..length] == Response(b, frame, reply)
    ensures b.HeaderLength() < length && length + b.ChecksumLength() <= b.MaxAduLength()
  {
  }
}
