/** Writing a DSO message over TCP: a two-octet length (section 4.2.2 of RFC 1035), then the message in as few
    pieces as it lies in. */
module DsoWrite {
  import opened Bytes
  import opened Tlvs
  import opened DsoMessage

  const MAX_WRITE_HUNKS := 4
  const MIN_MESSAGE := 12
  const MAX_MESSAGE := 65535
  const NO_MEMORY := -65539

  /** A message behind its length. */
  function Framed(message: seq<byte>): (bytes: seq<byte>)
    ensures |bytes| == 2 + |message|
  {
    [Hi(|message|), Lo(|message|)] + message
  }

  function Concat(hunks: seq<seq<byte>>): seq<byte> {
    if hunks == [] then [] else hunks[0] + Concat(hunks[1..])
  }

  lemma {:induction false} ConcatSnoc(hunks: seq<seq<byte>>, hunk: seq<byte>)
    ensures Concat(hunks + [hunk]) == Concat(hunks) + hunk
  {
    if hunks == [] {
      assert hunks + [hunk] == [hunk];
      assert Concat([hunk]) == hunk + Concat([]);
    } else {
      assert (hunks + [hunk])[1..] == hunks[1..] + [hunk];
      ConcatSnoc(hunks[1..], hunk);
    }
  }

  lemma {:induction false} ConcatSplit(hunks: seq<seq<byte>>, i: nat)
    requires i <= |hunks|
    ensures Concat(hunks) == Concat(hunks[..i]) + Concat(hunks[i..])
  {
    if i == 0 {
      assert hunks[..0] == [] && hunks[0..] == hunks;
    } else {
      ConcatSplit(hunks[1..], i - 1);
      assert hunks[..i][1..] == hunks[1..][..i - 1] && hunks[1..][i - 1..] == hunks[i..];
    }
  }

  /** A hunk written in part leaves a proper prefix of the whole. */
  lemma CutShort(before: seq<byte>, hunks: seq<seq<byte>>, i: nat, written: seq<byte>)
    requires i < |hunks| && written < hunks[i]
    ensures before + Concat(hunks[..i]) + written < before + Concat(hunks)
  {
    ConcatSplit(hunks, i);
    assert hunks[i..][0] == hunks[i] && hunks[i..][1..] == hunks[i + 1..];
    assert before + Concat(hunks)
        == before + Concat(hunks[..i]) + (hunks[i] + Concat(hunks[i + 1..]));
  }

  /** The sending side of a TCP socket: what was sent, whether there is room for more, and how many writes have failed
      or fallen short. */
  class Socket {
    var sent: seq<byte>
    const writable: bool
    var faults: nat

    constructor (writable: bool)
      ensures sent == [] && this.writable == writable && faults == 0
    {
      sent, faults := [], 0;
      this.writable := writable;
    }

    /** `mDNSPlatformWriteTCP`: all of it, a part of it, or an error. */
    method WriteTcp(bytes: seq<byte>) returns (result: int)
      modifies this
      ensures result <= |bytes|
      ensures sent == old(sent) + if result > 0 then bytes[..result] else []
      ensures faults == old(faults) + if result == |bytes| then 0 else 1
    {
      if * {
        faults := faults + 1;
        return -1;
      }
      var n :| 0 <= n <= |bytes|;
      sent := sent + bytes[..n];
      faults := faults + if n == |bytes| then 0 else 1;
      result := n;
    }
  }

  /** The writing half of `dso_transport_t`; `toWrite` holds the hunks recorded, `numToWrite` counts those offered. */
  class Transport {
    const socket: Socket
    var connected: bool
    var toWrite: seq<seq<byte>>
    var numToWrite: nat
    var dropped: bool

    constructor (socket: Socket)
      ensures this.socket == socket && connected && !dropped && toWrite == [] && numToWrite == 0
    {
      this.socket := socket;
      connected, toWrite, numToWrite, dropped := true, [], 0, false;
    }

    ghost predicate Valid()
      reads this
    {
      && |toWrite| == (if numToWrite <= MAX_WRITE_HUNKS then numToWrite else MAX_WRITE_HUNKS)
      && forall k | 0 <= k < |toWrite| :: toWrite[k] != []
    }

    /** `dso_write_start`: out of range it leaves everything as it was; otherwise it says whether the socket
        has room. */
    method WriteStart(length: nat) returns (writable: bool)
      modifies this`toWrite, this`numToWrite
      ensures old(Valid()) ==> Valid()
      ensures writable <==> 12 <= length <= 65535 && socket.writable
      ensures !(MIN_MESSAGE <= length <= MAX_MESSAGE) ==>
                toWrite == old(toWrite) && numToWrite == old(numToWrite)
      ensures MIN_MESSAGE <= length <= MAX_MESSAGE ==> toWrite == [[Hi(length), Lo(length)]] && numToWrite == 1
    {
      if length < MIN_MESSAGE || length > MAX_MESSAGE {
        return false;
      }
      toWrite := [[Hi(length), Lo(length)]];
      numToWrite := 1;
      writable := socket.writable;
    }

    /** `dso_write`: nothing is recorded of an empty hunk, nor of one too many. */
    method Write(buf: seq<byte>)
      requires Valid()
      modifies this`toWrite, this`numToWrite
      ensures Valid()
      ensures numToWrite == old(numToWrite) + if buf == [] then 0 else 1
      ensures numToWrite <= MAX_WRITE_HUNKS ==> Concat(toWrite) == Concat(old(toWrite)) + buf
    {
      if |buf| == 0 {
        return;
      }
      if numToWrite >= MAX_WRITE_HUNKS {
        numToWrite := numToWrite + 1;
        return;
      }
      ConcatSnoc(toWrite, buf);
      toWrite := toWrite + [buf];
      numToWrite := numToWrite + 1;
    }

    /** `dso_write_finish`: all hunks go out, or the connection is dropped somewhere on the way. */
    method WriteFinish() returns (ok: bool)
      requires Valid()
      modifies this`dropped, socket
      ensures ok <==> numToWrite <= 4 && socket.faults == old(socket.faults)
      ensures socket.faults >= old(socket.faults)
      ensures ok ==> dropped == old(dropped)
      ensures numToWrite > MAX_WRITE_HUNKS ==> socket.sent == old(socket.sent) && socket.faults == old(socket.faults)
      ensures ok ==> socket.sent == old(socket.sent) + Concat(toWrite)
      ensures !ok ==> dropped && old(socket.sent) <= socket.sent
      ensures !ok && numToWrite <= MAX_WRITE_HUNKS ==> socket.sent < old(socket.sent) + Concat(toWrite)
    {
      if numToWrite > MAX_WRITE_HUNKS {
        dropped := true;
        return false;
      }
      ghost var before := socket.sent;
      var i := 0;
      assert toWrite[..0] == [];
      while i < numToWrite
        invariant i <= numToWrite && dropped == old(dropped)
        invariant socket.faults == old(socket.faults)
        invariant socket.sent == before + Concat(toWrite[..i])
      {
        ghost var sofar := socket.sent;
        var result := socket.WriteTcp(toWrite[i]);
        assert toWrite[..i + 1] == toWrite[..i] + [toWrite[i]];
        ConcatSnoc(toWrite[..i], toWrite[i]);
        if result != |toWrite[i]| {
          CutShort(before, toWrite, i, if result > 0 then toWrite[i][..result] else []);
          dropped := true;
          return false;
        }
        i := i + 1;
      }
      assert toWrite[..i] == toWrite;
      ok := true;
    }

    /** The three calls of `dso_write` in `dso_message_write`: what lies before the splice, the splice, and the rest. */
    method Offer(msg: Message)
      requires Valid() && msg.Valid()
      modifies this`toWrite, this`numToWrite
      ensures Valid() && numToWrite == old(numToWrite) + Hunks(msg.cur, msg.noCopyBytesOffset, msg.noCopyBytes)
      ensures numToWrite <= MAX_WRITE_HUNKS ==> Concat(toWrite) == Concat(old(toWrite)) + msg.Gathered()
    {
      Shape(msg);
      hide Concat, EncodeAll;
      ghost var was := toWrite;
      Write(msg.buf[..msg.noCopyBytesOffset]);
      Write(msg.noCopyBytes);
      Write(msg.buf[msg.noCopyBytesOffset..msg.cur]);
      Pieces(Concat(was), msg.buf[..], msg.cur, msg.noCopyBytesOffset, msg.noCopyBytes);
    }

    /** `dso_message_write`: 1 for a message written, 0 for a connection dropped over it, or no memory.  Only a message
        that is told to disregard the low water mark is written when its length is out of range: behind the hunks of
        the one before, without a length of its own, as far as there is room for its hunks. */
    method MessageWrite(msg: Message, disregardLowWater: bool) returns (rc: int)
      requires Valid() && msg.Valid()
      modifies this, socket
      ensures Valid() && connected == old(connected) && rc in {0, 1, NO_MEMORY}
      ensures rc == NO_MEMORY ==> socket.sent == old(socket.sent)
      ensures dropped == (old(dropped) || rc == 0)
      ensures rc == NO_MEMORY <==>
                !connected || (!disregardLowWater && !(InRange(msg.Gathered()) && socket.writable))
      ensures rc == 1 ==> numToWrite <= 4 && socket.faults == old(socket.faults)
      ensures socket.faults >= old(socket.faults)
      ensures rc == 0 ==> numToWrite > 4 || socket.faults > old(socket.faults)
      ensures rc != NO_MEMORY && InRange(msg.Gathered()) ==>
                && numToWrite <= MAX_WRITE_HUNKS
                && Outcome(rc, old(socket.sent), socket.sent, Framed(msg.Gathered()))
      ensures rc != NO_MEMORY && !InRange(msg.Gathered()) ==>
                && disregardLowWater
                && numToWrite == old(numToWrite) + Hunks(msg.cur, msg.noCopyBytesOffset, msg.noCopyBytes)
                && if numToWrite > MAX_WRITE_HUNKS then rc == 0 && socket.sent == old(socket.sent)
                   else Outcome(rc, old(socket.sent), socket.sent, Concat(old(toWrite)) + msg.Gathered())
    {
      hide Concat, EncodeAll, Message.Valid, Framed;
      if connected {
        Shape(msg);
        var writable := WriteStart(msg.cur + |msg.noCopyBytes|);
        if writable || disregardLowWater {
          ghost var start := toWrite;
          Offer(msg);
          var ok := WriteFinish();
          LengthFirst(start, msg.Gathered());
          return if ok then 1 else 0;
        }
      }
      rc := NO_MEMORY;
    }

    /** `dso_send_simple_response`, to a message with that header. */
    method SendSimpleResponse(header: seq<byte>, rcode: nat) returns (ok: bool)
      requires Valid() && |header| == HEADER_LENGTH && rcode < 16
      modifies this, socket
      ensures Valid() && connected == old(connected) && dropped == (old(dropped) || !ok)
      ensures ok <==> socket.faults == old(socket.faults)
      ensures socket.faults >= old(socket.faults)
      ensures Outcome(if ok then 1 else 0, old(socket.sent), socket.sent, Framed(SimpleResponse(header, rcode)))
      ensures ok ==>
                var n := |old(socket.sent)|;
                && |socket.sent| == n + 14 && socket.sent[..n] == old(socket.sent)
                && socket.sent[n..n + 2] == [0, 12] && RespondsTo(header, rcode, socket.sent[n + 2..])
    {
      hide Concat, SimpleResponse, RespondsTo;
      SimpleResponseOctets(header, rcode);
      var response := SimpleResponse(header, rcode);
      var _ := WriteStart(12);
      ghost var start := toWrite;
      Write(response);
      ok := WriteFinish();
      LengthFirst(start, response);
      Behind(old(socket.sent), response);
    }
  }

  lemma Behind(was: seq<byte>, response: seq<byte>)
    requires |response| == HEADER_LENGTH
    ensures var now, n := was + Framed(response), |was|;
            |now| == n + 14 && now[..n] == was && now[n..n + 2] == [0, 12] && now[n + 2..] == response
  {
    assert Framed(response) == [0, 12] + response by {
      assert Hi(12) == 0 && Lo(12) == 12;
    }
  }

  /** The header that answers a message without any TLV: the one it came with, marked as a response, with a response
      code in its low four bits and without counts. */
  function SimpleResponse(header: seq<byte>, rcode: nat): (response: seq<byte>)
    requires |header| == HEADER_LENGTH && rcode < 16
    ensures |response| == HEADER_LENGTH
  {
    var flags: int := header[2];
    [header[0], header[1], if flags >= 0x80 then flags else flags + 0x80, header[3] - header[3] % 16 + rcode,
     0, 0, 0, 0, 0, 0, 0, 0]
  }

  /** `r` answers `header`: the identifier, the opcode and the flags are those of `header`, the response bit is set, the
      low four bits of the fourth octet are the response code and the four above them are kept, and the counts are
      zero. */
  predicate RespondsTo(header: seq<byte>, rcode: nat, r: seq<byte>)
    requires |header| == 12
  {
    && |r| == 12 && r[0] == header[0] && r[1] == header[1]
    && r[2] >= 0x80 && r[2] % 0x80 == header[2] % 0x80
    && r[3] / 16 == header[3] / 16 && r[3] % 16 == rcode
    && forall k | 4 <= k < 12 :: r[k] == 0
  }

  lemma SimpleResponseOctets(header: seq<byte>, rcode: nat)
    requires |header| == HEADER_LENGTH && rcode < 16
    ensures RespondsTo(header, rcode, SimpleResponse(header, rcode))
  {
  }

  /** Opcode 6 is that of DSO (section 5.4 of RFC 8490): the header of a message made has it, and the response to a
      message has whatever opcode that has. */
  lemma OpcodeIsDso(id: word, header: seq<byte>, rcode: nat)
    requires |header| == HEADER_LENGTH && rcode < 16
    ensures NewHeader(id)[2] / 8 % 16 == 6 && NewHeader(id)[2] < 0x80
    ensures SimpleResponse(header, rcode)[2] / 8 % 16 == header[2] / 8 % 16
    ensures SimpleResponse(NewHeader(id), rcode)[2] / 8 % 16 == 6
  {
  }

  predicate InRange(message: seq<byte>) {
    MIN_MESSAGE <= |message| <= MAX_MESSAGE
  }

  /** A message written adds all its octets to those sent; one that fails adds only some at the front. */
  ghost predicate Outcome(rc: int, was: seq<byte>, now: seq<byte>, bytes: seq<byte>) {
    && (rc == 1 ==> now == was + bytes)
    && (rc == 0 ==> was <= now && now < was + bytes)
  }

  /** The nonempty ones among the three pieces of a message. */
  function Hunks(cur: nat, offset: nat, noCopy: seq<byte>): nat
    requires offset <= cur
  {
    (if offset == 0 then 0 else 1) + (if noCopy == [] then 0 else 1) + (if cur == offset then 0 else 1)
  }

  lemma Shape(msg: Message)
    requires msg.Valid()
    ensures msg.noCopyBytesOffset <= msg.cur <= msg.buf.Length
  {
    hide EncodeAll;
  }

  lemma Pieces(front: seq<byte>, buf: seq<byte>, cur: nat, offset: nat, noCopy: seq<byte>)
    requires offset <= cur <= |buf|
    ensures front + buf[..offset] + noCopy + buf[offset..cur] == front + Gather(buf, cur, offset, noCopy)
  {
  }

  lemma LengthFirst(start: seq<seq<byte>>, message: seq<byte>)
    ensures start == [[Hi(|message|), Lo(|message|)]] ==> Concat(start) + message == Framed(message)
  {
    if start == [[Hi(|message|), Lo(|message|)]] {
      assert start[1..] == [];
      assert Concat(start) == start[0];
    }
  }
}
