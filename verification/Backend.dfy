/** The two backends of libmodbus: header, checksum, sealing of a message and the tests on a received one. */
module Backend {
  import opened Bytes
  import Crc
  import opened CrcDetection
  import opened CrcTwoBits

  const MAX_MESSAGE_LENGTH := 260
  const BROADCAST_ADDRESS := 0

  datatype Backend = Rtu | Tcp {

    function HeaderLength(): (length: nat)
      ensures 1 <= length <= 7
    {
      if Rtu? then 1 else 7
    }

    function ChecksumLength(): (length: nat)
      ensures length <= 2
    {
      if Rtu? then 2 else 0
    }

    function MaxAduLength(): (length: nat)
      ensures 253 < length <= MAX_MESSAGE_LENGTH
      ensures length == HeaderLength() + 253 + ChecksumLength()
    {
      if Rtu? then 256 else 260
    }

    /** `build_request_basis` and `build_response_basis` without the PDU; the length octets of the
        MBAP header are filled in by `Sealed`. */
    function Header(tId: word, slave: byte): (h: seq<byte>)
      ensures |h| == HeaderLength()
    {
      if Rtu? then [slave] else [Hi(tId), Lo(tId), 0, 0, 0, 0, slave]
    }

    /** `send_msg_pre`. */
    function Sealed(msg: seq<byte>): (frame: seq<byte>)
      requires |msg| > HeaderLength()
      ensures |frame| == |msg| + ChecksumLength()
    {
      if Rtu? then Seal(msg) else msg[4 := Hi(|msg| - 6)][5 := Lo(|msg| - 6)]
    }

    /** `prepare_response_tid`. */
    function Tid(req: seq<byte>): word
      requires |req| > HeaderLength()
    {
      if Rtu? then 0 else Word(req[0], req[1])
    }

    /** The part of a frame between header and checksum. */
    function Pdu(frame: seq<byte>): seq<byte>
      requires |frame| >= HeaderLength() + ChecksumLength()
    {
      frame[HeaderLength()..|frame| - ChecksumLength()]
    }

    /** `check_integrity`: the length, 0 for a frame to ignore, -1 for a bad CRC. */
    function CheckIntegrity(slave: byte, frame: seq<byte>): int
      requires |frame| > HeaderLength() + ChecksumLength()
    {
      if Tcp? then |frame|
      else if frame[0] != slave && frame[0] != BROADCAST_ADDRESS then 0
      else if CrcMatches(frame) then |frame|
      else -1
    }
  }

  /** Sealing keeps the PDU and, in TCP, the transaction identifier and the unit identifier. */
  lemma SealedKeeps(b: Backend, tId: word, slave: byte, pdu: seq<byte>)
    requires pdu != []
    ensures var frame := b.Sealed(b.Header(tId, slave) + pdu);
            && b.Pdu(frame) == pdu
            && frame[..b.HeaderLength()][b.HeaderLength() - 1] == slave
            && (b.Tcp? ==> b.Tid(frame) == tId && frame[2] == frame[3] == 0
                           && Word(frame[4], frame[5]) == U16(|pdu| + 1))
  {
    hide Crc.CrcHi, Crc.CrcLo;
    if b.Tcp? {
      hide Hi, Lo, Word;
      var msg := b.Header(tId, slave) + pdu;
      var frame := b.Sealed(msg);
      assert frame[7..] == pdu;
      assert frame[0] == Hi(tId) && frame[1] == Lo(tId) && frame[4] == Hi(|pdu| + 1) && frame[5] == Lo(|pdu| + 1);
      WordOfOctets(tId);
      WordOfOctets(|pdu| + 1);
    }
  }

  lemma WordOfOctets(v: nat)
    ensures Word(Hi(v), Lo(v)) == U16(v)
  {
  }

  /** A frame sealed for a slave passes that slave's test. */
  lemma SealedPasses(b: Backend, msg: seq<byte>)
    requires |msg| > b.HeaderLength()
    ensures b.CheckIntegrity(msg[b.HeaderLength() - 1], b.Sealed(msg)) == |b.Sealed(msg)|
  {
    hide CrcMatches;
    SealMatches(msg);
  }

  /** An RTU frame sealed by its sender and altered on the way, in any two adjacent octets, by any burst of at most
      sixteen bits, in any two bits or in any odd number of them, is never accepted by `check_integrity`: it is ignored
      or refused, by every slave. */
  lemma CorruptionRejected(slave: byte, msg: seq<byte>, g: seq<byte>, i: nat)
    requires |msg| > 1 && g != Rtu.Sealed(msg) && |g| == |Rtu.Sealed(msg)|
    requires DiffersOnlyAt(Rtu.Sealed(msg), g, i) || DiffersInBurst(Rtu.Sealed(msg), g, i)
             || FlippedBits(Rtu.Sealed(msg), g) % 2 == 1
             || (FlippedBits(Rtu.Sealed(msg), g) == 2 && |g| <= Rtu.MaxAduLength())
    ensures Rtu.CheckIntegrity(slave, g) in {-1, 0}
  {
    hide CrcMatches, Seal, DiffersOnlyAt, DiffersInBurst, FlippedBits;
    var f := Rtu.Sealed(msg);
    SealMatches(msg);
    if DiffersOnlyAt(f, g, i) {
      AdjacentCorruptionDetected(f, g, i);
    } else if DiffersInBurst(f, g, i) {
      BurstDetected(f, g, i);
    } else if FlippedBits(f, g) == 2 {
      TwoBitsDetected(f, g);
    } else {
      OddCorruptionDetected(f, g);
    }
  }
}
