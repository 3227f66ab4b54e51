/** The DSO message under construction: TLVs copied into a buffer, and at most one stretch of payload that
    stays where it is and is spliced in when the message is written. */
module DsoMessage {
  import opened Bytes
  import opened Tlvs

  const OPCODE_DSO := 0x30

  /** The octets that are sent: the buffer with the uncopied octets interposed. */
  function Gather(buf: seq<byte>, cur: nat, offset: nat, noCopy: seq<byte>): (bytes: seq<byte>)
    requires offset <= cur <= |buf|
    ensures |bytes| == cur + |noCopy|
  {
    buf[..offset] + noCopy + buf[offset..cur]
  }

  /** Between TLVs: what is gathered is `front`. */
  ghost predicate Settled(buf: seq<byte>, cur: nat, offset: nat, noCopy: seq<byte>, front: seq<byte>) {
    offset <= cur <= |buf| && Gather(buf, cur, offset, noCopy) == front
  }

  /** Inside a TLV whose header lies at `start`: `front` comes before it, its opcode is in place, and `part` of its
      payload is there, with the splice before the header or behind it. */
  ghost predicate Growing(buf: seq<byte>, cur: nat, offset: nat, noCopy: seq<byte>, start: nat,
                          front: seq<byte>, opcode: word, part: seq<byte>)
  {
    && start + 4 <= cur <= |buf| && offset <= cur
    && buf[start] == Hi(opcode) && buf[start + 1] == Lo(opcode)
    && if offset <= start then
         Gather(buf, start, offset, noCopy) == front && buf[start + 4..cur] == part
       else
         && start + 4 <= offset && buf[..start] == front
         && buf[start + 4..offset] + noCopy + buf[offset..cur] == part
  }

  lemma StartGrows(was: seq<byte>, now: seq<byte>, cur: nat, offset: nat, noCopy: seq<byte>,
                   front: seq<byte>, opcode: word)
    requires Settled(was, cur, offset, noCopy, front) && |now| == |was| && cur + 4 <= |was|
    requires now[..cur] == was[..cur] && now[cur] == Hi(opcode) && now[cur + 1] == Lo(opcode)
    ensures Growing(now, cur + 4, offset, noCopy, cur, front, opcode, [])
  {
    assert now[..offset] == was[..offset] by {
      assert forall k | 0 <= k < offset :: now[..cur][k] == was[..cur][k];
    }
    assert now[offset..cur] == was[offset..cur] by {
      assert forall k | offset <= k < cur :: now[..cur][k] == was[..cur][k];
    }
  }

  lemma BytesGrow(was: seq<byte>, now: seq<byte>, cur: nat, offset: nat, noCopy: seq<byte>, start: nat,
                  front: seq<byte>, opcode: word, part: seq<byte>, bytes: seq<byte>)
    requires Growing(was, cur, offset, noCopy, start, front, opcode, part)
    requires |now| == |was| && cur + |bytes| <= |was|
    requires now[..cur] == was[..cur] && now[cur..cur + |bytes|] == bytes
    ensures Growing(now, cur + |bytes|, offset, noCopy, start, front, opcode, part + bytes)
  {
    var cur' := cur + |bytes|;
    assert forall k | 0 <= k < cur :: now[..cur][k] == was[..cur][k];
    assert forall k | 0 <= k < |bytes| :: now[cur..cur'][k] == now[cur + k];
    if offset <= start {
      assert now[..offset] == was[..offset] && now[offset..start] == was[offset..start];
      assert now[start + 4..cur'] == was[start + 4..cur] + bytes;
    } else {
      assert now[start + 4..offset] == was[start + 4..offset];
      assert now[offset..cur'] == was[offset..cur] + bytes;
      assert now[..start] == was[..start];
    }
  }

  lemma SpliceGrows(buf: seq<byte>, cur: nat, offset: nat, start: nat,
                    front: seq<byte>, opcode: word, part: seq<byte>, bytes: seq<byte>)
    requires Growing(buf, cur, offset, [], start, front, opcode, part)
    ensures Growing(buf, cur, cur, bytes, start, front, opcode, part + bytes)
  {
    if offset <= start {
      assert buf[..offset] + [] + buf[offset..start] == buf[..start];
    } else {
      assert buf[start + 4..offset] + [] + buf[offset..cur] == buf[start + 4..cur];
    }
    assert buf[start + 4..cur] + bytes + buf[cur..cur] == part + bytes;
  }

  lemma FinishSettles(was: seq<byte>, now: seq<byte>, cur: nat, offset: nat, noCopy: seq<byte>, start: nat,
                      front: seq<byte>, opcode: word, part: seq<byte>)
    requires Growing(was, cur, offset, noCopy, start, front, opcode, part)
    requires now == was[start + 2 := Hi(|part|)][start + 3 := Lo(|part|)]
    ensures Settled(now, cur, offset, noCopy, front + Encode(Tlv(opcode, part)))
  {
    var header := now[start..start + 4];
    assert header == [Hi(opcode), Lo(opcode), Hi(|part|), Lo(|part|)];
    if offset <= start {
      assert now[offset..cur] == was[offset..start] + header + was[start + 4..cur];
      assert now[..offset] == was[..offset];
      assert front + (header + part) == Gather(was, start, offset, noCopy) + header + part;
    } else {
      assert now[..offset] == was[..start] + header + was[start + 4..offset];
      assert now[offset..cur] == was[offset..cur];
      assert Gather(now, cur, offset, noCopy)
          == was[..start] + header + (was[start + 4..offset] + noCopy + was[offset..cur]);
    }
  }

  /** A 32-bit value, most significant octet first. */
  function Octets32(v: dword): (bytes: seq<byte>)
    ensures |bytes| == 4
  {
    [v / 0x100_0000, v / 0x1_0000 % 0x100, v / 0x100 % 0x100, v % 0x100]
  }

  lemma OctetsHighFirst(v: dword)
    ensures Octets32(v) == [Hi(v / 0x1_0000), Lo(v / 0x1_0000), Hi(v), Lo(v)]
  {
  }

  /** The header of a new message: a query with the DSO opcode, and nothing but an identifier beside it. */
  function NewHeader(id: word): (header: seq<byte>)
    ensures |header| == HEADER_LENGTH
  {
    [Lo(id), Hi(id), OPCODE_DSO, 0, 0, 0, 0, 0, 0, 0, 0, 0]
  }

  /** `dso_message_t`; `done`, `opcode` and `part` say what has been built so far. */
  class Message {
    const buf: array<byte>
    var cur: nat
    var buildingTlv: bool
    var tlvLen: nat
    var tlvLenOffset: nat
    var noCopyBytes: seq<byte>
    var noCopyBytesOffset: nat
    ghost var header: seq<byte>
    ghost var done: seq<Tlv>
    ghost var opcode: word
    ghost var part: seq<byte>

    ghost predicate Valid()
      reads this, buf
    {
      && |header| == HEADER_LENGTH <= cur && AllFit(done)
      && if buildingTlv then
           && tlvLenOffset >= 2 && tlvLen == |part|
           && Growing(buf[..], cur, noCopyBytesOffset, noCopyBytes, tlvLenOffset - 2,
                      header + EncodeAll(done), opcode, part)
         else Settled(buf[..], cur, noCopyBytesOffset, noCopyBytes, header + EncodeAll(done))
    }

    /** The whole message, for a state between TLVs. */
    ghost function Gathered(): seq<byte>
      requires noCopyBytesOffset <= cur <= buf.Length
      reads this, buf
    {
      Gather(buf[..], cur, noCopyBytesOffset, noCopyBytes)
    }

    /** The header part of `dso_make_message`: all zero but for the identifier and the opcode. */
    constructor (outbuf: array<byte>, id: word)
      requires outbuf.Length >= HEADER_LENGTH
      modifies outbuf
      ensures Valid() && buf == outbuf && !buildingTlv && done == [] && noCopyBytes == [] && cur == HEADER_LENGTH
      ensures header == NewHeader(id)
    {
      buf := outbuf;
      cur, buildingTlv, tlvLen, tlvLenOffset := HEADER_LENGTH, false, 0, 0;
      noCopyBytes, noCopyBytesOffset := [], 0;
      header := NewHeader(id);
      done, part, opcode := [], [], 0;
      new;
      forall i | 0 <= i < HEADER_LENGTH {
        outbuf[i] := 0;
      }
      outbuf[0], outbuf[1] := Lo(id), Hi(id);
      outbuf[2] := OPCODE_DSO;
      assert Gather(buf[..], cur, 0, []) == header + EncodeAll([]);
    }

    /** `dso_start_tlv`; the test leaves one octet of the buffer free behind the header. */
    method StartTlv(opcode: word)
      requires Valid() && !buildingTlv && cur + 4 < buf.Length
      modifies this, buf
      ensures Valid() && buildingTlv && this.opcode == opcode && part == []
      ensures header == old(header) && done == old(done) && cur == old(cur) + 4 && noCopyBytes == old(noCopyBytes)
    {
      hide Settled, Growing, EncodeAll;
      ghost var was, front := buf[..], header + EncodeAll(done);
      buildingTlv := true;
      tlvLen := 0;
      buf[cur] := Hi(opcode);
      buf[cur + 1] := Lo(opcode);
      tlvLenOffset := cur + 2;
      StartGrows(was, buf[..], cur, noCopyBytesOffset, noCopyBytes, front, opcode);
      cur := cur + 4;
      this.opcode, part := opcode, [];
    }

    /** `dso_add_tlv_bytes_no_copy`. */
    method AddTlvBytesNoCopy(bytes: seq<byte>)
      requires Valid() && buildingTlv && noCopyBytes == []
      modifies this
      ensures Valid() && buildingTlv && part == old(part) + bytes
      ensures header == old(header) && done == old(done) && opcode == old(opcode) && cur == old(cur)
      ensures noCopyBytes == bytes
    {
      hide Settled, Growing, EncodeAll;
      SpliceGrows(buf[..], cur, noCopyBytesOffset, tlvLenOffset - 2, header + EncodeAll(done), opcode, part, bytes);
      noCopyBytes := bytes;
      noCopyBytesOffset := cur;
      tlvLen := tlvLen + |bytes|;
      part := part + bytes;
    }

    /** `dso_add_tlv_bytes`. */
    method AddTlvBytes(bytes: seq<byte>)
      requires Valid() && buildingTlv && cur + |bytes| <= buf.Length
      modifies this, buf
      ensures Valid() && buildingTlv && part == old(part) + bytes
      ensures header == old(header) && done == old(done) && opcode == old(opcode)
      ensures cur == old(cur) + |bytes| && noCopyBytes == old(noCopyBytes)
    {
      hide Settled, Growing, EncodeAll;
      ghost var was := buf[..];
      forall i | 0 <= i < |bytes| {
        buf[cur + i] := bytes[i];
      }
      BytesGrow(was, buf[..], cur, noCopyBytesOffset, noCopyBytes, tlvLenOffset - 2,
                header + EncodeAll(done), opcode, part, bytes);
      cur := cur + |bytes|;
      tlvLen := tlvLen + |bytes|;
      part := part + bytes;
    }

    /** `dso_add_tlv_byte`. */
    method AddTlvByte(octet: byte)
      requires Valid() && buildingTlv && cur + 1 <= buf.Length
      modifies this, buf
      ensures Valid() && buildingTlv && part == old(part) + [octet]
      ensures header == old(header) && done == old(done) && opcode == old(opcode)
      ensures cur == old(cur) + 1 && noCopyBytes == old(noCopyBytes)
    {
      hide Settled, Growing, EncodeAll;
      ghost var was := buf[..];
      buf[cur] := octet;
      BytesGrow(was, buf[..], cur, noCopyBytesOffset, noCopyBytes, tlvLenOffset - 2,
                header + EncodeAll(done), opcode, part, [octet]);
      cur := cur + 1;
      tlvLen := tlvLen + 1;
      part := part + [octet];
    }

    /** `dso_add_tlv_u16`. */
    method AddTlvU16(u16: word)
      requires Valid() && buildingTlv && cur + 2 <= buf.Length
      modifies this, buf
      ensures Valid() && buildingTlv && part == old(part) + [Hi(u16), Lo(u16)]
      ensures header == old(header) && done == old(done) && opcode == old(opcode)
      ensures cur == old(cur) + 2 && noCopyBytes == old(noCopyBytes)
    {
      hide Settled, Growing, EncodeAll;
      ghost var was := buf[..];
      buf[cur] := Hi(u16);
      buf[cur + 1] := Lo(u16);
      BytesGrow(was, buf[..], cur, noCopyBytesOffset, noCopyBytes, tlvLenOffset - 2,
                header + EncodeAll(done), opcode, part, [Hi(u16), Lo(u16)]);
      cur := cur + 2;
      tlvLen := tlvLen + 2;
      part := part + [Hi(u16), Lo(u16)];
    }

    /** `dso_add_tlv_u32`. */
    method AddTlvU32(u32: dword)
      requires Valid() && buildingTlv && cur + 4 <= buf.Length
      modifies this, buf
      ensures Valid() && buildingTlv && part == old(part) + [Hi(u32 / 0x1_0000), Lo(u32 / 0x1_0000), Hi(u32), Lo(u32)]
      ensures header == old(header) && done == old(done) && opcode == old(opcode)
      ensures cur == old(cur) + 4 && noCopyBytes == old(noCopyBytes)
    {
      hide Settled, Growing, EncodeAll;
      ghost var was := buf[..];
      var bytes := Octets32(u32);
      OctetsHighFirst(u32);
      hide Octets32;
      buf[cur], buf[cur + 1] := bytes[0], bytes[1];
      buf[cur + 2], buf[cur + 3] := bytes[2], bytes[3];
      BytesGrow(was, buf[..], cur, noCopyBytesOffset, noCopyBytes, tlvLenOffset - 2,
                header + EncodeAll(done), opcode, part, bytes);
      cur := cur + 4;
      tlvLen := tlvLen + 4;
      part := part + bytes;
    }

    /** `dso_finish_tlv`. */
    method FinishTlv()
      requires Valid() && buildingTlv && tlvLen <= 65535
      modifies this, buf
      ensures Valid() && !buildingTlv && done == old(done) + [Tlv(old(opcode), old(part))]
      ensures header == old(header) && cur == old(cur) && noCopyBytes == old(noCopyBytes)
    {
      ghost var was, front, t := buf[..], header + EncodeAll(done), Tlv(opcode, part);
      FrontSnoc(header, done, t);
      InsideBuffer(was, cur, noCopyBytesOffset, noCopyBytes, tlvLenOffset - 2, front, opcode, part);
      hide Settled, Growing, EncodeAll, Encode, AllFit;
      buf[tlvLenOffset] := Hi(tlvLen);
      buf[tlvLenOffset + 1] := Lo(tlvLen);
      FinishSettles(was, buf[..], cur, noCopyBytesOffset, noCopyBytes, tlvLenOffset - 2, front, opcode, part);
      tlvLen := 0;
      buildingTlv := false;
      done := done + [t];
    }
  }

  lemma FrontSnoc(header: seq<byte>, done: seq<Tlv>, t: Tlv)
    requires AllFit(done) && Fits(t)
    ensures AllFit(done + [t]) && header + EncodeAll(done + [t]) == header + EncodeAll(done) + Encode(t)
  {
    hide Encode;
    EncodeAllSnoc(done, t);
  }

  lemma InsideBuffer(buf: seq<byte>, cur: nat, offset: nat, noCopy: seq<byte>, start: nat,
                     front: seq<byte>, opcode: word, part: seq<byte>)
    requires Growing(buf, cur, offset, noCopy, start, front, opcode, part)
    ensures start + 4 <= |buf|
  {
  }
}
