/** The loops of the client calls of modbus.c: values packed into a request, and taken out of a response. */
module ClientLoops {
  import opened Bytes
  import opened Packing

  /** The inner loop of `modbus_write_bits`: `bit` is `1 << shift`, and `bit_check` counts one test too many
      when the cells end inside an octet. */
  method PutOctet(src: seq<byte>, start: nat, req: array<byte>, at: nat) returns (pos: nat, bitCheck: nat)
    requires start < |src| && at < req.Length
    modifies req
    ensures pos == (if start + 8 <= |src| then start + 8 else |src|)
    ensures bitCheck == if start + 8 <= |src| then pos else pos + 1
    ensures req[at] == FromBits(Normalised(src)[start..pos])
    ensures forall p | 0 <= p < req.Length && p != at :: req[p] == old(req[p])
  {
    ghost var cells := Normalised(src);
    var shift := 0;
    pos, bitCheck := start, start;
    req[at] := 0;
    assert FromBits([]) == 0;
    hide FromBits, SetBit, ClearBit, OrShifted;
    while shift < 8
      invariant shift <= 8 && pos == bitCheck == start + shift <= |src|
      invariant req[at] == FromBits(cells[start..pos])
      invariant forall p | 0 <= p < req.Length && p != at :: req[p] == old(req[p])
    {
      bitCheck := bitCheck + 1;
      if bitCheck - 1 >= |src| {
        break;
      }
      NextBit(cells, start, pos);
      SetOrClear(cells[start..pos], cells[pos]);
      if src[pos] != 0 {
        req[at] := SetBit(req[at], shift);
      } else {
        req[at] := ClearBit(req[at], shift);
      }
      pos := pos + 1;
      shift := shift + 1;
    }
  }

  lemma SetOrClear(cells: seq<bit>, c: bit)
    ensures OrShifted(FromBits(cells), c, |cells|) ==
            if c == 1 then SetBit(FromBits(cells), |cells|) else ClearBit(FromBits(cells), |cells|)
  {
    HighBitClear(FromBits(cells), |cells|);
  }

  /** The packing loop of `modbus_write_bits`. */
  method PutBits(src: seq<byte>, req: array<byte>, start: nat) returns (length: nat)
    requires start + ByteCount(|src|) <= req.Length
    modifies req
    ensures length == start + ByteCount(|src|)
    ensures req[..] == Splice(old(req[..]), start, Pack(Normalised(src)))
  {
    ghost var cells := Normalised(src);
    ghost var packed := Pack(cells);
    var i, pos, bitCheck, byteCount := 0, 0, 0, ByteCount(|src|);
    length := start;
    while i < byteCount
      invariant i <= byteCount && length == start + i
      invariant pos == if 8 * i <= |src| then 8 * i else |src|
      invariant i < byteCount ==> bitCheck == pos < |src|
      invariant forall p | start <= p < length :: req[p] == packed[p - start]
      invariant forall p | 0 <= p < req.Length && !(start <= p < length) :: req[p] == old(req[p])
    {
      pos, bitCheck := PutOctet(src, pos, req, length);
      WholeGroup(cells, i, 8 * i, pos);
      length := length + 1;
      i := i + 1;
    }
    SplicedCells(old(req[..]), req[..], start, packed);
  }

  /** The loop of `modbus_write_registers` and `modbus_write_and_read_registers`. */
  method PutWords(src: seq<word>, req: array<byte>, start: nat) returns (length: nat)
    requires start + 2 * |src| <= req.Length
    modifies req
    ensures length == start + 2 * |src|
    ensures req[..] == Splice(old(req[..]), start, RegisterBytes(src))
  {
    ghost var bytes := RegisterBytes(src);
    hide RegisterBytes, Hi, Lo;
    length := start;
    for i := 0 to |src|
      invariant length == start + 2 * i
      invariant forall p | start <= p < length :: req[p] == bytes[p - start]
      invariant forall p | 0 <= p < req.Length && !(start <= p < length) :: req[p] == old(req[p])
    {
      OctetsOfRegister(src, i);
      req[length] := Hi(src[i]);
      length := length + 1;
      req[length] := Lo(src[i]);
      length := length + 1;
    }
    SplicedCells(old(req[..]), req[..], start, bytes);
  }

  /** The inner loop of `read_io_status`. */
  method TakeOctet(temp: byte, dest: array<byte>, start: nat, nb: nat) returns (pos: nat)
    requires start <= nb <= dest.Length
    modifies dest
    ensures pos == if start + 8 <= nb then start + 8 else nb
    ensures forall p | start <= p < pos :: dest[p] == Bit(temp, p - start)
    ensures forall p | 0 <= p < dest.Length && !(start <= p < pos) :: dest[p] == old(dest[p])
  {
    hide Bit;
    var shift := 0;
    pos := start;
    while shift < 8 && pos < nb
      invariant shift <= 8 && pos == start + shift <= nb
      invariant forall p | start <= p < pos :: dest[p] == Bit(temp, p - start)
      invariant forall p | 0 <= p < dest.Length && !(start <= p < pos) :: dest[p] == old(dest[p])
    {
      dest[pos] := Bit(temp, shift);
      pos := pos + 1;
      shift := shift + 1;
    }
  }

  /** The loop of `read_io_status` over the `rc` data octets of a response. */
  method TakeBits(rsp: array<byte>, offset: nat, rc: nat, dest: array<byte>, nb: nat)
    requires rsp != dest && offset + rc <= rsp.Length && nb <= 8 * rc && nb <= dest.Length
    modifies dest
    ensures dest[..] == Splice(old(dest[..]), 0, Unpack(rsp[offset..offset + rc], nb))
  {
    ghost var bytes := rsp[offset..offset + rc];
    ghost var cells := Unpack(bytes, nb);
    hide Unpack, Bit;
    var pos := 0;
    for i := 0 to rc
      invariant pos == if 8 * i <= nb then 8 * i else nb
      invariant forall p | 0 <= p < pos :: dest[p] == cells[p]
      invariant forall p | pos <= p < dest.Length :: dest[p] == old(dest[p])
    {
      ghost var start := pos;
      pos := TakeOctet(rsp[offset + i], dest, pos, nb);
      forall p | start <= p < pos
        ensures dest[p] == cells[p]
      {
        UnpackedCell(bytes, nb, i, p - start);
      }
    }
    SplicedCells(old(dest[..]), dest[..], 0, cells);
  }

  /** The loop of `read_registers` over the `rc` registers of a response. */
  method TakeWords(rsp: array<byte>, offset: nat, rc: nat, dest: array<word>)
    requires offset + 2 * rc <= rsp.Length && rc <= dest.Length
    modifies dest
    ensures dest[..] == Splice(old(dest[..]), 0, BytesToRegisters(old(rsp[offset..offset + 2 * rc]), rc))
  {
    ghost var values := BytesToRegisters(rsp[offset..offset + 2 * rc], rc);
    for i := 0 to rc
      invariant forall p | offset <= p < offset + 2 * rc :: rsp[p] == old(rsp[p])
      invariant forall p | 0 <= p < i :: dest[p] == values[p]
      invariant forall p | i <= p < dest.Length :: dest[p] == old(dest[p])
    {
      dest[i] := Word(rsp[offset + 2 * i], rsp[offset + 1 + 2 * i]);
    }
    SplicedCells(old(dest[..]), dest[..], 0, values);
  }

  /** The loop of `modbus_report_slave_id`. */
  method TakeOctets(rsp: array<byte>, offset: nat, rc: nat, maxDest: nat, dest: array<byte>)
    requires rsp != dest && offset + rc <= rsp.Length && maxDest <= dest.Length
    modifies dest
    ensures dest[..] == Splice(old(dest[..]), 0, rsp[offset..offset + if rc < maxDest then rc else maxDest])
  {
    ghost var data := rsp[offset..offset + if rc < maxDest then rc else maxDest];
    hide Splice;
    var i := 0;
    while i < rc && i < maxDest
      invariant i <= |data|
      invariant forall p | 0 <= p < i :: dest[p] == data[p]
      invariant forall p | i <= p < dest.Length :: dest[p] == old(dest[p])
    {
      dest[i] := rsp[offset + i];
      i := i + 1;
    }
    SplicedCells(old(dest[..]), dest[..], 0, data);
  }
}
