/** The loops over single bits of modbus-data.c and modbus.c, on arrays. */
module BitLoops {
  import opened Bytes
  import opened Packing

  ghost predicate AllBits(s: seq<byte>) {
    forall i | 0 <= i < |s| :: s[i] <= 1
  }

  /** Cells known to hold 0 or 1, seen as bits. */
  ghost function Cells(s: seq<byte>): (cells: seq<bit>)
    requires AllBits(s)
    ensures cells == s
  {
    seq(|s|, i requires 0 <= i < |s| => s[i])
  }

  // ---------------------------------------------------------------------------------------------
  // What `|` and `<<` make of cells, whatever octets they hold

  /** `acc | (cell << shift)`, in an `int`. */
  function OrInto(acc: nat, cell: byte, shift: nat): nat {
    Or(acc, cell * Pow2(shift), 16)
  }

  /** `cells[0] | cells[1] << 1 | cells[2] << 2 ...`. */
  function OrCells(cells: seq<byte>): nat {
    if cells == [] then 0 else OrInto(OrCells(cells[..|cells| - 1]), cells[|cells| - 1], |cells| - 1)
  }

  /** Bit `k` of the octet that is stored is set exactly when some cell has it set at its own place: for cells that
      are 0 or 1, when cell `k` is 1, and for others when one before it carries over. */
  lemma StoredBitIff(cells: seq<byte>, k: nat)
    requires |cells| <= 8 && k < 8
    ensures Bit(Lo(OrCells(cells)), k) == 1 <==> exists i | 0 <= i < |cells| && i <= k :: Bit(cells[i], k - i) == 1
  {
    LowBits(OrCells(cells), k);
    OredBitIff(cells, k);
  }

  lemma {:induction false} OredBitIff(cells: seq<byte>, k: nat)
    requires k < 16
    ensures Bit(OrCells(cells), k) == 1 <==> exists i | 0 <= i < |cells| && i <= k :: Bit(cells[i], k - i) == 1
  {
    if cells == [] {
      HighBitClear(0, k);
      assert Pow2(k) > 0;
    } else {
      hide Bit, Or, OrCells, Pow2;
      var init, last := cells[..|cells| - 1], |cells| - 1;
      assert OrCells(cells) == OrInto(OrCells(init), cells[last], last) by { OrCellsLast(cells); }
      OredBitIff(init, k);
      BitOfOr(OrCells(init), cells[last] * Pow2(last), 16, k);
      BitShifted(cells[last], last, k);
      assert forall i | 0 <= i < |init| :: init[i] == cells[i];
    }
  }

  lemma OrCellsLast(cells: seq<byte>)
    requires cells != []
    ensures OrCells(cells) == OrInto(OrCells(cells[..|cells| - 1]), cells[|cells| - 1], |cells| - 1)
  {
  }

  lemma {:induction false} BitOfOr(a: nat, b: nat, n: nat, k: nat)
    requires k < n
    ensures Bit(Or(a, b, n), k) == 1 <==> Bit(a, k) == 1 || Bit(b, k) == 1
  {
    if k != 0 {
      BitOfOr(a / 2, b / 2, n - 1, k - 1);
    }
  }

  lemma {:induction false} BitShifted(v: nat, shift: nat, k: nat)
    ensures Bit(v * Pow2(shift), k) == if k < shift then 0 else Bit(v, k - shift)
  {
    if shift != 0 {
      assert v * Pow2(shift) == 2 * (v * Pow2(shift - 1));
      if k != 0 {
        BitShifted(v, shift - 1, k - 1);
      }
    }
  }

  /** The bits that survive when an `int` is stored in an octet. */
  lemma LowBits(v: nat, k: nat)
    requires k < 8
    ensures Bit(Lo(v), k) == Bit(v, k)
  {
    assert Pow2(8) == 0x100;
    BitOfRemainder(v, 8, k);
  }

  lemma {:induction false} BitOfRemainder(v: nat, n: nat, k: nat)
    requires k < n
    ensures Bit(v % Pow2(n), k) == Bit(v, k)
  {
    HalfOfRemainder(v, Pow2(n - 1), Pow2(n));
    if k != 0 {
      BitOfRemainder(v / 2, n - 1, k - 1);
    }
  }

  lemma HalfOfRemainder(v: nat, p: nat, q: nat)
    requires p > 0 && q == 2 * p
    ensures v % q % 2 == v % 2 && v % q / 2 == v / 2 % p
  {
    var whole, rest := v / q, v % q;
    assert v == 2 * (p * whole) + rest;
    assert v / 2 == p * whole + rest / 2 && rest / 2 < p;
    Remainder(v / 2, p, whole, rest / 2);
  }

  lemma Remainder(v: nat, p: nat, q: nat, r: nat)
    requires r < p && v == p * q + r
    ensures v % p == r
  {
    var d := v / p - q;
    assert p * d == r - v % p;
    Multiples(p, d);
  }

  lemma Multiples(p: nat, d: int)
    ensures d >= 1 ==> p * d >= p
    ensures d <= -1 ==> p + p * d <= 0
  {
  }

  /** Storing the low octet after every cell or once at the end comes to the same. */
  lemma LowOctetOfOr(acc: nat, cell: byte, shift: nat)
    ensures Lo(OrInto(Lo(acc), cell, shift)) == Lo(OrInto(acc, cell, shift))
  {
    assert Pow2(8) == 0x100;
    RemainderOfOr(acc, cell * Pow2(shift), 16, 8);
  }

  lemma {:induction false} RemainderOfOr(a: nat, b: nat, n: nat, m: nat)
    requires m <= n
    ensures Or(a % Pow2(m), b, n) % Pow2(m) == Or(a, b, n) % Pow2(m)
  {
    if m != 0 {
      var p, low := Pow2(m - 1), a % Pow2(m);
      HalfOfRemainder(a, p, Pow2(m));
      RemainderOfOr(a / 2, b / 2, n - 1, m - 1);
      var digit: bit := if a % 2 == 1 || b % 2 == 1 then 1 else 0;
      assert Or(a, b, n) == digit + 2 * Or(a / 2, b / 2, n - 1);
      assert Or(low, b, n) == digit + 2 * Or(a / 2 % p, b / 2, n - 1);
      hide Or;
      SameRemainder(digit, Or(a / 2, b / 2, n - 1), Or(a / 2 % p, b / 2, n - 1), p, Pow2(m));
    }
  }

  lemma SameRemainder(digit: bit, x: nat, y: nat, p: nat, q: nat)
    requires p > 0 && q == 2 * p && x % p == y % p
    ensures (digit + 2 * x) % q == (digit + 2 * y) % q
  {
    HalfOfRemainder(digit + 2 * x, p, q);
    HalfOfRemainder(digit + 2 * y, p, q);
    assert (digit + 2 * x) / 2 == x && (digit + 2 * y) / 2 == y;
  }

  /** Cells that are 0 or 1 are the binary digits of the octet. */
  lemma {:induction false} OrOfBits(cells: seq<bit>)
    requires |cells| <= 8
    ensures OrCells(cells) == FromBits(cells) < 0x100
  {
    FromEightBits(cells);
    if cells != [] {
      var init, last := cells[..|cells| - 1], cells[|cells| - 1];
      OrOfBits(init);
      assert cells == init + [last];
      hide FromBits, Or;
      FromBitsSnoc(init, last);
      OrAbove(FromBits(init), last, |init|, 16);
    }
  }

  lemma {:induction false} OrAbove(a: nat, c: bit, shift: nat, n: nat)
    requires a < Pow2(shift) && shift < n
    ensures Or(a, c * Pow2(shift), n) == a + c * Pow2(shift)
  {
    if shift == 0 {
      OrZero(n - 1);
    } else {
      assert c * Pow2(shift) == 2 * (c * Pow2(shift - 1));
      OrAbove(a / 2, c, shift - 1, n - 1);
    }
  }

  lemma {:induction false} OrZero(n: nat)
    ensures Or(0, 0, n) == 0
  {
    if n != 0 {
      OrZero(n - 1);
    }
  }

  function OredByte(cells: seq<byte>, j: nat): byte
    requires j < ByteCount(|cells|)
  {
    Lo(OrCells(Group(cells, j)))
  }

  /** Cells eight to an octet. */
  function PackCells(cells: seq<byte>): (bytes: seq<byte>)
    ensures |bytes| == ByteCount(|cells|)
  {
    seq(ByteCount(|cells|), j requires 0 <= j < ByteCount(|cells|) => OredByte(cells, j))
  }

  lemma LoOfOctet(v: byte)
    ensures Lo(v) == v
  {
  }

  lemma PackCellsOfBits(cells: seq<bit>)
    ensures PackCells(cells) == Pack(cells)
  {
    hide OredByte, PackedByte;
    forall j | 0 <= j < ByteCount(|cells|)
      ensures PackCells(cells)[j] == Pack(cells)[j]
    {
      OredByteOfBits(cells, j);
    }
  }

  lemma OredByteOfBits(cells: seq<bit>, j: nat)
    requires j < ByteCount(|cells|)
    ensures OredByte(cells, j) == PackedByte(cells, j)
  {
    assert Group<byte>(cells, j) == Group<bit>(cells, j);
    hide OrCells, FromBits, Group;
    OrOfBits(Group(cells, j));
    LoOfOctet(FromBits(Group(cells, j)));
  }

  lemma WholeOctet(cells: seq<byte>, j: nat, lo: nat, hi: nat)
    requires lo == 8 * j < hi <= |cells| && (hi == lo + 8 || (hi == |cells| && hi < lo + 8))
    ensures j < |PackCells(cells)| && Lo(OrCells(cells[lo..hi])) == PackCells(cells)[j]
  {
    hide OrCells;
  }

  lemma NextCell(cells: seq<byte>, lo: nat, n: nat)
    requires lo <= n < |cells|
    ensures OrCells(cells[lo..n + 1]) == OrInto(OrCells(cells[lo..n]), cells[n], n - lo)
  {
    hide OrInto;
    assert cells[lo..n + 1][..n - lo] == cells[lo..n];
  }

  // ---------------------------------------------------------------------------------------------
  // The loops

  /** `modbus_set_bits_from_bytes`, the octets starting at `at` in `tabByte`. */
  method SetBitsFromBytes(dest: array<byte>, idx: nat, nbBits: nat, tabByte: array<byte>, at: nat)
    requires dest != tabByte && idx + nbBits <= dest.Length && at + ByteCount(nbBits) <= tabByte.Length
    modifies dest
    ensures dest[..] == Splice(old(dest[..]), idx, Unpack(tabByte[at..at + ByteCount(nbBits)], nbBits))
  {
    ghost var was, bytes := dest[..], tabByte[at..at + ByteCount(nbBits)];
    ghost var cells := Unpack(bytes, nbBits);
    var i, shift := idx, 0;
    ghost var octet := 0;
    hide Bit, Unpack, ByteCount;
    while i < idx + nbBits
      invariant i == idx + 8 * octet + shift <= idx + nbBits && 0 <= shift < 8 && octet >= 0
      invariant forall p | idx <= p < i :: dest[p] == cells[p - idx]
      invariant forall p | 0 <= p < dest.Length && !(idx <= p < i) :: dest[p] == was[p]
    {
      UnpackedCell(bytes, nbBits, octet, shift);
      dest[i] := Bit(tabByte[at + (i - idx) / 8], shift);
      octet := if shift == 7 then octet + 1 else octet;
      shift := shift + 1;
      shift := shift % 8;
      i := i + 1;
    }
    SplicedCells(was, dest[..], idx, cells);
  }

  /** `modbus_set_bits_from_byte`. */
  method SetBitsFromByte(dest: array<byte>, idx: nat, value: byte)
    requires idx + 8 <= dest.Length
    modifies dest
    ensures dest[..] == Splice(old(dest[..]), idx, Unpack([value], 8))
  {
    SpliceNone(dest[..], idx);
    hide Bit, Splice;
    ghost var was, cells := dest[..], Unpack([value], 8);
    for i := 0 to 8
      invariant dest[..] == Splice(was, idx, cells[..i])
    {
      SpliceMore(was, idx, cells, i);
      dest[idx + i] := Bit(value, i);
    }
    assert cells[..8] == cells;
  }

  /** `modbus_get_byte_from_bits`, compiled without its assertion: it takes eight cells when asked for more. */
  method GetByteFromBits(src: array<byte>, idx: nat, nbBits: nat) returns (value: byte)
    requires idx + (if nbBits > 8 then 8 else nbBits) <= src.Length
    ensures value == Lo(OrCells(src[idx..idx + if nbBits > 8 then 8 else nbBits]))
  {
    var nb := if nbBits > 8 then 8 else nbBits;
    ghost var cells := src[idx..idx + nb];
    value := 0;
    assert OrCells([]) == 0;
    hide OrCells, OrInto;
    for i := 0 to nb
      invariant value == Lo(OrCells(cells[0..i]))
    {
      NextCell(cells, 0, i);
      LowOctetOfOr(OrCells(cells[0..i]), cells[i], i);
      value := Lo(OrInto(value, src[idx + i], i));
    }
    assert cells[0..nb] == cells;
  }

  /** One turn of the loop below: the cell joins the octet under construction, which is stored when full. */
  method TakeCell(cell: byte, shift: nat, oneByte: nat, rsp: array<byte>, end: nat,
                  ghost cells: seq<byte>, ghost octets: nat)
    returns (shift': nat, oneByte': nat, end': nat)
    requires shift < 8 && 8 * octets + shift < |cells| && end < rsp.Length
    requires cell == cells[8 * octets + shift] && oneByte == OrCells(cells[8 * octets..8 * octets + shift])
    modifies rsp
    ensures shift < 7 ==>
              && shift' == shift + 1 && oneByte' == OrCells(cells[8 * octets..8 * octets + shift + 1])
              && end' == end && forall p | 0 <= p < rsp.Length :: rsp[p] == old(rsp[p])
    ensures shift == 7 ==>
              && shift' == 0 && oneByte' == 0 && end' == end + 1 && octets < |PackCells(cells)|
              && rsp[end] == PackCells(cells)[octets]
              && forall p | 0 <= p < rsp.Length && p != end :: rsp[p] == old(rsp[p])
  {
    hide OrCells, OrInto, PackCells;
    NextCell(cells, 8 * octets, 8 * octets + shift);
    oneByte' := OrInto(oneByte, cell, shift);
    if shift == 7 {
      WholeOctet(cells, octets, 8 * octets, 8 * octets + 8);
      rsp[end] := Lo(oneByte');
      end' := end + 1;
      oneByte', shift' := 0, 0;
    } else {
      end', shift' := end, shift + 1;
    }
  }

  /** The loop of `response_io_status`, up to the last full octet. */
  method TakeCells(tabIoStatus: array<byte>, address: nat, nb: nat, ghost cells: seq<byte>,
                   rsp: array<byte>, offset: nat)
    returns (shift: nat, oneByte: nat, end: nat)
    requires address + nb <= tabIoStatus.Length && tabIoStatus[address..address + nb] == cells
    requires rsp != tabIoStatus && offset + |PackCells(cells)| <= rsp.Length
    modifies rsp
    ensures offset <= end && shift < 8 && nb == 8 * (end - offset) + shift
    ensures oneByte == OrCells(cells[nb - shift..])
    ensures end - offset <= |PackCells(cells)|
    ensures forall p | offset <= p < end :: rsp[p] == PackCells(cells)[p - offset]
    ensures forall p | 0 <= p < rsp.Length && !(offset <= p < end) :: rsp[p] == old(rsp[p])
  {
    assert OrCells([]) == 0;
    hide OrCells, PackCells, ByteCount;
    ghost var packed := PackCells(cells);
    var i := address;
    ghost var octets: nat := 0;
    shift, oneByte, end := 0, 0, offset;
    while i < address + nb
      invariant i == address + 8 * octets + shift <= address + nb && shift < 8
      invariant end == offset + octets && octets <= |packed|
      invariant oneByte == OrCells(cells[8 * octets..8 * octets + shift])
      invariant forall p | address <= p < address + nb :: tabIoStatus[p] == cells[p - address]
      invariant forall p | offset <= p < end :: rsp[p] == packed[p - offset]
      invariant forall p | 0 <= p < rsp.Length && !(offset <= p < end) :: rsp[p] == old(rsp[p])
    {
      CellHasOctet(cells, octets);
      ghost var full := shift == 7;
      shift, oneByte, end := TakeCell(tabIoStatus[i], shift, oneByte, rsp, end, cells, octets);
      octets := if full then octets + 1 else octets;
      i := i + 1;
    }
    assert cells[8 * octets..8 * octets + shift] == cells[nb - shift..];
  }

  lemma CellHasOctet(cells: seq<byte>, j: nat)
    requires 8 * j < |cells|
    ensures j < |PackCells(cells)|
  {
  }

  /** `response_io_status`; `cells` are the cells it is asked for. */
  method ResponseIoStatus(tabIoStatus: array<byte>, address: nat, nb: nat, ghost cells: seq<byte>,
                          rsp: array<byte>, offset: nat)
    returns (end: nat)
    requires address + nb <= tabIoStatus.Length && tabIoStatus[address..address + nb] == cells
    requires rsp != tabIoStatus && offset + |PackCells(cells)| <= rsp.Length
    modifies rsp
    ensures end == offset + |PackCells(cells)|
    ensures rsp[..] == Splice(old(rsp[..]), offset, PackCells(cells))
  {
    var shift, oneByte;
    shift, oneByte, end := TakeCells(tabIoStatus, address, nb, cells, rsp, offset);
    ghost var octets := end - offset;
    ByteCountIs(nb, octets, shift);
    hide PackCells, OrCells, ByteCount;
    if shift != 0 {
      assert cells[nb - shift..] == cells[nb - shift..nb];
      WholeOctet(cells, octets, nb - shift, nb);
      rsp[end] := Lo(oneByte);
      end := end + 1;
    }
    SplicedCells(old(rsp[..]), rsp[..], offset, PackCells(cells));
  }
}
