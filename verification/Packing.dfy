/** Coils packed eight to an octet and registers sent high octet first (sections 6.1 and 6.3 of the
    MODBUS Application Protocol): the sequences that the loops of modbus.c and modbus-data.c compute. */
module Packing {
  import opened Bytes

  type bit = x: byte | x == 0 || x == 1

  function Pow2(k: nat): (p: nat)
    ensures p > 0
  {
    if k == 0 then 1 else 2 * Pow2(k - 1)
  }

  /** `(v >> k) & 1`. */
  function Bit(v: nat, k: nat): bit {
    if k == 0 then v % 2 else Bit(v / 2, k - 1)
  }

  function ByteCount(nb: nat): nat {
    nb / 8 + (if nb % 8 != 0 then 1 else 0)
  }

  /** The value whose binary digits, low digit first, are the given cells. */
  function FromBits(cells: seq<bit>): (v: nat)
    ensures v < Pow2(|cells|)
  {
    if cells == [] then 0 else cells[0] + 2 * FromBits(cells[1..])
  }

  lemma {:induction false} FromBitsSnoc(cells: seq<bit>, c: bit)
    ensures FromBits(cells + [c]) == FromBits(cells) + c * Pow2(|cells|)
  {
    if cells != [] {
      assert (cells + [c])[1..] == cells[1..] + [c];
      FromBitsSnoc(cells[1..], c);
    }
  }

  lemma {:induction false} BitOfFromBits(cells: seq<bit>, k: nat)
    requires k < |cells|
    ensures Bit(FromBits(cells), k) == cells[k]
  {
    if k != 0 {
      BitOfFromBits(cells[1..], k - 1);
    }
  }

  lemma FromEightBits(cells: seq<bit>)
    requires |cells| <= 8
    ensures FromBits(cells) < 0x100
  {
    Pow2Monotone(|cells|, 8);
    assert Pow2(8) == 0x100;
  }

  lemma {:induction false} Pow2Monotone(j: nat, k: nat)
    requires j <= k
    ensures Pow2(j) <= Pow2(k)
  {
    if j < k {
      Pow2Monotone(j, k - 1);
    }
  }

  /** The cells that share octet `j`. */
  function Group<T>(cells: seq<T>, j: nat): (g: seq<T>)
    requires j < ByteCount(|cells|)
    ensures |g| <= 8
  {
    cells[8 * j..if 8 * j + 8 <= |cells| then 8 * j + 8 else |cells|]
  }

  function PackedByte(cells: seq<bit>, j: nat): byte
    requires j < ByteCount(|cells|)
  {
    FromEightBits(Group(cells, j));
    FromBits(Group(cells, j))
  }

  function Pack(cells: seq<bit>): (bytes: seq<byte>)
    ensures |bytes| == ByteCount(|cells|)
  {
    seq(ByteCount(|cells|), j requires 0 <= j < ByteCount(|cells|) => PackedByte(cells, j))
  }

  /** The first `nb` bits of a row of octets. */
  function Unpack(bytes: seq<byte>, nb: nat): (cells: seq<bit>)
    requires nb <= 8 * |bytes|
    ensures |cells| == nb
  {
    seq(nb, k requires 0 <= k < nb => Bit(bytes[k / 8], k % 8))
  }

  lemma PackIndex(cells: seq<bit>, k: nat)
    requires k < |cells|
    ensures k / 8 < ByteCount(|cells|) && Bit(PackedByte(cells, k / 8), k % 8) == cells[k]
  {
    BitOfFromBits(Group(cells, k / 8), k % 8);
  }

  /** Unpacking undoes packing, for every number of cells, multiples of eight or not. */
  lemma UnpackPack(cells: seq<bit>)
    ensures |cells| <= 8 * |Pack(cells)|
    ensures Unpack(Pack(cells), |cells|) == cells
  {
    forall k | 0 <= k < |cells|
      ensures Unpack(Pack(cells), |cells|)[k] == cells[k]
    {
      PackIndex(cells, k);
    }
  }

  /** The value of an octet is rebuilt from its eight bits. */
  lemma OctetFromItsBits(v: byte)
    ensures FromBits(Unpack([v], 8)) == v
  {
    assert Pow2(8) == 0x100;
    ValueFromItsBits(v, 8);
    assert Unpack([v], 8) == Digits(v, 8);
  }

  function Digits(v: nat, n: nat): (cells: seq<bit>)
    ensures |cells| == n
  {
    seq(n, k requires 0 <= k < n => Bit(v, k))
  }

  lemma {:induction false} ValueFromItsBits(v: nat, n: nat)
    requires v < Pow2(n)
    ensures FromBits(Digits(v, n)) == v
  {
    if n != 0 {
      ValueFromItsBits(v / 2, n - 1);
      assert Digits(v, n)[1..] == Digits(v / 2, n - 1);
    }
  }

  /** A nonzero octet of the caller's array stands for ON. */
  function Normal(b: byte): bit {
    if b != 0 then 1 else 0
  }

  function Normalised(src: seq<byte>): (cells: seq<bit>)
    ensures |cells| == |src|
  {
    seq(|src|, k requires 0 <= k < |src| => Normal(src[k]))
  }

  // Registers

  function RegisterBytes(regs: seq<word>): (bytes: seq<byte>)
    ensures |bytes| == 2 * |regs|
  {
    seq(2 * |regs|, k requires 0 <= k < 2 * |regs| => if k % 2 == 0 then Hi(regs[k / 2]) else Lo(regs[k / 2]))
  }

  function BytesToRegisters(bytes: seq<byte>, nb: nat): (regs: seq<word>)
    requires 2 * nb <= |bytes|
    ensures |regs| == nb
  {
    seq(nb, i requires 0 <= i < nb => Word(bytes[2 * i], bytes[2 * i + 1]))
  }

  lemma RegistersRoundTrip(regs: seq<word>)
    ensures BytesToRegisters(RegisterBytes(regs), |regs|) == regs
  {
    forall i | 0 <= i < |regs|
      ensures BytesToRegisters(RegisterBytes(regs), |regs|)[i] == regs[i]
    {
      OctetsOfRegister(regs, i);
      hide RegisterBytes, Word, Hi, Lo;
      WordOfOctets(regs[i]);
    }
  }

  lemma OctetsOfRegister(regs: seq<word>, i: nat)
    requires i < |regs|
    ensures RegisterBytes(regs)[2 * i] == Hi(regs[i]) && RegisterBytes(regs)[2 * i + 1] == Lo(regs[i])
  {
  }

  lemma WordOfOctets(v: word)
    ensures Word(Hi(v), Lo(v)) == v
  {
  }

  // 16-bit `&`, `|` and `~`, digit by digit over `n` binary digits.

  function And(a: nat, b: nat, n: nat): nat {
    if n == 0 then 0 else (if a % 2 == 1 && b % 2 == 1 then 1 else 0) + 2 * And(a / 2, b / 2, n - 1)
  }

  function Or(a: nat, b: nat, n: nat): nat {
    if n == 0 then 0 else (if a % 2 == 1 || b % 2 == 1 then 1 else 0) + 2 * Or(a / 2, b / 2, n - 1)
  }

  function Not(a: nat, n: nat): nat {
    if n == 0 then 0 else (if a % 2 == 1 then 0 else 1) + 2 * Not(a / 2, n - 1)
  }

  /** `s` with the cells from `at` on replaced by `cells`. */
  function Splice<T>(s: seq<T>, at: nat, cells: seq<T>): (r: seq<T>)
    requires at + |cells| <= |s|
    ensures |r| == |s|
    ensures r[at..at + |cells|] == cells
    ensures forall i | 0 <= i < |s| && !(at <= i < at + |cells|) :: r[i] == s[i]
  {
    s[..at] + cells + s[at + |cells|..]
  }

  /** `v | (1 << k)`. */
  function SetBit(v: nat, k: nat): nat {
    if Bit(v, k) == 1 then v else v + Pow2(k)
  }

  /** `v & ~(1 << k)`. */
  function ClearBit(v: nat, k: nat): nat {
    HighBitClear(v, k);
    if Bit(v, k) == 1 then v - Pow2(k) else v
  }

  /** `acc | (cell << shift)`, for a cell that is 0 or 1. */
  function OrShifted(acc: nat, cell: bit, shift: nat): nat {
    if cell == 1 then SetBit(acc, shift) else acc
  }

  lemma {:induction false} HighBitClear(v: nat, k: nat)
    ensures v < Pow2(k) ==> Bit(v, k) == 0
  {
    if k != 0 {
      HighBitClear(v / 2, k - 1);
    }
  }

  /** Or-ing the next cell in at its place appends it. */
  lemma OrSnoc(cells: seq<bit>, c: bit)
    ensures OrShifted(FromBits(cells), c, |cells|) == FromBits(cells + [c])
  {
    hide FromBits, Bit, Pow2;
    FromBitsSnoc(cells, c);
    HighBitClear(FromBits(cells), |cells|);
    if c == 1 {
      assert c * Pow2(|cells|) == Pow2(|cells|);
    }
  }

  lemma NextBit(cells: seq<bit>, lo: nat, n: nat)
    requires lo <= n < |cells| && n - lo < 8
    ensures FromBits(cells[lo..n + 1]) == OrShifted(FromBits(cells[lo..n]), cells[n], n - lo) < 0x100
  {
    hide FromBits, OrShifted;
    assert cells[lo..n + 1] == cells[lo..n] + [cells[n]];
    OrSnoc(cells[lo..n], cells[n]);
    FromEightBits(cells[lo..n + 1]);
  }

  lemma WholeGroup(cells: seq<bit>, j: nat, lo: nat, hi: nat)
    requires lo == 8 * j < hi <= |cells| && (hi == lo + 8 || (hi == |cells| && hi < lo + 8))
    ensures j < |Pack(cells)| && FromBits(cells[lo..hi]) == Pack(cells)[j]
  {
  }

  lemma ByteCountIs(nb: nat, whole: nat, rest: nat)
    requires nb == 8 * whole + rest && rest < 8
    ensures ByteCount(nb) == whole + (if rest != 0 then 1 else 0)
  {
  }

  /** A splice grown by one cell at its end. */
  lemma SpliceMore<T>(s: seq<T>, at: nat, cells: seq<T>, n: nat)
    requires at + |cells| <= |s| && n < |cells|
    ensures Splice(s, at, cells[..n + 1]) == Splice(s, at, cells[..n])[at + n := cells[n]]
  {
  }

  lemma SpliceNone<T>(s: seq<T>, at: nat)
    requires at <= |s|
    ensures Splice(s, at, []) == s
  {
  }

  lemma UnpackedCell(bytes: seq<byte>, nb: nat, octet: nat, shift: nat)
    requires nb <= 8 * |bytes| && 8 * octet + shift < nb && shift < 8
    ensures var n := 8 * octet + shift;
            n / 8 == octet < |bytes| && Unpack(bytes, nb)[n] == Bit(bytes[octet], shift)
  {
  }

  lemma SplicedCells<T>(was: seq<T>, now: seq<T>, at: nat, cells: seq<T>)
    requires |now| == |was| && at + |cells| <= |was|
    requires forall p | at <= p < at + |cells| :: now[p] == cells[p - at]
    requires forall p | 0 <= p < |was| && !(at <= p < at + |cells|) :: now[p] == was[p]
    ensures now == Splice(was, at, cells)
  {
  }
}
