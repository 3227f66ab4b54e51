/** What the CRC of a sealed RTU frame detects. */
module CrcDetection {
  import opened Bytes
  import opened Crc

  function Seal(msg: seq<byte>): seq<byte> {
    msg + [CrcHi(msg), CrcLo(msg)]
  }

  /** The test of `_modbus_rtu_check_integrity`: CRC computed against CRC received. */
  predicate CrcMatches(frame: seq<byte>)
    requires |frame| >= 2
  {
    var n := |frame| - 2;
    Word(CrcHi(frame[..n]), CrcLo(frame[..n])) == Word(frame[n], frame[n + 1])
  }

  lemma SealMatches(msg: seq<byte>)
    ensures CrcMatches(Seal(msg))
  {
    assert Seal(msg)[..|msg|] == msg;
  }

  // ---------------------------------------------------------------------------------------------
  // Laws of one octet absorbed

  lemma FoldLoInjective(i: bv8, j: bv8)
    requires FoldLo(i) == FoldLo(j)
    ensures i == j
  {
  }

  lemma FoldZero()
    ensures FoldHi(0) == 0 && FoldLo(0) == 0
  {
  }

  const ZERO := Halves(0, 0)

  lemma XorZero(a: bv8, b: bv8)
    ensures Xor(a, b) == 0 <==> a == b
    ensures Xor(a, 0) == a
  {
  }

  lemma LoZero(r: Halves, v: bv8)
    ensures Absorb(r, v).lo == 0 <==> v == r.hi
    ensures v == r.hi ==> Absorb(r, v).hi == r.lo
  {
    hide FoldHi, FoldLo, Xor;
    FoldZero();
    XorZero(r.hi, v);
    XorZero(r.lo, 0);
    if FoldLo(Xor(r.hi, v)) == 0 {
      FoldLoInjective(Xor(r.hi, v), 0);
    }
  }

  /** Two octets bring the register to zero just when they are the two halves of the register. */
  lemma ZeroResidue(r: Halves, x: bv8, y: bv8)
    ensures Absorb(Absorb(r, x), y) == ZERO <==> x == r.hi && y == r.lo
  {
    hide Absorb;
    LoZero(r, x);
    LoZero(Absorb(r, x), y);
  }

  lemma RunTwo<R>(absorb: (R, bv8) -> R, r: R, x: byte, y: byte)
    ensures Run(absorb, r, [x, y]) == absorb(absorb(r, Bits(x)), Bits(y))
  {
    assert [x, y][1..] == [y] && [y][1..] == [];
    assert Run(absorb, absorb(r, Bits(x)), [y]) == absorb(absorb(r, Bits(x)), Bits(y));
  }

  lemma OctetIs(b: byte, v: bv8)
    ensures b == Octet(v) <==> Bits(b) == v
  {
    BitsOfOctet(v);
    OctetOfBits(b);
  }

  /** The test on a frame is that the CRC run over all of it, its own two octets included, is zero. */
  lemma MatchIsZeroResidue(frame: seq<byte>)
    requires |frame| >= 2
    ensures CrcMatches(frame) <==> Register(frame) == ZERO
  {
    hide Absorb, Bits, Octet;
    var n := |frame| - 2;
    var r := Register(frame[..n]);
    var x, y := frame[n], frame[n + 1];
    assert frame == frame[..n] + [x, y];
    RunConcat(Absorb, PRESET, frame[..n], [x, y]);
    RunTwo(Absorb, r, x, y);
    ZeroResidue(r, Bits(x), Bits(y));
    OctetIs(x, r.hi);
    OctetIs(y, r.lo);
  }

  // ---------------------------------------------------------------------------------------------
  // Corruption confined to two adjacent octets

  lemma XorCancel(a: bv8, b: bv8, c: bv8)
    requires Xor(a, b) == Xor(a, c) || Xor(b, a) == Xor(c, a)
    ensures b == c
  {
  }

  lemma AbsorbInjective(p: Halves, q: Halves, v: bv8)
    requires Absorb(p, v) == Absorb(q, v)
    ensures p == q
  {
    hide FoldHi, FoldLo, Xor;
    FoldLoInjective(Xor(p.hi, v), Xor(q.hi, v));
    XorCancel(v, p.hi, q.hi);
    XorCancel(FoldHi(Xor(p.hi, v)), p.lo, q.lo);
  }

  lemma SameLo(p: Halves, q: Halves, v: bv8, w: bv8)
    requires Absorb(p, v).lo == Absorb(q, w).lo
    ensures Xor(p.hi, v) == Xor(q.hi, w)
  {
    hide FoldHi, FoldLo, Xor;
    FoldLoInjective(Xor(p.hi, v), Xor(q.hi, w));
  }

  lemma TwoOctetsInjective(r: Halves, x: bv8, y: bv8, x': bv8, y': bv8)
    requires Absorb(Absorb(r, x), y) == Absorb(Absorb(r, x'), y')
    ensures x == x' && y == y'
  {
    var p, q := Absorb(r, x), Absorb(r, x');
    hide FoldHi, FoldLo, Xor;
    SameLo(p, q, y, y');
    XorCancel(FoldHi(Xor(p.hi, y)), p.lo, q.lo);
    SameLo(r, r, x, x');
    XorCancel(r.hi, x, x');
    XorCancel(p.hi, y, y');
  }

  lemma {:induction false} StaysApart(p: Halves, q: Halves, msg: seq<byte>)
    requires p != q
    ensures Run(Absorb, p, msg) != Run(Absorb, q, msg)
    decreases |msg|
  {
    hide Absorb;
    if msg != [] {
      if Absorb(p, Bits(msg[0])) == Absorb(q, Bits(msg[0])) {
        AbsorbInjective(p, q, Bits(msg[0]));
      }
      StaysApart(Absorb(p, Bits(msg[0])), Absorb(q, Bits(msg[0])), msg[1..]);
    }
  }

  /** `g` is `f` with at most the octets `i` and `i + 1` altered. */
  ghost predicate DiffersOnlyAt(f: seq<byte>, g: seq<byte>, i: nat) {
    && |f| == |g| && i + 2 <= |f|
    && f[..i] == g[..i]
    && f[i + 2..] == g[i + 2..]
  }

  lemma SameFrame(f: seq<byte>, g: seq<byte>, i: nat)
    requires DiffersOnlyAt(f, g, i) && f[i] == g[i] && f[i + 1] == g[i + 1]
    ensures f == g
  {
    forall k | 0 <= k < |f|
      ensures f[k] == g[k]
    {
      if k < i {
        assert f[..i][k] == g[..i][k];
      } else if k >= i + 2 {
        assert f[i + 2..][k - i - 2] == g[i + 2..][k - i - 2];
      }
    }
  }

  /** No corruption confined to two adjacent octets, wherever they lie in the frame, goes unnoticed. */
  lemma AdjacentCorruptionDetected(f: seq<byte>, g: seq<byte>, i: nat)
    requires DiffersOnlyAt(f, g, i) && f != g
    requires CrcMatches(f)
    ensures !CrcMatches(g)
  {
    hide Absorb;
    MatchIsZeroResidue(f);
    MatchIsZeroResidue(g);
    var r := Register(f[..i]);
    SplitRun(f, i);
    SplitRun(g, i);
    var p := Absorb(Absorb(r, Bits(f[i])), Bits(f[i + 1]));
    var q := Absorb(Absorb(r, Bits(g[i])), Bits(g[i + 1]));
    if p == q {
      TwoOctetsInjective(r, Bits(f[i]), Bits(f[i + 1]), Bits(g[i]), Bits(g[i + 1]));
      OctetOfBits(f[i]);
      OctetOfBits(f[i + 1]);
      OctetOfBits(g[i]);
      OctetOfBits(g[i + 1]);
      SameFrame(f, g, i);
      assert false;
    }
    StaysApart(p, q, f[i + 2..]);
  }

  lemma SplitRun(f: seq<byte>, i: nat)
    requires i + 2 <= |f|
    ensures var p := Absorb(Absorb(Register(f[..i]), Bits(f[i])), Bits(f[i + 1]));
            Register(f) == Run(Absorb, p, f[i + 2..])
  {
    hide Absorb;
    assert f == f[..i] + f[i..];
    RunConcat(Absorb, PRESET, f[..i], f[i..]);
    assert f[i..][1..] == f[i + 1..] && f[i + 1..][1..] == f[i + 2..];
  }

  // ---------------------------------------------------------------------------------------------
  // An odd number of flipped bits

  function Ones(v: bv8): nat {
    (if v & 0x01 != 0 then 1 else 0) + (if v & 0x02 != 0 then 1 else 0)
    + (if v & 0x04 != 0 then 1 else 0) + (if v & 0x08 != 0 then 1 else 0)
    + (if v & 0x10 != 0 then 1 else 0) + (if v & 0x20 != 0 then 1 else 0)
    + (if v & 0x40 != 0 then 1 else 0) + (if v & 0x80 != 0 then 1 else 0)
  }

  /** The number of bit positions in which two frames of one length differ. */
  function FlippedBits(f: seq<byte>, g: seq<byte>): nat
    requires |f| == |g|
  {
    if f == [] then 0 else Ones(Xor(Bits(f[0]), Bits(g[0]))) + FlippedBits(f[1..], g[1..])
  }

  lemma OnesOdd(v: bv8)
    ensures Ones(v) % 2 == (if Odd(v) == 1 then 1 else 0)
  {
  }

  // Parity by halving: each step is linear.

  function Shift4(i: bv8): bv8 {
    i >> 4
  }

  function Shift2(i: bv8): bv8 {
    i >> 2
  }

  function Shift1(i: bv8): bv8 {
    i >> 1
  }

  function Halve4(i: bv8): bv8 {
    Xor(i, Shift4(i))
  }

  function Halve2(i: bv8): bv8 {
    Xor(i, Shift2(i))
  }

  function Halve1(i: bv8): bv8 {
    Xor(i, Shift1(i))
  }

  function HalvedParity(i: bv8): bv8 {
    Halve1(Halve2(Halve4(i))) & 1
  }

  lemma OddByHalving(i: bv8)
    ensures Odd(i) == HalvedParity(i)
  {
  }

  lemma XorAssoc(a: bv8, b: bv8, c: bv8)
    ensures Xor(Xor(a, b), c) == Xor(a, Xor(b, c))
  {
  }

  lemma XorComm(a: bv8, b: bv8)
    ensures Xor(a, b) == Xor(b, a)
  {
  }

  lemma XorRegroup(a: bv8, b: bv8, c: bv8, d: bv8)
    ensures Xor(Xor(a, b), Xor(c, d)) == Xor(Xor(a, c), Xor(b, d))
  {
    hide Xor;
    XorAssoc(a, b, Xor(c, d));
    XorAssoc(b, c, d);
    XorComm(b, c);
    XorAssoc(c, b, d);
    XorAssoc(a, c, Xor(b, d));
  }

  lemma ShiftXor(a: bv8, b: bv8)
    ensures Shift4(Xor(a, b)) == Xor(Shift4(a), Shift4(b))
    ensures Shift2(Xor(a, b)) == Xor(Shift2(a), Shift2(b))
    ensures Shift1(Xor(a, b)) == Xor(Shift1(a), Shift1(b))
  {
  }

  lemma Halve4Xor(a: bv8, b: bv8)
    ensures Halve4(Xor(a, b)) == Xor(Halve4(a), Halve4(b))
  {
    hide Xor, Shift4;
    ShiftXor(a, b);
    XorRegroup(a, b, Shift4(a), Shift4(b));
  }

  lemma Halve2Xor(a: bv8, b: bv8)
    ensures Halve2(Xor(a, b)) == Xor(Halve2(a), Halve2(b))
  {
    hide Xor, Shift2;
    ShiftXor(a, b);
    XorRegroup(a, b, Shift2(a), Shift2(b));
  }

  lemma Halve1Xor(a: bv8, b: bv8)
    ensures Halve1(Xor(a, b)) == Xor(Halve1(a), Halve1(b))
  {
    hide Xor, Shift1;
    ShiftXor(a, b);
    XorRegroup(a, b, Shift1(a), Shift1(b));
  }

  lemma LastBitXor(a: bv8, b: bv8)
    ensures (Xor(a, b) & 1 == 1) == ((a & 1 == 1) != (b & 1 == 1))
  {
  }

  lemma OddXor(a: bv8, b: bv8)
    ensures (Odd(Xor(a, b)) == 1) == ((Odd(a) == 1) != (Odd(b) == 1))
  {
    hide Halve4, Halve2, Halve1, Odd, Xor;
    OddByHalving(a);
    OddByHalving(b);
    OddByHalving(Xor(a, b));
    Halve4Xor(a, b);
    Halve2Xor(Halve4(a), Halve4(b));
    Halve1Xor(Halve2(Halve4(a)), Halve2(Halve4(b)));
    LastBitXor(Halve1(Halve2(Halve4(a))), Halve1(Halve2(Halve4(b))));
  }

  predicate OddRegister(r: Halves) {
    (Odd(r.hi) == 1) != (Odd(r.lo) == 1)
  }

  /** The polynomial is divisible by x + 1: an octet moves its own parity into the register. */
  lemma AbsorbParity(r: Halves, v: bv8)
    ensures OddRegister(Absorb(r, v)) == (OddRegister(r) != (Odd(v) == 1))
  {
    hide FoldHi, FoldLo, Xor, Odd;
    FoldParity(Xor(r.hi, v));
    OddXor(r.hi, v);
    OddXor(r.lo, FoldHi(Xor(r.hi, v)));
  }

  lemma FoldParity(i: bv8)
    ensures ((Odd(FoldHi(i)) == 1) != (Odd(FoldLo(i)) == 1)) == (Odd(i) == 1)
  {
  }

  lemma {:induction false} ParityOfDifference(p: Halves, q: Halves, f: seq<byte>, g: seq<byte>)
    requires |f| == |g|
    ensures (OddRegister(Run(Absorb, p, f)) != OddRegister(Run(Absorb, q, g)))
            == ((OddRegister(p) != OddRegister(q)) != (FlippedBits(f, g) % 2 == 1))
    decreases |f|
  {
    hide Absorb, OddRegister, Odd, Ones, Xor;
    if f != [] {
      var v, w := Bits(f[0]), Bits(g[0]);
      AbsorbParity(p, v);
      AbsorbParity(q, w);
      OddXor(v, w);
      OnesOdd(Xor(v, w));
      ParityOfDifference(Absorb(p, v), Absorb(q, w), f[1..], g[1..]);
    }
  }

  /** No corruption that flips an odd number of bits goes unnoticed, for frames of every length. */
  lemma OddCorruptionDetected(f: seq<byte>, g: seq<byte>)
    requires |f| == |g| >= 2
    requires FlippedBits(f, g) % 2 == 1
    requires CrcMatches(f)
    ensures !CrcMatches(g)
  {
    hide Absorb, OddRegister;
    MatchIsZeroResidue(f);
    MatchIsZeroResidue(g);
    ParityOfDifference(PRESET, PRESET, f, g);
  }

  // ---------------------------------------------------------------------------------------------
  // Bursts of at most sixteen bits

  /** What an odd octet adds in `FoldLo`. */
  function OddMask(odd: bool): bv8 {
    if odd then 0xC0 else 0
  }

  /** `FoldLo` with the parity given. */
  function Spread(v: bv8, odd: bool): bv8 {
    Xor(Xor(Shift2(v), Shift1(v)), OddMask(odd))
  }

  lemma OddMaskXor(p: bool, q: bool)
    ensures OddMask(p != q) == Xor(OddMask(p), OddMask(q))
  {
  }

  lemma SpreadXor(a: bv8, oddA: bool, b: bv8, oddB: bool)
    ensures Spread(Xor(a, b), oddA != oddB) == Xor(Spread(a, oddA), Spread(b, oddB))
  {
    hide Xor, Shift2, Shift1, OddMask;
    ShiftXor(a, b);
    OddMaskXor(oddA, oddB);
    XorRegroup(Shift2(a), Shift2(b), Shift1(a), Shift1(b));
    XorRegroup(Xor(Shift2(a), Shift1(a)), Xor(Shift2(b), Shift1(b)), OddMask(oddA), OddMask(oddB));
  }

  lemma FoldLoSpreads(v: bv8)
    ensures FoldLo(v) == Spread(v, Odd(v) == 1)
  {
    hide Odd;
  }

  lemma FoldLoXor(a: bv8, b: bv8)
    ensures FoldLo(Xor(a, b)) == Xor(FoldLo(a), FoldLo(b))
  {
    hide Odd, Xor, FoldLo, Spread;
    OddXor(a, b);
    SpreadXor(a, Odd(a) == 1, b, Odd(b) == 1);
    FoldLoSpreads(a);
    FoldLoSpreads(b);
    FoldLoSpreads(Xor(a, b));
  }

  /** The difference between the first octets of a burst and that between the last, when sixteen bits in a row, low
      bit first as they are sent, hold all that is altered in three octets. */
  predicate BurstEnds(first: bv8, last: bv8) {
    || last == 0 || first == 0
    || (first & 0x01 == 0 && last & 0xFE == 0) || (first & 0x03 == 0 && last & 0xFC == 0)
    || (first & 0x07 == 0 && last & 0xF8 == 0) || (first & 0x0F == 0 && last & 0xF0 == 0)
    || (first & 0x1F == 0 && last & 0xE0 == 0) || (first & 0x3F == 0 && last & 0xC0 == 0)
    || (first & 0x7F == 0 && last & 0x80 == 0)
  }

  /** No multiple of the polynomial is as short as a burst. */
  lemma NoShortMultiple(e: bv8)
    requires BurstEnds(e, FoldLo(e))
    ensures e == 0
  {
  }

  /** `g` is `f` but for a burst that begins in octet `i`. */
  ghost predicate DiffersInBurst(f: seq<byte>, g: seq<byte>, i: nat) {
    && |f| == |g| && i + 3 <= |f|
    && f[..i] == g[..i] && f[i + 3..] == g[i + 3..]
    && BurstEnds(Xor(Bits(f[i]), Bits(g[i])), Xor(Bits(f[i + 2]), Bits(g[i + 2])))
  }

  lemma XorTwice(a: bv8, b: bv8, c: bv8)
    ensures Xor(Xor(a, b), Xor(a, c)) == Xor(b, c)
  {
  }

  lemma XorMoves(a: bv8, b: bv8, c: bv8, d: bv8)
    requires Xor(a, b) == Xor(c, d)
    ensures Xor(a, c) == Xor(b, d)
  {
  }

  /** When three octets leave the same register, what differs in the last is fixed by what differs in the first. */
  lemma LastFromFirst(r: Halves, x: bv8, y: bv8, z: bv8, x': bv8, y': bv8, z': bv8)
    requires Absorb(Absorb(Absorb(r, x), y), z) == Absorb(Absorb(Absorb(r, x'), y'), z')
    ensures Xor(z, z') == FoldLo(Xor(x, x'))
  {
    var p, q := Absorb(r, x), Absorb(r, x');
    var p', q' := Absorb(p, y), Absorb(q, y');
    hide FoldHi, FoldLo, Xor;
    SameLo(p', q', z, z');
    XorCancel(FoldHi(Xor(p'.hi, z)), p'.lo, q'.lo);
    SameLo(p, q, y, y');
    XorMoves(p'.hi, z, q'.hi, z');
    XorComm(FoldHi(Xor(p.hi, y)), p.lo);
    XorComm(FoldHi(Xor(q.hi, y')), q.lo);
    XorTwice(FoldHi(Xor(p.hi, y)), p.lo, q.lo);
    FoldLoXor(Xor(r.hi, x), Xor(r.hi, x'));
    XorTwice(r.hi, x, x');
  }

  lemma BurstInjective(r: Halves, x: bv8, y: bv8, z: bv8, x': bv8, y': bv8, z': bv8)
    requires Absorb(Absorb(Absorb(r, x), y), z) == Absorb(Absorb(Absorb(r, x'), y'), z')
    requires BurstEnds(Xor(x, x'), Xor(z, z'))
    ensures x == x' && y == y' && z == z'
  {
    hide Absorb, FoldHi, FoldLo, Xor, BurstEnds;
    LastFromFirst(r, x, y, z, x', y', z');
    NoShortMultiple(Xor(x, x'));
    XorZero(x, x');
    TwoOctetsInjective(Absorb(r, x), y, z, y', z');
  }

  /** No burst of at most sixteen bits goes unnoticed, at whatever bit of the frame it begins. */
  lemma BurstDetected(f: seq<byte>, g: seq<byte>, i: nat)
    requires DiffersInBurst(f, g, i) && f != g
    requires CrcMatches(f)
    ensures !CrcMatches(g)
  {
    hide Absorb, BurstEnds, Xor;
    MatchIsZeroResidue(f);
    MatchIsZeroResidue(g);
    var r := Register(f[..i]);
    SplitThree(f, i);
    SplitThree(g, i);
    var p := Absorb(Absorb(Absorb(r, Bits(f[i])), Bits(f[i + 1])), Bits(f[i + 2]));
    var q := Absorb(Absorb(Absorb(r, Bits(g[i])), Bits(g[i + 1])), Bits(g[i + 2]));
    if p == q {
      BurstInjective(r, Bits(f[i]), Bits(f[i + 1]), Bits(f[i + 2]), Bits(g[i]), Bits(g[i + 1]), Bits(g[i + 2]));
      SameOctet(f[i], g[i]);
      SameOctet(f[i + 1], g[i + 1]);
      SameOctet(f[i + 2], g[i + 2]);
      SameThree(f, g, i);
      assert false;
    }
    StaysApart(p, q, f[i + 3..]);
  }

  lemma SameOctet(a: byte, b: byte)
    requires Bits(a) == Bits(b)
    ensures a == b
  {
    OctetOfBits(a);
    OctetOfBits(b);
  }

  lemma SameThree(f: seq<byte>, g: seq<byte>, i: nat)
    requires |f| == |g| && i + 3 <= |f| && f[..i] == g[..i] && f[i + 3..] == g[i + 3..]
    requires f[i] == g[i] && f[i + 1] == g[i + 1] && f[i + 2] == g[i + 2]
    ensures f == g
  {
    assert f == f[..i] + [f[i], f[i + 1], f[i + 2]] + f[i + 3..];
    assert g == g[..i] + [g[i], g[i + 1], g[i + 2]] + g[i + 3..];
  }

  lemma SplitThree(f: seq<byte>, i: nat)
    requires i + 3 <= |f|
    ensures var p := Absorb(Absorb(Absorb(Register(f[..i]), Bits(f[i])), Bits(f[i + 1])), Bits(f[i + 2]));
            Register(f) == Run(Absorb, p, f[i + 3..])
  {
    hide Absorb;
    SplitRun(f, i);
    assert f[i + 2..][0] == f[i + 2] && f[i + 2..][1..] == f[i + 3..];
  }
}
