/** Two flipped bits and the CRC of an RTU frame: they cancel out only if they lie further apart than the longest frame
    is long. */
module CrcTwoBits {
  import opened Bytes
  import opened Crc
  import opened CrcDetection

  /** The longest RTU frame. */
  const MAX_FRAME := 256

  // ---------------------------------------------------------------------------------------------
  // What a flipped bit becomes in the register, while nothing else differs

  predicate Single(v: bv8) {
    v == 0x01 || v == 0x02 || v == 0x04 || v == 0x08 || v == 0x10 || v == 0x20 || v == 0x40 || v == 0x80
  }

  /** The register holds one bit, in the half that the next octet is added to. */
  predicate Lone(r: Halves) {
    r.lo == 0 && Single(r.hi)
  }

  function Zeros(r: Halves, n: nat): Halves
    decreases n
  {
    if n == 0 then r else Zeros(Absorb(r, 0), n - 1)
  }

  /** Absorbing `n` octets of zero leads from `r` to `s`, and no register on the way is lone. */
  predicate Leads(r: Halves, s: Halves, n: nat)
    decreases n
  {
    if n == 0 then r == s else !Lone(r) && Leads(Absorb(r, 0), s, n - 1)
  }

  lemma {:induction false} LeadsOn(r: Halves, s: Halves, t: Halves, m: nat, n: nat)
    requires Leads(r, s, m) && Leads(s, t, n)
    ensures Leads(r, t, m + n)
    decreases m
  {
    hide Absorb, Lone;
    if m != 0 {
      LeadsOn(Absorb(r, 0), s, t, m - 1, n);
    }
  }

  lemma {:induction false} NotLoneOnTheWay(r: Halves, s: Halves, n: nat, k: nat)
    requires Leads(r, s, n) && k < n
    ensures !Lone(Zeros(r, k))
    decreases n
  {
    hide Absorb, Lone;
    if k != 0 {
      NotLoneOnTheWay(Absorb(r, 0), s, n - 1, k - 1);
    }
  }

  lemma Leg(a: Halves, b: Halves, c: Halves, d: Halves, e: Halves)
    requires Leads(a, b, 8) && Leads(b, c, 8) && Leads(c, d, 8) && Leads(d, e, 8)
    ensures Leads(a, e, 32)
  {
    hide Leads;
    LeadsOn(a, b, c, 8, 8);
    LeadsOn(a, c, d, 16, 8);
    LeadsOn(a, d, e, 24, 8);
  }

  // The way from the lowest bit, eight octets at a time.

  lemma FirstLinks()
    ensures Leads(Halves(0xC1, 0xC0), Halves(0x0D, 0x90), 8)
    ensures Leads(Halves(0x0D, 0x90), Halves(0x51, 0x90), 8)
    ensures Leads(Halves(0x51, 0x90), Halves(0x54, 0xF9), 8)
    ensures Leads(Halves(0x54, 0xF9), Halves(0x6D, 0xC0), 8)
  {
  }

  lemma SecondLinks()
    ensures Leads(Halves(0x6D, 0xC0), Halves(0x07, 0xBD), 8)
    ensures Leads(Halves(0x07, 0xBD), Halves(0x2C, 0xED), 8)
    ensures Leads(Halves(0x2C, 0xED), Halves(0x3F, 0x43), 8)
    ensures Leads(Halves(0x3F, 0x43), Halves(0x31, 0x90), 8)
  {
  }

  lemma ThirdLinks()
    ensures Leads(Halves(0x31, 0x90), Halves(0x52, 0xD1), 8)
    ensures Leads(Halves(0x52, 0xD1), Halves(0x45, 0xE8), 8)
    ensures Leads(Halves(0x45, 0xE8), Halves(0xAC, 0x01), 8)
    ensures Leads(Halves(0xAC, 0x01), Halves(0x1A, 0xED), 8)
  {
  }

  lemma FourthLinks()
    ensures Leads(Halves(0x1A, 0xED), Halves(0xBC, 0x7D), 8)
    ensures Leads(Halves(0xBC, 0x7D), Halves(0xA6, 0x26), 8)
    ensures Leads(Halves(0xA6, 0x26), Halves(0xCD, 0x90), 8)
    ensures Leads(Halves(0xCD, 0x90), Halves(0x5D, 0xC0), 8)
  {
  }

  lemma FifthLinks()
    ensures Leads(Halves(0x5D, 0xC0), Halves(0x04, 0xA9), 8)
    ensures Leads(Halves(0x04, 0xA9), Halves(0x38, 0xF9), 8)
    ensures Leads(Halves(0x38, 0xF9), Halves(0x6B, 0xBD), 8)
    ensures Leads(Halves(0x6B, 0xBD), Halves(0x2A, 0x90), 8)
  {
  }

  lemma SixthLinks()
    ensures Leads(Halves(0x2A, 0x90), Halves(0x12, 0x6E), 8)
    ensures Leads(Halves(0x12, 0x6E), Halves(0x0F, 0x13), 8)
    ensures Leads(Halves(0x0F, 0x13), Halves(0x62, 0x81), 8)
    ensures Leads(Halves(0x62, 0x81), Halves(0x16, 0xF9), 8)
  {
  }

  lemma SeventhLinks()
    ensures Leads(Halves(0x16, 0xF9), Halves(0xE8, 0x29), 8)
    ensures Leads(Halves(0xE8, 0x29), Halves(0xB7, 0x2C), 8)
    ensures Leads(Halves(0xB7, 0x2C), Halves(0xA7, 0x50), 8)
    ensures Leads(Halves(0xA7, 0x50), Halves(0x1B, 0x9B), 8)
  {
  }

  lemma EighthLinks()
    ensures Leads(Halves(0x1B, 0x9B), Halves(0x6A, 0x76), 8)
    ensures Leads(Halves(0x6A, 0x76), Halves(0x91, 0x90), 8)
    ensures Leads(Halves(0x91, 0x90), Halves(0x58, 0xA9), 8)
    ensures Leads(Halves(0x58, 0xA9), Halves(0x3D, 0x90), 8)
  {
  }

  lemma LowestBitLeads()
    ensures Absorb(Halves(0x01, 0), 0) == Halves(0xC1, 0xC0)
    ensures Leads(Halves(0xC1, 0xC0), Halves(0x3D, 0x90), MAX_FRAME)
  {
    hide Leads;
    FirstLinks();
    Leg(Halves(0xC1, 0xC0), Halves(0x0D, 0x90), Halves(0x51, 0x90),
        Halves(0x54, 0xF9), Halves(0x6D, 0xC0));
    SecondLinks();
    Leg(Halves(0x6D, 0xC0), Halves(0x07, 0xBD), Halves(0x2C, 0xED),
        Halves(0x3F, 0x43), Halves(0x31, 0x90));
    LeadsOn(Halves(0xC1, 0xC0), Halves(0x6D, 0xC0), Halves(0x31, 0x90), 32, 32);
    ThirdLinks();
    Leg(Halves(0x31, 0x90), Halves(0x52, 0xD1), Halves(0x45, 0xE8),
        Halves(0xAC, 0x01), Halves(0x1A, 0xED));
    LeadsOn(Halves(0xC1, 0xC0), Halves(0x31, 0x90), Halves(0x1A, 0xED), 64, 32);
    FourthLinks();
    Leg(Halves(0x1A, 0xED), Halves(0xBC, 0x7D), Halves(0xA6, 0x26),
        Halves(0xCD, 0x90), Halves(0x5D, 0xC0));
    LeadsOn(Halves(0xC1, 0xC0), Halves(0x1A, 0xED), Halves(0x5D, 0xC0), 96, 32);
    FifthLinks();
    Leg(Halves(0x5D, 0xC0), Halves(0x04, 0xA9), Halves(0x38, 0xF9),
        Halves(0x6B, 0xBD), Halves(0x2A, 0x90));
    LeadsOn(Halves(0xC1, 0xC0), Halves(0x5D, 0xC0), Halves(0x2A, 0x90), 128, 32);
    SixthLinks();
    Leg(Halves(0x2A, 0x90), Halves(0x12, 0x6E), Halves(0x0F, 0x13),
        Halves(0x62, 0x81), Halves(0x16, 0xF9));
    LeadsOn(Halves(0xC1, 0xC0), Halves(0x2A, 0x90), Halves(0x16, 0xF9), 160, 32);
    SeventhLinks();
    Leg(Halves(0x16, 0xF9), Halves(0xE8, 0x29), Halves(0xB7, 0x2C),
        Halves(0xA7, 0x50), Halves(0x1B, 0x9B));
    LeadsOn(Halves(0xC1, 0xC0), Halves(0x16, 0xF9), Halves(0x1B, 0x9B), 192, 32);
    EighthLinks();
    Leg(Halves(0x1B, 0x9B), Halves(0x6A, 0x76), Halves(0x91, 0x90),
        Halves(0x58, 0xA9), Halves(0x3D, 0x90));
    LeadsOn(Halves(0xC1, 0xC0), Halves(0x1B, 0x9B), Halves(0x3D, 0x90), 224, 32);
  }

  lemma LowestBitNeverLone(m: nat)
    requires 1 <= m <= MAX_FRAME
    ensures !Lone(Zeros(Halves(0x01, 0), m))
  {
    LowestBitLeads();
    hide Absorb, Lone, Leads;
    NotLoneOnTheWay(Halves(0xC1, 0xC0), Halves(0x3D, 0x90), MAX_FRAME, m - 1);
  }

  // ---------------------------------------------------------------------------------------------
  // From the lowest bit to the others, step by step

  lemma {:induction false} StepsAdd(r: bv16, m: nat, n: nat)
    ensures Steps(r, m + n) == Steps(Steps(r, m), n)
    decreases m
  {
    hide BitStep;
    if m != 0 {
      StepsAdd(BitStep(r), m - 1, n);
    }
  }

  lemma StepInjective(a: bv16, b: bv16)
    requires BitStep(a) == BitStep(b)
    ensures a == b
  {
  }

  lemma {:induction false} StepsInjective(a: bv16, b: bv16, n: nat)
    requires Steps(a, n) == Steps(b, n)
    ensures a == b
    decreases n
  {
    hide BitStep;
    if n != 0 {
      StepsInjective(BitStep(a), BitStep(b), n - 1);
      StepInjective(a, b);
    }
  }

  lemma MixInZero(r: bv16)
    ensures MixIn(r, 0) == r
  {
  }

  lemma {:induction false} ZerosAreSteps(r: Halves, n: nat)
    ensures Joined(Zeros(r, n)) == Steps(Joined(r), 8 * n)
    decreases n
  {
    hide Absorb, Joined, BitStep, EightSteps, MixIn;
    if n != 0 {
      AbsorbIsBitwise(r, 0);
      MixInZero(Joined(r));
      EightStepsAre(Joined(r));
      ZerosAreSteps(Absorb(r, 0), n - 1);
      StepsAdd(Joined(r), 8, 8 * (n - 1));
    }
  }

  /** Bit `n` of the half that the next octet is added to. */
  function One(n: nat): bv16
    requires n < 8
  {
    match n
    case 0 => 0x01
    case 1 => 0x02
    case 2 => 0x04
    case 3 => 0x08
    case 4 => 0x10
    case 5 => 0x20
    case 6 => 0x40
    case _ => 0x80
  }

  lemma OneStep(n: nat)
    requires 1 <= n < 8
    ensures BitStep(One(n)) == One(n - 1)
  {
  }

  lemma {:induction false} OneSteps(n: nat, k: nat)
    requires k <= n < 8
    ensures Steps(One(n), k) == One(n - k)
    decreases k
  {
    hide BitStep, One;
    if k != 0 {
      OneStep(n);
      OneSteps(n - 1, k - 1);
    }
  }

  lemma LoneIff(r: Halves)
    ensures Lone(r) <==> exists n: nat | n < 8 :: Joined(r) == One(n)
  {
    if Lone(r) {
      WhichBit(r);
    }
    if n: nat :| n < 8 && Joined(r) == One(n) {
      JoinedOne(r, n);
    }
  }

  lemma WhichBit(r: Halves)
    requires Lone(r)
    ensures exists n: nat | n < 8 :: Joined(r) == One(n)
  {
    if r.hi == 0x01 { assert Joined(r) == One(0); }
    if r.hi == 0x02 { assert Joined(r) == One(1); }
    if r.hi == 0x04 { assert Joined(r) == One(2); }
    if r.hi == 0x08 { assert Joined(r) == One(3); }
    if r.hi == 0x10 { assert Joined(r) == One(4); }
    if r.hi == 0x20 { assert Joined(r) == One(5); }
    if r.hi == 0x40 { assert Joined(r) == One(6); }
    if r.hi == 0x80 { assert Joined(r) == One(7); }
  }

  lemma JoinedOne(r: Halves, n: nat)
    requires n < 8 && Joined(r) == One(n)
    ensures Lone(r)
  {
  }

  /** No number of octets up to the length of a frame takes the lowest bit to another bit of the same half, nor back
      to itself. */
  lemma LowestBitGoesElsewhere(m: nat, j: nat)
    requires m <= MAX_FRAME && j < 8 && (m == 0 ==> j != 0)
    ensures Steps(One(0), 8 * m) != One(j)
  {
    var r := Halves(0x01, 0);
    assert Joined(r) == One(0);
    if m == 0 {
      assert One(0) != One(j);
    } else {
      hide Joined, Lone, One;
      ZerosAreSteps(r, m);
      LoneIff(Zeros(r, m));
      LowestBitNeverLone(m);
    }
  }

  /** Nor does it so with any other bit. */
  lemma BitGoesElsewhere(s: nat, m: nat, t: nat)
    requires s < 8 && t < 8 && 1 <= m <= MAX_FRAME
    ensures Steps(One(s), 8 * m) != One(t)
  {
    hide One, BitStep, Steps;
    if Steps(One(s), 8 * m) == One(t) {
      var d := if s <= t then s else t;
      StepsAdd(One(s), 8 * m, d);
      StepsAdd(One(s), d, 8 * m);
      OneSteps(s, d);
      OneSteps(t, d);
      assert Steps(One(s - d), 8 * m) == One(t - d);
      if s <= t {
        LowestBitGoesElsewhere(m, t - s);
      } else {
        var up := s - t;
        OneSteps(up, up);
        StepsAdd(One(up), up, 8 * m - up);
        StepsAdd(One(0), 8 * (m - 1), 8 - up);
        OneSteps(8 - up, 8 - up);
        StepsInjective(Steps(One(0), 8 * (m - 1)), One(8 - up), 8 - up);
        LowestBitGoesElsewhere(m - 1, 8 - up);
      }
    }
  }

  lemma AbsorbedBit(e: bv8)
    requires Single(e)
    ensures exists s: nat | s < 8 :: InLow(e) == One(s)
    ensures Joined(Absorb(ZERO, e)) == Steps(InLow(e), 8)
  {
    AbsorbIsBitwise(ZERO, e);
    assert MixIn(Joined(ZERO), e) == InLow(e);
    EightStepsAre(InLow(e));
    hide Absorb, Joined, MixIn, EightSteps, Steps;
    WhichBit(Halves(e, 0));
    JoinedIs(Halves(e, 0));
    assert Xor16(InLow(e), InHigh(0)) == InLow(e);
  }

  /** One flipped bit never leaves the register lone, for as many octets as a frame can hold behind it. */
  lemma FlippedBitNeverLone(e: bv8, k: nat)
    requires Single(e) && k < MAX_FRAME
    ensures !Lone(Zeros(Absorb(ZERO, e), k))
  {
    hide Absorb, Joined, Lone, Single, One, Steps, Zeros, InLow;
    AbsorbedBit(e);
    var s: nat :| s < 8 && InLow(e) == One(s);
    ZerosAreSteps(Absorb(ZERO, e), k);
    StepsAdd(One(s), 8, 8 * k);
    LoneIff(Zeros(Absorb(ZERO, e), k));
    if Lone(Zeros(Absorb(ZERO, e), k)) {
      var t: nat :| t < 8 && Joined(Zeros(Absorb(ZERO, e), k)) == One(t);
      BitGoesElsewhere(s, k + 1, t);
    }
  }

  // ---------------------------------------------------------------------------------------------
  // The difference between two registers is driven by the difference between two messages

  function Left6(v: bv8): bv8 {
    v << 6
  }

  function Left7(v: bv8): bv8 {
    v << 7
  }

  function OddBit(odd: bool): bv8 {
    if odd then 1 else 0
  }

  function SpreadLeft(v: bv8, odd: bool): bv8 {
    Xor(Xor(Left6(v), Left7(v)), OddBit(odd))
  }

  lemma LeftXor(a: bv8, b: bv8)
    ensures Left6(Xor(a, b)) == Xor(Left6(a), Left6(b))
    ensures Left7(Xor(a, b)) == Xor(Left7(a), Left7(b))
  {
  }

  lemma OddBitXor(p: bool, q: bool)
    ensures OddBit(p != q) == Xor(OddBit(p), OddBit(q))
  {
  }

  lemma FoldHiSpreads(v: bv8)
    ensures FoldHi(v) == SpreadLeft(v, Odd(v) == 1)
  {
  }

  lemma FoldHiXor(a: bv8, b: bv8)
    ensures FoldHi(Xor(a, b)) == Xor(FoldHi(a), FoldHi(b))
  {
    hide Odd, Xor, FoldHi, Left6, Left7, OddBit;
    OddXor(a, b);
    FoldHiSpreads(a);
    FoldHiSpreads(b);
    FoldHiSpreads(Xor(a, b));
    LeftXor(a, b);
    OddBitXor(Odd(a) == 1, Odd(b) == 1);
    XorRegroup(Left6(a), Left6(b), Left7(a), Left7(b));
    XorRegroup(Xor(Left6(a), Left7(a)), Xor(Left6(b), Left7(b)), OddBit(Odd(a) == 1), OddBit(Odd(b) == 1));
  }

  function Difference(p: Halves, q: Halves): Halves {
    Halves(Xor(p.hi, q.hi), Xor(p.lo, q.lo))
  }

  lemma NoDifference(p: Halves, q: Halves)
    ensures Difference(p, q) == ZERO <==> p == q
  {
    hide Xor;
    XorZero(p.hi, q.hi);
    XorZero(p.lo, q.lo);
  }

  lemma AbsorbDifference(p: Halves, q: Halves, v: bv8, w: bv8)
    ensures Difference(Absorb(p, v), Absorb(q, w)) == Absorb(Difference(p, q), Xor(v, w))
  {
    hide Xor, FoldHi, FoldLo;
    var i, j := Xor(p.hi, v), Xor(q.hi, w);
    XorRegroup(p.hi, v, q.hi, w);
    FoldLoXor(i, j);
    FoldHiXor(i, j);
    XorRegroup(p.lo, FoldHi(i), q.lo, FoldHi(j));
  }

  lemma {:induction false} ZerosOneMore(r: Halves, n: nat)
    ensures Absorb(Zeros(r, n), 0) == Zeros(r, n + 1)
    decreases n
  {
    hide Absorb;
    if n != 0 {
      ZerosOneMore(Absorb(r, 0), n - 1);
    }
  }

  // ---------------------------------------------------------------------------------------------
  // Two frames

  lemma OnesCount(v: bv8)
    ensures Ones(v) == 0 <==> v == 0
    ensures Ones(v) == 1 <==> Single(v)
  {
  }

  lemma {:induction false} NoneFlipped(f: seq<byte>, g: seq<byte>)
    requires |f| == |g| && FlippedBits(f, g) == 0
    ensures f == g
    decreases |f|
  {
    if f != [] {
      hide Ones, Xor;
      OnesCount(Xor(Bits(f[0]), Bits(g[0])));
      XorZero(Bits(f[0]), Bits(g[0]));
      SameOctet(f[0], g[0]);
      NoneFlipped(f[1..], g[1..]);
      assert f == [f[0]] + f[1..] && g == [g[0]] + g[1..];
    }
  }

  /** Registers that differ in what became of a flipped bit still differ after another, anywhere in what is left of the
      frame. */
  lemma {:induction false} SecondFlip(p: Halves, q: Halves, f: seq<byte>, g: seq<byte>, e: bv8, k: nat)
    requires Single(e) && Difference(p, q) == Zeros(Absorb(ZERO, e), k)
    requires |f| == |g| && k + |f| <= MAX_FRAME && FlippedBits(f, g) == 1
    ensures Run(Absorb, p, f) != Run(Absorb, q, g)
    decreases |f|
  {
    hide Absorb, Ones, Xor, Difference, Single, Lone, Zeros;
    var v, w := Bits(f[0]), Bits(g[0]);
    var x := Xor(v, w);
    OnesCount(x);
    AbsorbDifference(p, q, v, w);
    if Ones(x) == 0 {
      ZerosOneMore(Absorb(ZERO, e), k);
      SecondFlip(Absorb(p, v), Absorb(q, w), f[1..], g[1..], e, k + 1);
    } else {
      NoneFlipped(f[1..], g[1..]);
      FlippedBitNeverLone(e, k);
      NotAbsorbed(Difference(p, q), x);
      NoDifference(Absorb(p, v), Absorb(q, w));
      StaysApart(Absorb(p, v), Absorb(q, w), f[1..]);
    }
  }

  lemma NotAbsorbed(r: Halves, x: bv8)
    requires !Lone(r) && Single(x)
    ensures Absorb(r, x) != ZERO
  {
    hide Absorb, Single;
    LoZero(r, x);
  }

  lemma {:induction false} TwoFlips(r: Halves, f: seq<byte>, g: seq<byte>)
    requires |f| == |g| <= MAX_FRAME && FlippedBits(f, g) == 2
    ensures Run(Absorb, r, f) != Run(Absorb, r, g)
    decreases |f|
  {
    hide Absorb, Ones, Xor, Difference, Single;
    var v, w := Bits(f[0]), Bits(g[0]);
    var x := Xor(v, w);
    OnesCount(x);
    XorZero(v, w);
    if Ones(x) == 0 {
      TwoFlips(Absorb(r, v), f[1..], g[1..]);
    } else {
      NoDifference(r, r);
      AbsorbDifference(r, r, v, w);
      NoDifference(Absorb(r, v), Absorb(r, w));
      if Ones(x) == 1 {
        SecondFlip(Absorb(r, v), Absorb(r, w), f[1..], g[1..], x, 0);
      } else {
        NoneFlipped(f[1..], g[1..]);
        LoZero(ZERO, x);
        StaysApart(Absorb(r, v), Absorb(r, w), f[1..]);
      }
    }
  }

  /** No two flipped bits go unnoticed, wherever they lie in a frame. */
  lemma TwoBitsDetected(f: seq<byte>, g: seq<byte>)
    requires 2 <= |f| == |g| <= MAX_FRAME && FlippedBits(f, g) == 2
    requires CrcMatches(f)
    ensures !CrcMatches(g)
  {
    hide Absorb, CrcMatches, FlippedBits;
    MatchIsZeroResidue(f);
    MatchIsZeroResidue(g);
    TwoFlips(PRESET, f, g);
  }
}
