/** The CRC of MODBUS over serial line (section 6.2.2 of that standard): the two-table loop of
    modbus-rtu.c and the bit-by-bit reflected CRC it stands for. */
module Crc {
  import opened Bytes

  const TABLE_CRC_HI: seq<seq<bv8>> := [
    [0x00, 0xC1, 0x81, 0x40, 0x01, 0xC0, 0x80, 0x41, 0x01, 0xC0, 0x80, 0x41, 0x00, 0xC1, 0x81, 0x40],
    [0x01, 0xC0, 0x80, 0x41, 0x00, 0xC1, 0x81, 0x40, 0x00, 0xC1, 0x81, 0x40, 0x01, 0xC0, 0x80, 0x41],
    [0x01, 0xC0, 0x80, 0x41, 0x00, 0xC1, 0x81, 0x40, 0x00, 0xC1, 0x81, 0x40, 0x01, 0xC0, 0x80, 0x41],
    [0x00, 0xC1, 0x81, 0x40, 0x01, 0xC0, 0x80, 0x41, 0x01, 0xC0, 0x80, 0x41, 0x00, 0xC1, 0x81, 0x40],
    [0x01, 0xC0, 0x80, 0x41, 0x00, 0xC1, 0x81, 0x40, 0x00, 0xC1, 0x81, 0x40, 0x01, 0xC0, 0x80, 0x41],
    [0x00, 0xC1, 0x81, 0x40, 0x01, 0xC0, 0x80, 0x41, 0x01, 0xC0, 0x80, 0x41, 0x00, 0xC1, 0x81, 0x40],
    [0x00, 0xC1, 0x81, 0x40, 0x01, 0xC0, 0x80, 0x41, 0x01, 0xC0, 0x80, 0x41, 0x00, 0xC1, 0x81, 0x40],
    [0x01, 0xC0, 0x80, 0x41, 0x00, 0xC1, 0x81, 0x40, 0x00, 0xC1, 0x81, 0x40, 0x01, 0xC0, 0x80, 0x41],
    [0x01, 0xC0, 0x80, 0x41, 0x00, 0xC1, 0x81, 0x40, 0x00, 0xC1, 0x81, 0x40, 0x01, 0xC0, 0x80, 0x41],
    [0x00, 0xC1, 0x81, 0x40, 0x01, 0xC0, 0x80, 0x41, 0x01, 0xC0, 0x80, 0x41, 0x00, 0xC1, 0x81, 0x40],
    [0x00, 0xC1, 0x81, 0x40, 0x01, 0xC0, 0x80, 0x41, 0x01, 0xC0, 0x80, 0x41, 0x00, 0xC1, 0x81, 0x40],
    [0x01, 0xC0, 0x80, 0x41, 0x00, 0xC1, 0x81, 0x40, 0x00, 0xC1, 0x81, 0x40, 0x01, 0xC0, 0x80, 0x41],
    [0x00, 0xC1, 0x81, 0x40, 0x01, 0xC0, 0x80, 0x41, 0x01, 0xC0, 0x80, 0x41, 0x00, 0xC1, 0x81, 0x40],
    [0x01, 0xC0, 0x80, 0x41, 0x00, 0xC1, 0x81, 0x40, 0x00, 0xC1, 0x81, 0x40, 0x01, 0xC0, 0x80, 0x41],
    [0x01, 0xC0, 0x80, 0x41, 0x00, 0xC1, 0x81, 0x40, 0x00, 0xC1, 0x81, 0x40, 0x01, 0xC0, 0x80, 0x41],
    [0x00, 0xC1, 0x81, 0x40, 0x01, 0xC0, 0x80, 0x41, 0x01, 0xC0, 0x80, 0x41, 0x00, 0xC1, 0x81, 0x40]
  ]

  const TABLE_CRC_LO: seq<seq<bv8>> := [
    [0x00, 0xC0, 0xC1, 0x01, 0xC3, 0x03, 0x02, 0xC2, 0xC6, 0x06, 0x07, 0xC7, 0x05, 0xC5, 0xC4, 0x04],
    [0xCC, 0x0C, 0x0D, 0xCD, 0x0F, 0xCF, 0xCE, 0x0E, 0x0A, 0xCA, 0xCB, 0x0B, 0xC9, 0x09, 0x08, 0xC8],
    [0xD8, 0x18, 0x19, 0xD9, 0x1B, 0xDB, 0xDA, 0x1A, 0x1E, 0xDE, 0xDF, 0x1F, 0xDD, 0x1D, 0x1C, 0xDC],
    [0x14, 0xD4, 0xD5, 0x15, 0xD7, 0x17, 0x16, 0xD6, 0xD2, 0x12, 0x13, 0xD3, 0x11, 0xD1, 0xD0, 0x10],
    [0xF0, 0x30, 0x31, 0xF1, 0x33, 0xF3, 0xF2, 0x32, 0x36, 0xF6, 0xF7, 0x37, 0xF5, 0x35, 0x34, 0xF4],
    [0x3C, 0xFC, 0xFD, 0x3D, 0xFF, 0x3F, 0x3E, 0xFE, 0xFA, 0x3A, 0x3B, 0xFB, 0x39, 0xF9, 0xF8, 0x38],
    [0x28, 0xE8, 0xE9, 0x29, 0xEB, 0x2B, 0x2A, 0xEA, 0xEE, 0x2E, 0x2F, 0xEF, 0x2D, 0xED, 0xEC, 0x2C],
    [0xE4, 0x24, 0x25, 0xE5, 0x27, 0xE7, 0xE6, 0x26, 0x22, 0xE2, 0xE3, 0x23, 0xE1, 0x21, 0x20, 0xE0],
    [0xA0, 0x60, 0x61, 0xA1, 0x63, 0xA3, 0xA2, 0x62, 0x66, 0xA6, 0xA7, 0x67, 0xA5, 0x65, 0x64, 0xA4],
    [0x6C, 0xAC, 0xAD, 0x6D, 0xAF, 0x6F, 0x6E, 0xAE, 0xAA, 0x6A, 0x6B, 0xAB, 0x69, 0xA9, 0xA8, 0x68],
    [0x78, 0xB8, 0xB9, 0x79, 0xBB, 0x7B, 0x7A, 0xBA, 0xBE, 0x7E, 0x7F, 0xBF, 0x7D, 0xBD, 0xBC, 0x7C],
    [0xB4, 0x74, 0x75, 0xB5, 0x77, 0xB7, 0xB6, 0x76, 0x72, 0xB2, 0xB3, 0x73, 0xB1, 0x71, 0x70, 0xB0],
    [0x50, 0x90, 0x91, 0x51, 0x93, 0x53, 0x52, 0x92, 0x96, 0x56, 0x57, 0x97, 0x55, 0x95, 0x94, 0x54],
    [0x9C, 0x5C, 0x5D, 0x9D, 0x5F, 0x9F, 0x9E, 0x5E, 0x5A, 0x9A, 0x9B, 0x5B, 0x99, 0x59, 0x58, 0x98],
    [0x88, 0x48, 0x49, 0x89, 0x4B, 0x8B, 0x8A, 0x4A, 0x4E, 0x8E, 0x8F, 0x4F, 0x8D, 0x4D, 0x4C, 0x8C],
    [0x44, 0x84, 0x85, 0x45, 0x87, 0x47, 0x46, 0x86, 0x82, 0x42, 0x43, 0x83, 0x41, 0x81, 0x80, 0x40]
  ]
  // ---------------------------------------------------------------------------------------------
  // Octets as integers and as bit vectors.  Both maps count, so that a proof meets no conversion
  // between integers and bit vectors unless it asks for one.

  function Bits(b: byte): bv8
    decreases b
  {
    if b == 0 then 0 else Bits(b - 1) + 1
  }

  function Octet(v: bv8): byte
    ensures Octet(v) == v as int
    decreases v
  {
    if v == 0 then 0 else Octet(v - 1) + 1
  }

  lemma {:induction false} BitsOfOctet(v: bv8)
    ensures Bits(Octet(v)) == v
    decreases v
  {
    if v != 0 {
      BitsOfOctet(v - 1);
    }
  }

  lemma {:induction false} OctetOfBits(b: byte)
    ensures Octet(Bits(b)) == b
    decreases b
  {
    if b != 0 {
      OctetOfBits(b - 1);
      assert Bits(b - 1) < 0xFF;
    }
  }

  // ---------------------------------------------------------------------------------------------
  // A register driven over a message

  function Run<R>(absorb: (R, bv8) -> R, r: R, msg: seq<byte>): R
    decreases |msg|
  {
    if msg == [] then r else Run(absorb, absorb(r, Bits(msg[0])), msg[1..])
  }

  lemma {:induction false} RunConcat<R>(absorb: (R, bv8) -> R, r: R, a: seq<byte>, b: seq<byte>)
    ensures Run(absorb, r, a + b) == Run(absorb, Run(absorb, r, a), b)
    decreases |a|
  {
    if a == [] {
      assert a + b == b;
    } else {
      assert (a + b)[1..] == a[1..] + b;
      RunConcat(absorb, absorb(r, Bits(a[0])), a[1..], b);
    }
  }

  // ---------------------------------------------------------------------------------------------
  // The bit-by-bit definition: register reflected, polynomial 0xA001, preset 0xFFFF

  function Xor16(a: bv16, b: bv16): bv16 {
    a ^ b
  }

  function Shifted(r: bv16): bv16 {
    r >> 1
  }

  /** What the bit shifted out adds to the register. */
  function Feedback(r: bv16): bv16 {
    if r & 1 == 1 then 0xA001 else 0
  }

  function BitStep(r: bv16): bv16 {
    Xor16(Shifted(r), Feedback(r))
  }

  function EightSteps(r: bv16): bv16 {
    BitStep(BitStep(BitStep(BitStep(BitStep(BitStep(BitStep(BitStep(r))))))))
  }

  /** The octet is added to the low half of the register. */
  function MixIn(r: bv16, v: bv8): bv16 {
    r ^ v as bv16
  }

  function BitwiseAbsorb(r: bv16, v: bv8): bv16 {
    EightSteps(MixIn(r, v))
  }

  /** The register after the whole message. */
  function BitwiseCrc(msg: seq<byte>): bv16 {
    Run(BitwiseAbsorb, 0xFFFF, msg)
  }

  // ---------------------------------------------------------------------------------------------
  // The same, one octet at a time.  The register is held in two halves, `hi` being the half that is
  // sent first and the low half of the reflected register.

  datatype Halves = Halves(hi: bv8, lo: bv8)

  function Xor(a: bv8, b: bv8): bv8 {
    a ^ b
  }

  /** 1 when an odd number of bits of the octet are set. */
  function Odd(i: bv8): bv8 {
    (i ^ (i >> 1) ^ (i >> 2) ^ (i >> 3) ^ (i >> 4) ^ (i >> 5) ^ (i >> 6) ^ (i >> 7)) & 1
  }

  // Eight steps on a register that holds one octet, in closed form.

  function FoldHi(i: bv8): bv8 {
    (i << 6) ^ (i << 7) ^ Odd(i)
  }

  function FoldLo(i: bv8): bv8 {
    (i >> 2) ^ (i >> 1) ^ (if Odd(i) == 1 then 0xC0 else 0)
  }

  function Absorb(r: Halves, v: bv8): Halves {
    var i := Xor(r.hi, v);
    Halves(Xor(r.lo, FoldHi(i)), FoldLo(i))
  }

  const PRESET := Halves(0xFF, 0xFF)

  function Register(msg: seq<byte>): Halves {
    Run(Absorb, PRESET, msg)
  }

  /** The octet sent first. */
  function CrcHi(msg: seq<byte>): byte {
    Octet(Register(msg).hi)
  }

  function CrcLo(msg: seq<byte>): byte {
    Octet(Register(msg).lo)
  }

  function Joined(r: Halves): bv16 {
    (r.lo as bv16 << 8) | r.hi as bv16
  }

  function LowHalf(x: bv16): bv8 {
    (x & 0xFF) as bv8
  }

  function HighHalf(x: bv16): bv8 {
    (x >> 8) as bv8
  }

  // Steps are linear, so those of a register are those of its two halves added up.

  lemma Xor16Assoc(a: bv16, b: bv16, c: bv16)
    ensures Xor16(Xor16(a, b), c) == Xor16(a, Xor16(b, c))
  {
  }

  lemma Xor16Comm(a: bv16, b: bv16)
    ensures Xor16(a, b) == Xor16(b, a)
  {
  }

  lemma Xor16Regroup(a: bv16, b: bv16, c: bv16, d: bv16)
    ensures Xor16(Xor16(a, b), Xor16(c, d)) == Xor16(Xor16(a, c), Xor16(b, d))
  {
    hide Xor16;
    Xor16Assoc(a, b, Xor16(c, d));
    Xor16Assoc(b, c, d);
    Xor16Comm(b, c);
    Xor16Assoc(c, b, d);
    Xor16Assoc(a, c, Xor16(b, d));
  }

  lemma ShiftedXor(a: bv16, b: bv16)
    ensures Shifted(Xor16(a, b)) == Xor16(Shifted(a), Shifted(b))
  {
  }

  lemma FeedbackXor(a: bv16, b: bv16)
    ensures Feedback(Xor16(a, b)) == Xor16(Feedback(a), Feedback(b))
  {
  }

  lemma StepXor(a: bv16, b: bv16)
    ensures BitStep(Xor16(a, b)) == Xor16(BitStep(a), BitStep(b))
  {
    hide Xor16, Shifted, Feedback;
    ShiftedXor(a, b);
    FeedbackXor(a, b);
    Xor16Regroup(Shifted(a), Shifted(b), Feedback(a), Feedback(b));
  }

  function Steps(r: bv16, n: nat): bv16
    decreases n
  {
    if n == 0 then r else Steps(BitStep(r), n - 1)
  }

  lemma {:induction false} StepsXor(a: bv16, b: bv16, n: nat)
    ensures Steps(Xor16(a, b), n) == Xor16(Steps(a, n), Steps(b, n))
    decreases n
  {
    hide BitStep, Xor16;
    if n != 0 {
      StepXor(a, b);
      StepsXor(BitStep(a), BitStep(b), n - 1);
    }
  }

  lemma EightStepsAre(r: bv16)
    ensures Steps(r, 8) == EightSteps(r)
  {
    hide BitStep;
    assert Steps(r, 8) == Steps(BitStep(BitStep(BitStep(BitStep(r)))), 4);
  }

  function InHigh(v: bv8): bv16 {
    v as bv16 << 8
  }

  function InLow(v: bv8): bv16 {
    v as bv16
  }

  lemma HalvesOf(x: bv16)
    ensures x == Xor16(InHigh(HighHalf(x)), InLow(LowHalf(x)))
  {
  }

  /** Eight steps shift the high half down, and nothing falls out of it. */
  lemma HighEightSteps(v: bv8)
    ensures EightSteps(InHigh(v)) == InLow(v)
  {
  }

  lemma LowEightSteps(v: bv8)
    ensures EightSteps(InLow(v)) == Joined(Halves(FoldHi(v), FoldLo(v)))
  {
  }

  lemma JoinedIs(r: Halves)
    ensures Joined(r) == Xor16(InLow(r.hi), InHigh(r.lo))
  {
  }

  lemma InLowXor(a: bv8, b: bv8)
    ensures InLow(Xor(a, b)) == Xor16(InLow(a), InLow(b))
  {
  }

  lemma JoinedXor(v: bv8, hi: bv8, lo: bv8)
    ensures Joined(Halves(Xor(v, hi), lo)) == Xor16(InLow(v), Joined(Halves(hi, lo)))
  {
    hide *;
    JoinedIs(Halves(Xor(v, hi), lo));
    JoinedIs(Halves(hi, lo));
    InLowXor(v, hi);
    Xor16Assoc(InLow(v), InLow(hi), InHigh(lo));
  }

  lemma FoldIsEightSteps(x: bv16)
    ensures Joined(Halves(Xor(HighHalf(x), FoldHi(LowHalf(x))), FoldLo(LowHalf(x)))) == EightSteps(x)
  {
    hide *;
    var h, l := HighHalf(x), LowHalf(x);
    HalvesOf(x);
    StepsXor(InHigh(h), InLow(l), 8);
    EightStepsAre(x);
    EightStepsAre(InHigh(h));
    EightStepsAre(InLow(l));
    HighEightSteps(h);
    LowEightSteps(l);
    JoinedXor(h, FoldHi(l), FoldLo(l));
  }

  lemma MixInHalves(r: Halves, v: bv8)
    ensures LowHalf(MixIn(Joined(r), v)) == Xor(r.hi, v)
    ensures HighHalf(MixIn(Joined(r), v)) == r.lo
  {
  }

  lemma AbsorbIsBitwise(r: Halves, v: bv8)
    ensures Joined(Absorb(r, v)) == BitwiseAbsorb(Joined(r), v)
  {
    hide FoldHi, FoldLo, EightSteps, LowHalf, HighHalf, Joined, MixIn, Xor;
    MixInHalves(r, v);
    FoldIsEightSteps(MixIn(Joined(r), v));
  }

  /** Two registers kept in step by their `absorb` functions stay in step over any message. */
  lemma {:induction false} RunsAgree<R(!new), S>(f: (R, bv8) -> R, g: (S, bv8) -> S, view: R -> S, r: R, msg: seq<byte>)
    requires forall q: R, v: bv8 :: view(f(q, v)) == g(view(q), v)
    ensures view(Run(f, r, msg)) == Run(g, view(r), msg)
    decreases |msg|
  {
    if msg != [] {
      RunsAgree(f, g, view, f(r, Bits(msg[0])), msg[1..]);
    }
  }

  /** The register kept by octets is the bit-by-bit CRC, for messages of every length. */
  lemma CrcIsBitwise(msg: seq<byte>)
    ensures Joined(Register(msg)) == BitwiseCrc(msg)
  {
    forall r: Halves, v: bv8
      ensures Joined(Absorb(r, v)) == BitwiseAbsorb(Joined(r), v)
    {
      AbsorbIsBitwise(r, v);
    }
    assert Joined(PRESET) == 0xFFFF;
    RunsAgree(Absorb, BitwiseAbsorb, Joined, PRESET, msg);
  }

  // ---------------------------------------------------------------------------------------------
  // The tables against the closed form

  predicate Entry(i: bv8, hi: bv8, lo: bv8) {
    hi == FoldHi(i) && lo == FoldLo(i)
  }

  const NIBBLES: seq<bv8> := [0, 1, 2, 3, 4, 5, 6, 7, 8, 9, 10, 11, 12, 13, 14, 15]

  ghost predicate RowOk(base: bv8, hi: seq<bv8>, lo: seq<bv8>) {
    && |NIBBLES| == |hi| == |lo| == 16
    && forall c | 0 <= c < 16 :: Entry(base + NIBBLES[c], hi[c], lo[c])
  }

  ghost predicate Sixteen<A, B>(P: (A, B, B) -> bool, a: seq<A>, b: seq<B>, c: seq<B>) {
    && |a| == |b| == |c| == 16
    && P(a[0], b[0], c[0]) && P(a[1], b[1], c[1]) && P(a[2], b[2], c[2]) && P(a[3], b[3], c[3])
    && P(a[4], b[4], c[4]) && P(a[5], b[5], c[5]) && P(a[6], b[6], c[6]) && P(a[7], b[7], c[7])
    && P(a[8], b[8], c[8]) && P(a[9], b[9], c[9]) && P(a[10], b[10], c[10]) && P(a[11], b[11], c[11])
    && P(a[12], b[12], c[12]) && P(a[13], b[13], c[13]) && P(a[14], b[14], c[14]) && P(a[15], b[15], c[15])
  }

  lemma SixteenAll<A, B>(P: (A, B, B) -> bool, a: seq<A>, b: seq<B>, c: seq<B>)
    requires Sixteen(P, a, b, c)
    ensures |a| == |b| == |c| == 16
    ensures forall k | 0 <= k < 16 :: P(a[k], b[k], c[k])
  {
  }

  lemma Row0()
    ensures RowOk(0x00, TABLE_CRC_HI[0], TABLE_CRC_LO[0])
  {
    SixteenAll((x, h, l) => Entry(0x00 + x, h, l), NIBBLES, TABLE_CRC_HI[0], TABLE_CRC_LO[0]);
  }

  lemma Row1()
    ensures RowOk(0x10, TABLE_CRC_HI[1], TABLE_CRC_LO[1])
  {
    SixteenAll((x, h, l) => Entry(0x10 + x, h, l), NIBBLES, TABLE_CRC_HI[1], TABLE_CRC_LO[1]);
  }

  lemma Row2()
    ensures RowOk(0x20, TABLE_CRC_HI[2], TABLE_CRC_LO[2])
  {
    SixteenAll((x, h, l) => Entry(0x20 + x, h, l), NIBBLES, TABLE_CRC_HI[2], TABLE_CRC_LO[2]);
  }

  lemma Row3()
    ensures RowOk(0x30, TABLE_CRC_HI[3], TABLE_CRC_LO[3])
  {
    SixteenAll((x, h, l) => Entry(0x30 + x, h, l), NIBBLES, TABLE_CRC_HI[3], TABLE_CRC_LO[3]);
  }

  lemma Row4()
    ensures RowOk(0x40, TABLE_CRC_HI[4], TABLE_CRC_LO[4])
  {
    SixteenAll((x, h, l) => Entry(0x40 + x, h, l), NIBBLES, TABLE_CRC_HI[4], TABLE_CRC_LO[4]);
  }

  lemma Row5()
    ensures RowOk(0x50, TABLE_CRC_HI[5], TABLE_CRC_LO[5])
  {
    SixteenAll((x, h, l) => Entry(0x50 + x, h, l), NIBBLES, TABLE_CRC_HI[5], TABLE_CRC_LO[5]);
  }

  lemma Row6()
    ensures RowOk(0x60, TABLE_CRC_HI[6], TABLE_CRC_LO[6])
  {
    SixteenAll((x, h, l) => Entry(0x60 + x, h, l), NIBBLES, TABLE_CRC_HI[6], TABLE_CRC_LO[6]);
  }

  lemma Row7()
    ensures RowOk(0x70, TABLE_CRC_HI[7], TABLE_CRC_LO[7])
  {
    SixteenAll((x, h, l) => Entry(0x70 + x, h, l), NIBBLES, TABLE_CRC_HI[7], TABLE_CRC_LO[7]);
  }

  lemma Row8()
    ensures RowOk(0x80, TABLE_CRC_HI[8], TABLE_CRC_LO[8])
  {
    SixteenAll((x, h, l) => Entry(0x80 + x, h, l), NIBBLES, TABLE_CRC_HI[8], TABLE_CRC_LO[8]);
  }

  lemma Row9()
    ensures RowOk(0x90, TABLE_CRC_HI[9], TABLE_CRC_LO[9])
  {
    SixteenAll((x, h, l) => Entry(0x90 + x, h, l), NIBBLES, TABLE_CRC_HI[9], TABLE_CRC_LO[9]);
  }

  lemma RowA()
    ensures RowOk(0xA0, TABLE_CRC_HI[10], TABLE_CRC_LO[10])
  {
    SixteenAll((x, h, l) => Entry(0xA0 + x, h, l), NIBBLES, TABLE_CRC_HI[10], TABLE_CRC_LO[10]);
  }

  lemma RowB()
    ensures RowOk(0xB0, TABLE_CRC_HI[11], TABLE_CRC_LO[11])
  {
    SixteenAll((x, h, l) => Entry(0xB0 + x, h, l), NIBBLES, TABLE_CRC_HI[11], TABLE_CRC_LO[11]);
  }

  lemma RowC()
    ensures RowOk(0xC0, TABLE_CRC_HI[12], TABLE_CRC_LO[12])
  {
    SixteenAll((x, h, l) => Entry(0xC0 + x, h, l), NIBBLES, TABLE_CRC_HI[12], TABLE_CRC_LO[12]);
  }

  lemma RowD()
    ensures RowOk(0xD0, TABLE_CRC_HI[13], TABLE_CRC_LO[13])
  {
    SixteenAll((x, h, l) => Entry(0xD0 + x, h, l), NIBBLES, TABLE_CRC_HI[13], TABLE_CRC_LO[13]);
  }

  lemma RowE()
    ensures RowOk(0xE0, TABLE_CRC_HI[14], TABLE_CRC_LO[14])
  {
    SixteenAll((x, h, l) => Entry(0xE0 + x, h, l), NIBBLES, TABLE_CRC_HI[14], TABLE_CRC_LO[14]);
  }

  lemma RowF()
    ensures RowOk(0xF0, TABLE_CRC_HI[15], TABLE_CRC_LO[15])
  {
    SixteenAll((x, h, l) => Entry(0xF0 + x, h, l), NIBBLES, TABLE_CRC_HI[15], TABLE_CRC_LO[15]);
  }

  lemma NibbleIndex(x: bv8)
    requires x < 16
    ensures |NIBBLES| == 16 && 0 <= x as int < 16 && NIBBLES[x as int] == x
  {
  }

  /** `table[i]`; the model lays the 256 entries out as sixteen rows of sixteen. */
  function At(table: seq<seq<bv8>>, i: bv8): bv8
    requires |table| == 16 && forall r | 0 <= r < 16 :: |table[r]| == 16
  {
    table[(i >> 4) as int][(i & 0xF) as int]
  }

  lemma TableShape()
    ensures |TABLE_CRC_HI| == 16 && forall r | 0 <= r < 16 :: |TABLE_CRC_HI[r]| == 16
    ensures |TABLE_CRC_LO| == 16 && forall r | 0 <= r < 16 :: |TABLE_CRC_LO[r]| == 16
  {
  }

  lemma EveryRow(row: bv8)
    requires row < 16
    ensures (TableShape(); RowOk(row << 4, TABLE_CRC_HI[row as int], TABLE_CRC_LO[row as int]))
  {
    if
    case row == 0x0 => Row0();
    case row == 0x1 => Row1();
    case row == 0x2 => Row2();
    case row == 0x3 => Row3();
    case row == 0x4 => Row4();
    case row == 0x5 => Row5();
    case row == 0x6 => Row6();
    case row == 0x7 => Row7();
    case row == 0x8 => Row8();
    case row == 0x9 => Row9();
    case row == 0xA => RowA();
    case row == 0xB => RowB();
    case row == 0xC => RowC();
    case row == 0xD => RowD();
    case row == 0xE => RowE();
    case row == 0xF => RowF();
  }

  /** Entry `i` of the two tables is what eight bit steps make of `i`. */
  lemma TableEntry(i: bv8)
    ensures (TableShape(); Entry(i, At(TABLE_CRC_HI, i), At(TABLE_CRC_LO, i)))
  {
    EveryRow(i >> 4);
    NibbleIndex(i & 0xF);
    assert i == ((i >> 4) << 4) + (i & 0xF);
  }

  // ---------------------------------------------------------------------------------------------
  // The loop over the message

  method TableLookup(i: bv8) returns (hi: bv8, lo: bv8)
    ensures hi == FoldHi(i) && lo == FoldLo(i)
  {
    TableEntry(i);
    TableShape();
    hi := At(TABLE_CRC_HI, i);
    lo := At(TABLE_CRC_LO, i);
  }

  method AbsorbOctet(crcHi: bv8, crcLo: bv8, v: bv8) returns (hi: bv8, lo: bv8)
    ensures Halves(hi, lo) == Absorb(Halves(crcHi, crcLo), v)
  {
    hide FoldHi, FoldLo, Xor;
    hi, lo := TableLookup(Xor(crcHi, v));
    hi := Xor(crcLo, hi);
  }

  lemma Turn<R>(absorb: (R, bv8) -> R, r: R, msg: seq<byte>)
    requires msg != []
    ensures Run(absorb, r, msg) == Run(absorb, absorb(r, Bits(msg[0])), msg[1..])
  {
  }

  method Crc16(buffer: array<byte>, bufferLength: nat) returns (crc: word)
    requires bufferLength <= buffer.Length
    ensures crc == Word(CrcHi(buffer[..bufferLength]), CrcLo(buffer[..bufferLength]))
  {
    var crcHi: bv8, crcLo: bv8 := 0xFF, 0xFF;
    var k := 0;
    while k < bufferLength
      invariant k <= bufferLength
      invariant Run(Absorb, Halves(crcHi, crcLo), buffer[k..bufferLength]) == Register(buffer[..bufferLength])
    {
      Turn(Absorb, Halves(crcHi, crcLo), buffer[k..bufferLength]);
      assert buffer[k..bufferLength][1..] == buffer[k + 1..bufferLength];
      crcHi, crcLo := AbsorbOctet(crcHi, crcLo, Bits(buffer[k]));
      k := k + 1;
    }
    crc := Word(Octet(crcHi), Octet(crcLo));
  }
}
