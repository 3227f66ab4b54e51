/** Base 64 into a buffer of bounded size (section 4 of RFC 4648). */
module Base64 {
  import opened Bytes
  import opened Packing

  function Upper(): string {
    "ABCDEFGHIJKLMNOPQRSTUVWXYZ"
  }

  function Lower(): string {
    "abcdefghijklmnopqrstuvwxyz"
  }

  function Others(): string {
    "0123456789+/"
  }

  function EncodingTable(): (table: string)
    ensures |table| == 64
  {
    Upper() + Lower() + Others()
  }

  function Letter(v: nat): char {
    EncodingTable()[v % 64]
  }

  /** The value of a letter of the alphabet, from its code. */
  function LetterValue(c: char): nat {
    if 'A' <= c <= 'Z' then c as int - 'A' as int
    else if 'a' <= c <= 'z' then c as int - 'a' as int + 26
    else if '0' <= c <= '9' then c as int - '0' as int + 52
    else if c == '+' then 62
    else 63
  }

  lemma TableParts(k: nat)
    requires k < 64
    ensures |Upper()| == 26 && |Lower()| == 26 && |Others()| == 12
    ensures EncodingTable()[k] == if k < 26 then Upper()[k] else if k < 52 then Lower()[k - 26] else Others()[k - 52]
  {
  }

  lemma UpperCode(k: nat)
    requires k < 26
    ensures |Upper()| == 26 && Upper()[k] as int == 'A' as int + k
  {
  }

  lemma LowerCode(k: nat)
    requires k < 26
    ensures |Lower()| == 26 && Lower()[k] as int == 'a' as int + k
  {
  }

  lemma OtherCode(k: nat)
    requires k < 12
    ensures |Others()| == 12 && LetterValue(Others()[k]) == 52 + k && Others()[k] != '='
    ensures Others()[k] as int == if k < 10 then 48 + k else if k == 10 then 43 else 47
  {
  }

  /** The alphabet of RFC 4648, by the codes of its characters. */
  lemma LetterSpelled(v: nat)
    ensures var k, code := v % 64, Letter(v) as int;
            if k < 26 then code == 65 + k
            else if k < 52 then code == 97 + (k - 26)
            else if k < 62 then code == 48 + (k - 52)
            else if k == 62 then code == 43
            else code == 47
  {
    hide Upper, Lower, Others, EncodingTable;
    var k := v % 64;
    TableParts(k);
    if k < 26 {
      UpperCode(k);
    } else if k < 52 {
      LowerCode(k - 26);
    } else {
      OtherCode(k - 52);
    }
  }

  lemma LettersAlike(v: nat, w: nat)
    requires v % 64 == w % 64
    ensures Letter(v) == Letter(w)
  {
  }

  lemma LetterRoundTrip(v: nat)
    ensures LetterValue(Letter(v)) == v % 64 && Letter(v) != '='
  {
    hide Upper, Lower, Others, EncodingTable;
    var k := v % 64;
    TableParts(k);
    if k < 26 {
      UpperCode(k);
    } else if k < 52 {
      LowerCode(k - 26);
    } else {
      OtherCode(k - 52);
    }
  }

  /** The 24-bit input group at the front, zero bits standing in for missing octets. */
  function InputGroup(data: seq<byte>): (i: nat)
    requires data != []
    ensures i < 0x100_0000
  {
    var a: int, b: int, c: int := data[0], if |data| >= 2 then data[1] else 0, if |data| >= 3 then data[2] else 0;
    0x1_0000 * a + 0x100 * b + c
  }

  function Quantum(data: seq<byte>): (s: string)
    requires data != []
    ensures |s| == 4
  {
    var i := InputGroup(data);
    [Letter(i / 0x4_0000), Letter(i / 0x1000), if |data| >= 2 then Letter(i / 0x40) else '=',
     if |data| >= 3 then Letter(i) else '=']
  }

  /** What follows the first input group. */
  function Rest(data: seq<byte>): (rest: seq<byte>)
    ensures data != [] ==> |rest| < |data|
  {
    if |data| >= 3 then data[3..] else []
  }

  function Encode(data: seq<byte>): string
    decreases |data|
  {
    if data == [] then [] else Quantum(data) + Encode(Rest(data))
  }

  /** Four letters for every three octets, begun or complete. */
  lemma {:induction false} EncodedLength(data: seq<byte>)
    ensures |Encode(data)| == 4 * ((|data| + 2) / 3)
    decreases |data|
  {
    if data != [] {
      hide Quantum;
      var rest := Rest(data);
      EncodedLength(rest);
      assert Encode(data) == Quantum(data) + Encode(rest);
      assert (|data| + 2) / 3 == 1 + (|rest| + 2) / 3;
    }
  }

  /** The value a letter adds to its group; padding adds nothing. */
  function Digit(c: char): nat {
    if c == '=' then 0 else LetterValue(c)
  }

  /** The octets of four letters, the padded ones left out. */
  function Octets(s: string): seq<byte>
    requires |s| == 4
  {
    var i := Digit(s[0]) * 0x4_0000 + Digit(s[1]) * 0x1000 + Digit(s[2]) * 0x40 + Digit(s[3]);
    [i / 0x1_0000 % 0x100]
    + (if s[2] == '=' then [] else [i / 0x100 % 0x100])
    + (if s[3] == '=' then [] else [i % 0x100])
  }

  function Decode(s: string): seq<byte> {
    if |s| < 4 then [] else Octets(s[..4]) + Decode(s[4..])
  }

  lemma DivMod(i: int, d: int, q: int, r: int)
    requires d in {0x40, 0x100, 0x1000, 0x1_0000, 0x4_0000}
    requires i == d * q + r && 0 <= r < d
    ensures i / d == q && i % d == r
  {
    if d == 0x40 {
      assert i == 0x40 * q + r;
    } else if d == 0x100 {
      assert i == 0x100 * q + r;
    } else if d == 0x1000 {
      assert i == 0x1000 * q + r;
    } else if d == 0x1_0000 {
      assert i == 0x1_0000 * q + r;
    } else {
      assert i == 0x4_0000 * q + r;
    }
  }

  // An input group of octets `a`, `b` and `c`, cut at six bits and at eight.

  lemma HighDigits(a: int, b: int, c: int, i: nat)
    requires 0 <= a < 0x100 && 0 <= b < 0x100 && 0 <= c < 0x100 && i == 0x1_0000 * a + 0x100 * b + c
    ensures i / 0x4_0000 % 64 == a / 4 && i / 0x1000 % 64 == a % 4 * 16 + b / 16
  {
    var a1, a0, b1, b0 := a / 4, a % 4, b / 16, b % 16;
    DivMod(i, 0x1000, 16 * a + b1, 0x100 * b0 + c);
    DivMod(16 * a + b1, 64, a1, 16 * a0 + b1);
    DivMod(i, 0x4_0000, a1, 0x1_0000 * a0 + 0x100 * b + c);
  }

  lemma LowDigits(a: int, b: int, c: int, i: nat)
    requires 0 <= a < 0x100 && 0 <= b < 0x100 && 0 <= c < 0x100 && i == 0x1_0000 * a + 0x100 * b + c
    ensures i / 0x40 % 64 == b % 16 * 4 + c / 64 && i % 64 == c % 64
  {
    var b1, b0, c1, c0 := b / 16, b % 16, c / 64, c % 64;
    DivMod(i, 0x40, 0x400 * a + 4 * b + c1, c0);
    DivMod(0x400 * a + 4 * b + c1, 64, 16 * a + b1, 4 * b0 + c1);
  }

  lemma ThreeOctets(a: int, b: int, c: int, i: nat)
    requires 0 <= a < 0x100 && 0 <= b < 0x100 && 0 <= c < 0x100 && i == 0x1_0000 * a + 0x100 * b + c
    ensures i / 0x1_0000 % 0x100 == a && i / 0x100 % 0x100 == b && i % 0x100 == c
  {
    DivMod(i, 0x1_0000, a, 0x100 * b + c);
    DivMod(i, 0x100, 0x100 * a + b, c);
    DivMod(0x100 * a + b, 0x100, a, b);
  }

  /** The four digits of a group, the last of which are zero when octets are missing. */
  lemma SixBitGroups(data: seq<byte>)
    requires data != []
    ensures var i := InputGroup(data);
            && i / 0x4_0000 % 64 * 0x4_0000 + i / 0x1000 % 64 * 0x1000 + i / 0x40 % 64 * 0x40 + i % 64 == i
            && (|data| < 3 ==> i % 64 == 0)
            && (|data| < 2 ==> i / 0x40 % 64 == 0)
            && i / 0x1_0000 % 0x100 == data[0]
            && (|data| >= 2 ==> i / 0x100 % 0x100 == data[1])
            && (|data| >= 3 ==> i % 0x100 == data[2])
  {
    var a, b, c := data[0], if |data| >= 2 then data[1] else 0, if |data| >= 3 then data[2] else 0;
    var i := InputGroup(data);
    HighDigits(a, b, c, i);
    LowDigits(a, b, c, i);
    ThreeOctets(a, b, c, i);
  }

  lemma GroupDigits(data: seq<byte>)
    requires data != []
    ensures var a, b, c := data[0], if |data| >= 2 then data[1] else 0, if |data| >= 3 then data[2] else 0;
            var i := InputGroup(data);
            && i / 0x4_0000 % 64 == a / 4 && i / 0x1000 % 64 == a % 4 * 16 + b / 16
            && i / 0x40 % 64 == b % 16 * 4 + c / 64 && i % 64 == c % 64
  {
    var a, b, c := data[0], if |data| >= 2 then data[1] else 0, if |data| >= 3 then data[2] else 0;
    HighDigits(a, b, c, InputGroup(data));
    LowDigits(a, b, c, InputGroup(data));
  }

  /** Three octets are four letters of six bits each, high bits first; of two octets or one, the bits that are missing
      are zero, and the letters that would hold nothing else are padding. */
  lemma QuantumSpelled(data: seq<byte>)
    requires data != []
    ensures var a, b, c := data[0], if |data| >= 2 then data[1] else 0, if |data| >= 3 then data[2] else 0;
            Quantum(data) == [Letter(a / 4), Letter(a % 4 * 16 + b / 16),
                              if |data| >= 2 then Letter(b % 16 * 4 + c / 64) else '=',
                              if |data| >= 3 then Letter(c % 64) else '=']
  {
    hide Letter, InputGroup;
    var a, b, c := data[0], if |data| >= 2 then data[1] else 0, if |data| >= 3 then data[2] else 0;
    var i := InputGroup(data);
    GroupDigits(data);
    LettersAlike(i / 0x4_0000, a / 4);
    LettersAlike(i / 0x1000, a % 4 * 16 + b / 16);
    LettersAlike(i / 0x40, b % 16 * 4 + c / 64);
    LettersAlike(i, c % 64);
  }

  lemma QuantumRoundTrip(data: seq<byte>)
    requires data != []
    ensures Octets(Quantum(data)) == if |data| >= 3 then data[..3] else data
  {
    hide Letter, LetterValue, InputGroup;
    var i := InputGroup(data);
    SixBitGroups(data);
    LetterRoundTrip(i / 0x4_0000);
    LetterRoundTrip(i / 0x1000);
    LetterRoundTrip(i / 0x40);
    LetterRoundTrip(i);
  }

  /** An output that was not cut off decodes to the input. */
  lemma {:induction false} RoundTrip(data: seq<byte>)
    ensures Decode(Encode(data)) == data
    decreases |data|
  {
    hide Quantum, Octets;
    if data != [] {
      var rest := Rest(data);
      QuantumRoundTrip(data);
      RoundTrip(rest);
      assert Encode(data)[..4] == Quantum(data) && Encode(data)[4..] == Encode(rest);
      assert data == (if |data| >= 3 then data[..3] else data) + rest;
    }
  }

  function Min(a: nat, b: nat): nat {
    if a <= b then a else b
  }

  /** The body of the loop of `base64Encode`: as much of one quantum as there is room for. */
  method PutQuantum(buffer: array<char>, at: nat, lim: nat, data: seq<byte>) returns (dst: nat)
    requires at < lim <= buffer.Length && data != []
    modifies buffer
    ensures dst == Min(at + 4, lim)
    ensures forall p | at <= p < dst :: buffer[p] == Quantum(data)[p - at]
    ensures forall p | 0 <= p < buffer.Length && !(at <= p < dst) :: buffer[p] == old(buffer[p])
  {
    hide Letter, InputGroup;
    var rem := |data|;
    var i := InputGroup(data);
    dst := at;
    buffer[dst] := Letter(i / 0x4_0000);
    dst := dst + 1;
    if dst < lim {
      buffer[dst] := Letter(i / 0x1000);
      dst := dst + 1;
    }
    if dst < lim {
      buffer[dst] := if rem >= 2 then Letter(i / 0x40) else '=';
      dst := dst + 1;
    }
    if dst < lim {
      buffer[dst] := if rem >= 3 then Letter(i) else '=';
      dst := dst + 1;
    }
  }

  /** The text left in a buffer of `buflen` characters: as much of the encoding as fits before a NUL. */
  function Bounded(rdata: seq<byte>, buflen: nat): (text: string)
    requires buflen > 0
    ensures 1 <= |text| <= buflen
  {
    Encode(rdata)[..Min(buflen - 1, |Encode(rdata)|)] + ['\0']
  }

  /** The loop of `base64Encode`. */
  method PutQuanta(buffer: array<char>, lim: nat, rdata: seq<byte>, ghost all: string) returns (dst: nat)
    requires lim <= buffer.Length && all == Encode(rdata)
    modifies buffer
    ensures dst == Min(|all|, lim)
    ensures forall p | 0 <= p < dst :: buffer[p] == all[p]
    ensures forall p | dst <= p < buffer.Length :: buffer[p] == old(buffer[p])
  {
    hide Quantum, Encode;
    var src := 0;
    ghost var g: nat := 0;
    dst := 0;
    assert rdata[0..] == rdata;
    while src < |rdata| && dst < lim
      invariant src <= |rdata| && dst == Min(g, lim) && Ahead(rdata, src, all, g)
      invariant forall p | 0 <= p < dst :: buffer[p] == all[p]
      invariant forall p | dst <= p < buffer.Length :: buffer[p] == old(buffer[p])
      decreases |rdata| - src
    {
      hide Ahead;
      EncodeStep(rdata, src, all, g);
      dst := PutQuantum(buffer, dst, lim, rdata[src..]);
      var rem := |rdata| - src;
      src := src + if rem > 3 then 3 else rem;
      g := g + 4;
    }
    EncodeEnd(rdata, src);
  }

  /** `base64Encode`. */
  method Base64Encode(buffer: array<char>, buflen: nat, rdata: seq<byte>)
    requires buflen <= buffer.Length
    modifies buffer
    ensures buflen == 0 ==> buffer[..] == old(buffer[..])
    ensures buflen > 0 ==> buffer[..] == Splice(old(buffer[..]), 0, Bounded(rdata, buflen))
  {
    if buflen == 0 {
      return;
    }
    hide Encode, Splice, Bounded, Min;
    var dst := PutQuanta(buffer, buflen - 1, rdata, Encode(rdata));
    buffer[dst] := '\0';
    BoundedCells(old(buffer[..]), buffer[..], rdata, buflen, dst);
  }

  lemma BoundedCells(was: string, now: string, rdata: seq<byte>, buflen: nat, dst: nat)
    requires 0 < buflen <= |was| == |now| && dst == Min(|Encode(rdata)|, buflen - 1)
    requires (forall p | 0 <= p < dst :: now[p] == Encode(rdata)[p]) && now[dst] == '\0'
    requires forall p | dst < p < |was| :: now[p] == was[p]
    ensures now == Splice(was, 0, Bounded(rdata, buflen))
  {
    hide Encode;
    SplicedCells(was, now, 0, Bounded(rdata, buflen));
  }

  /** The text fills the buffer, or ends with the encoding: what it holds before the NUL is the encoding, cut wherever
      the room ends. */
  lemma CutToFit(rdata: seq<byte>, buflen: nat)
    requires buflen > 0
    ensures var text, n := Bounded(rdata, buflen), 4 * ((|rdata| + 2) / 3);
            && |text| == (if n < buflen then n + 1 else buflen)
            && text[|text| - 1] as int == 0 && text[..|text| - 1] <= Encode(rdata)
  {
    hide Encode;
    EncodedLength(rdata);
  }

  /** The text is the whole encoding exactly when the buffer has room for it and the NUL, and then it decodes to
      the input. */
  lemma WholeIff(rdata: seq<byte>, buflen: nat)
    requires buflen > 0
    ensures var text := Bounded(rdata, buflen);
            && (text == Encode(rdata) + ['\0'] <==> buflen > 4 * ((|rdata| + 2) / 3))
            && (buflen > 4 * ((|rdata| + 2) / 3) ==> Decode(text[..|text| - 1]) == rdata)
  {
    hide Encode, Decode;
    EncodedLength(rdata);
    RoundTrip(rdata);
    var text, all := Bounded(rdata, buflen), Encode(rdata);
    if buflen > |all| {
      assert all[..|all|] == all && text[..|text| - 1] == all;
    } else {
      assert |text| < |all| + 1;
    }
  }

  /** The part of the encoding from `g` on is the encoding of the input from `src` on. */
  ghost predicate Ahead(rdata: seq<byte>, src: nat, all: string, g: nat) {
    src <= |rdata| && g <= |all| && all[g..] == Encode(rdata[src..])
  }

  lemma EncodeStep(rdata: seq<byte>, src: nat, all: string, g: nat)
    requires src < |rdata| && Ahead(rdata, src, all, g)
    ensures g + 4 <= |all| && forall p | 0 <= p < 4 :: all[g + p] == Quantum(rdata[src..])[p]
    ensures Ahead(rdata, Min(src + 3, |rdata|), all, g + 4)
  {
    var data := rdata[src..];
    hide Quantum;
    assert all[g..][..4] == Quantum(data);
    forall p | 0 <= p < 4
      ensures all[g + p] == Quantum(data)[p]
    {
      assert all[g..][..4][p] == all[g + p];
    }
    assert all[g + 4..] == all[g..][4..];
    assert Rest(data) == rdata[Min(src + 3, |rdata|)..];
  }

  lemma EncodeEnd(rdata: seq<byte>, src: nat)
    requires src <= |rdata|
    ensures src == |rdata| ==> Encode(rdata[src..]) == []
  {
  }
}
