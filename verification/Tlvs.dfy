/** The TLV syntax of DNS Stateful Operations (section 5.4.4 of RFC 8490): how a list of TLVs lies in a
    message, and what the loop of `dso_message_received` finds there. */
module Tlvs {
  import opened Bytes

  const HEADER_LENGTH := 12
  const MAX_ADDITLS := 10

  datatype Tlv = Tlv(opcode: word, payload: seq<byte>)

  /** A payload whose length fits the 16-bit length field. */
  predicate Fits(t: Tlv) {
    |t.payload| <= 65535
  }

  function Encode(t: Tlv): (bytes: seq<byte>)
    ensures |bytes| == 4 + |t.payload|
  {
    [Hi(t.opcode), Lo(t.opcode), Hi(|t.payload|), Lo(|t.payload|)] + t.payload
  }

  function EncodeAll(ts: seq<Tlv>): seq<byte> {
    if ts == [] then [] else Encode(ts[0]) + EncodeAll(ts[1..])
  }

  ghost predicate AllFit(ts: seq<Tlv>) {
    forall k | 0 <= k < |ts| :: Fits(ts[k])
  }

  lemma {:induction false} EncodeAllSnoc(ts: seq<Tlv>, t: Tlv)
    ensures EncodeAll(ts + [t]) == EncodeAll(ts) + Encode(t)
  {
    hide Encode;
    if ts == [] {
      assert ts + [t] == [t];
      assert EncodeAll([t]) == Encode(t) + EncodeAll([]);
    } else {
      assert (ts + [t])[1..] == ts[1..] + [t];
      EncodeAllSnoc(ts[1..], t);
    }
  }

  /** The TLVs of a message; the connection is dropped for a TLV that announces more than the rest of the message.
      Overrun is where the source's bound, which leaves out the four octets of the TLV's own header, lets it read
      on behind the end of the message. */
  datatype Parsing = Parsed(tlvs: seq<Tlv>) | Dropped | Overrun

  /** The outcome of parsing what follows `t`, with `t` in front of it. */
  function Prepend(t: Tlv, rest: Parsing): Parsing {
    if rest.Parsed? then Parsed([t] + rest.tlvs) else rest
  }

  function Parse(m: seq<byte>, offset: nat): Parsing
    decreases |m| - offset
  {
    if offset >= |m| then Parsed([])
    else if offset + 4 > |m| then Overrun
    else
      var opcode, length := Word(m[offset], m[offset + 1]), Word(m[offset + 2], m[offset + 3]);
      if length + offset > |m| then Dropped
      else if offset + 4 + length > |m| then Overrun
      else
        var next := offset + 4 + length;
        Prepend(Tlv(opcode, m[offset + 4..next]), Parse(m, next))
  }

  /** A message parses into a list of TLVs exactly when it holds that list and nothing else. */
  lemma {:induction false} ParseIff(m: seq<byte>, offset: nat, ts: seq<Tlv>)
    requires offset <= |m|
    ensures Parse(m, offset) == Parsed(ts) <==> AllFit(ts) && m[offset..] == EncodeAll(ts)
    decreases |m| - offset
  {
    if offset + 4 > |m| {
      if ts != [] {
        assert |EncodeAll(ts)| >= 4;
      }
    } else if ts == [] {
      assert EncodeAll(ts) == [] && m[offset..] != [];
    } else {
      ParseFirst(m, offset, ts);
    }
  }

  lemma {:induction false} ParseFirst(m: seq<byte>, offset: nat, ts: seq<Tlv>)
    requires offset + 4 <= |m| && ts != []
    ensures Parse(m, offset) == Parsed(ts) <==> AllFit(ts) && m[offset..] == EncodeAll(ts)
    decreases |m| - offset, 0
  {
    hide AllFit, Fits, Encode;
    var opcode, length := Word(m[offset], m[offset + 1]), Word(m[offset + 2], m[offset + 3]);
    var next := offset + 4 + length;
    var t, tail := ts[0], EncodeAll(ts[1..]);
    FirstFits(ts);
    if next <= |m| {
      ParseIff(m, next, ts[1..]);
      FrontIff(m, offset, next, t, tail);
      assert Parse(m, offset) == Parsed(ts) <==>
             Tlv(opcode, m[offset + 4..next]) == t && Parse(m, next) == Parsed(ts[1..]);
    } else if AllFit(ts) && m[offset..] == EncodeAll(ts) {
      EncodedFront(m[offset..], t, tail);
    }
  }

  lemma FirstFits(ts: seq<Tlv>)
    requires ts != []
    ensures AllFit(ts) <==> Fits(ts[0]) && AllFit(ts[1..])
  {
    assert forall k | 1 <= k < |ts| :: ts[k] == ts[1..][k - 1];
  }

  lemma HeaderOctets(t: Tlv, s: seq<byte>)
    requires Fits(t) && |s| >= 4 && s[..4] == Encode(t)[..4]
    ensures Word(s[0], s[1]) == t.opcode && Word(s[2], s[3]) == |t.payload|
  {
    var e := Encode(t);
    assert s[0] == s[..4][0] == e[0] && s[1] == s[..4][1] == e[1];
    assert s[2] == s[..4][2] == e[2] && s[3] == s[..4][3] == e[3];
  }

  lemma FrontIff(m: seq<byte>, offset: nat, next: nat, t: Tlv, tail: seq<byte>)
    requires offset + 4 <= next <= |m| && next == offset + 4 + Word(m[offset + 2], m[offset + 3])
    ensures Fits(t) && m[offset..] == Encode(t) + tail <==>
            Tlv(Word(m[offset], m[offset + 1]), m[offset + 4..next]) == t && m[next..] == tail
  {
    hide Encode;
    var rest := m[offset..];
    assert rest[..4] + rest[4..] == rest && rest[4..] == m[offset + 4..next] + m[next..];
    assert rest[0] == m[offset] && rest[1] == m[offset + 1] && rest[2] == m[offset + 2] && rest[3] == m[offset + 3];
    if Fits(t) && rest == Encode(t) + tail {
      EncodedFront(rest, t, tail);
      BehindHeader(t.payload, tail);
    }
    if Tlv(Word(m[offset], m[offset + 1]), m[offset + 4..next]) == t && m[next..] == tail {
      HeaderEncodes(rest[..4], t);
      assert rest[..4] + (t.payload + tail) == rest[..4] + t.payload + tail;
    }
  }

  lemma EncodedFront(s: seq<byte>, t: Tlv, tail: seq<byte>)
    requires Fits(t) && s == Encode(t) + tail
    ensures |s| >= 4 && Word(s[0], s[1]) == t.opcode && Word(s[2], s[3]) == |t.payload| && s[4..] == t.payload + tail
  {
    assert s[..4] == Encode(t)[..4];
    HeaderOctets(t, s);
  }

  lemma HeaderEncodes(header: seq<byte>, t: Tlv)
    requires |header| == 4 && Word(header[0], header[1]) == t.opcode && Word(header[2], header[3]) == |t.payload|
    ensures Encode(t) == header + t.payload
  {
    OctetsOfWord(header[0], header[1]);
    OctetsOfWord(header[2], header[3]);
    hide Hi, Lo;
    assert header == [header[0], header[1], header[2], header[3]];
  }

  lemma OctetsOfWord(hi: byte, lo: byte)
    ensures Hi(Word(hi, lo)) == hi && Lo(Word(hi, lo)) == lo
  {
  }

  lemma BehindHeader(payload: seq<byte>, tail: seq<byte>)
    ensures (payload + tail)[..|payload|] == payload && (payload + tail)[|payload|..] == tail
  {
  }

  // ---------------------------------------------------------------------------------------------
  // Messages that are not lists of TLVs

  /** A rest of which the source reads more than there is: too short for a header, or with a payload that the
      bound admits and the header leaves no room for. */
  predicate ReadBeyond(r: seq<byte>) {
    r != [] && (|r| < 4 || |r| - 4 < Word(r[2], r[3]) <= |r|)
  }

  /** A rest that the bound refuses. */
  predicate TooLong(r: seq<byte>) {
    |r| >= 4 && Word(r[2], r[3]) > |r|
  }

  /** `m` from `offset` on is a list of TLVs, then `r`. */
  ghost predicate ListThen(m: seq<byte>, offset: nat, ts: seq<Tlv>, r: seq<byte>)
    requires offset <= |m|
  {
    AllFit(ts) && m[offset..] == EncodeAll(ts) + r
  }

  /** Where the TLV at `offset` announces that it ends. */
  function Next(m: seq<byte>, offset: nat): nat
    requires offset + 4 <= |m|
  {
    offset + 4 + Word(m[offset + 2], m[offset + 3])
  }

  function TlvAt(m: seq<byte>, offset: nat): Tlv
    requires offset + 4 <= |m| && Next(m, offset) <= |m|
  {
    Tlv(Word(m[offset], m[offset + 1]), m[offset + 4..Next(m, offset)])
  }

  lemma ListGrows(m: seq<byte>, offset: nat, ts: seq<Tlv>, r: seq<byte>)
    requires offset + 4 <= |m| && Next(m, offset) <= |m| && ListThen(m, Next(m, offset), ts, r)
    ensures ListThen(m, offset, [TlvAt(m, offset)] + ts, r)
  {
    hide Encode, Fits;
    var t := TlvAt(m, offset);
    FrontIff(m, offset, Next(m, offset), t, EncodeAll(ts) + r);
    FirstFits([t] + ts);
    assert ([t] + ts)[1..] == ts;
    assert Encode(t) + (EncodeAll(ts) + r) == EncodeAll([t] + ts) + r;
  }

  lemma ListSplits(m: seq<byte>, offset: nat, ts: seq<Tlv>, r: seq<byte>)
    requires offset <= |m| && ListThen(m, offset, ts, r) && ts != []
    ensures offset + 4 <= |m| && Next(m, offset) <= |m| && TlvAt(m, offset) == ts[0]
    ensures ListThen(m, Next(m, offset), ts[1..], r)
  {
    hide Encode, Fits;
    var t, tail := ts[0], EncodeAll(ts[1..]) + r;
    FirstFits(ts);
    assert m[offset..] == Encode(t) + tail;
    EncodedFront(m[offset..], t, tail);
    assert m[offset..][2] == m[offset + 2] && m[offset..][3] == m[offset + 3];
    FrontIff(m, offset, offset + 4 + |t.payload|, t, tail);
  }

  /** The TLVs in front of the place where parsing stops, and what stands there. */
  lemma {:induction false} StopsAt(m: seq<byte>, offset: nat) returns (ts: seq<Tlv>, r: seq<byte>)
    requires offset <= |m|
    ensures ListThen(m, offset, ts, r)
    ensures Parse(m, offset) == if ReadBeyond(r) then Overrun else if TooLong(r) then Dropped else Parsed(ts)
    ensures r == [] || ReadBeyond(r) || TooLong(r)
    decreases |m| - offset
  {
    hide Parse, ListThen, ReadBeyond, TooLong;
    if offset + 4 <= |m| && Next(m, offset) <= |m| {
      var rest;
      rest, r := StopsAt(m, Next(m, offset));
      ListGrows(m, offset, rest, r);
      GoesOn(m, offset);
      ts := [TlvAt(m, offset)] + rest;
    } else {
      ts, r := [], m[offset..];
      StopsHere(m, offset);
    }
  }

  lemma GoesOn(m: seq<byte>, offset: nat)
    requires offset + 4 <= |m| && Next(m, offset) <= |m|
    ensures Parse(m, offset) == Prepend(TlvAt(m, offset), Parse(m, Next(m, offset)))
  {
  }

  lemma StopsHere(m: seq<byte>, offset: nat)
    requires offset <= |m| && (offset + 4 <= |m| ==> Next(m, offset) > |m|)
    ensures var r := m[offset..];
            && ListThen(m, offset, [], r) && (r == [] || ReadBeyond(r) || TooLong(r))
            && Parse(m, offset) == if ReadBeyond(r) then Overrun else if TooLong(r) then Dropped else Parsed([])
  {
    assert EncodeAll([]) + m[offset..] == m[offset..];
    if offset + 4 <= |m| {
      assert m[offset..][2] == m[offset + 2] && m[offset..][3] == m[offset + 3];
    }
  }

  /** Parsing goes through a list of TLVs to what follows it. */
  lemma {:induction false} ParseThrough(m: seq<byte>, offset: nat, ts: seq<Tlv>, r: seq<byte>)
    requires offset <= |m| && ListThen(m, offset, ts, r)
    ensures ReadBeyond(r) ==> Parse(m, offset).Overrun?
    ensures TooLong(r) ==> Parse(m, offset).Dropped?
    decreases |ts|
  {
    if ts == [] {
      assert m[offset..] == r;
      assert |r| >= 4 ==> r[2] == m[offset + 2] && r[3] == m[offset + 3];
    } else {
      hide ListThen, ReadBeyond, TooLong;
      ListSplits(m, offset, ts, r);
      ParseThrough(m, Next(m, offset), ts[1..], r);
    }
  }

  /** The source reads behind the end of exactly the messages in which a list of TLVs is followed by a rest too
      short for a header, or by a header whose payload is up to four octets longer than what is left for it. */
  lemma OverrunIff(m: seq<byte>, offset: nat)
    requires offset <= |m|
    ensures Parse(m, offset).Overrun? <==> exists ts, r :: ListThen(m, offset, ts, r) && ReadBeyond(r)
  {
    hide Parse, ListThen, ReadBeyond;
    var ts, r := StopsAt(m, offset);
    if ts', r' :| ListThen(m, offset, ts', r') && ReadBeyond(r') {
      ParseThrough(m, offset, ts', r');
    }
  }

  /** It drops the connection for exactly those in which the TLVs are followed by a header that announces more
      than all that is left, its own four octets included. */
  lemma DroppedIff(m: seq<byte>, offset: nat)
    requires offset <= |m|
    ensures Parse(m, offset).Dropped? <==> exists ts, r :: ListThen(m, offset, ts, r) && TooLong(r)
  {
    hide Parse, ListThen, ReadBeyond, TooLong;
    var ts, r := StopsAt(m, offset);
    if ts', r' :| ListThen(m, offset, ts', r') && TooLong(r') {
      ParseThrough(m, offset, ts', r');
    }
  }

  /** Behind a header of twelve octets, `[0, 3, 0, 4]` announces four octets of payload: the bound admits them, and
      all four lie behind the end of the message. */
  lemma PayloadBehindTheEnd(header: seq<byte>)
    requires |header| == HEADER_LENGTH
    ensures Parse(header + [0, 3, 0, 4], HEADER_LENGTH) == Overrun
  {
  }

  // ---------------------------------------------------------------------------------------------
  // The loop on the memory that a message lies in

  /** How many octets the loop can read behind the end of a message. */
  const READ_BEHIND := 4

  /** What the loop makes of a message of `n` octets that lies at the front of `memory`. */
  function ParseMemory(memory: seq<byte>, n: nat, offset: nat): (p: Parsing)
    requires n + READ_BEHIND <= |memory|
    ensures !p.Overrun?
    decreases n - offset
  {
    if offset >= n then Parsed([])
    else
      var opcode, length := Word(memory[offset], memory[offset + 1]), Word(memory[offset + 2], memory[offset + 3]);
      if length + offset > n then Dropped
      else
        var next := offset + 4 + length;
        Prepend(Tlv(opcode, memory[offset + 4..next]), ParseMemory(memory, n, next))
  }

  /** The TLVs that the loop takes, up to the end of the message or the one that announces too much. */
  function TakenFrom(memory: seq<byte>, n: nat, offset: nat): seq<Tlv>
    requires n + READ_BEHIND <= |memory|
    decreases n - offset
  {
    if offset >= n then []
    else
      var opcode, length := Word(memory[offset], memory[offset + 1]), Word(memory[offset + 2], memory[offset + 3]);
      if length + offset > n then []
      else
        var next := offset + 4 + length;
        [Tlv(opcode, memory[offset + 4..next])] + TakenFrom(memory, n, next)
  }

  /** The TLVs in front of one that announces too much are taken. */
  lemma {:induction false} TakenUpTo(memory: seq<byte>, n: nat, offset: nat, ts: seq<Tlv>, r: seq<byte>)
    requires offset <= n && n + READ_BEHIND <= |memory| && ListThen(memory[..n], offset, ts, r) && TooLong(r)
    ensures TakenFrom(memory, n, offset) == ts
    decreases |ts|
  {
    var m := memory[..n];
    if ts == [] {
      assert m[offset..] == r;
      assert r[2] == m[offset + 2] == memory[offset + 2] && r[3] == m[offset + 3] == memory[offset + 3];
    } else {
      hide ListThen, TooLong;
      ListSplits(m, offset, ts, r);
      SameInMemory(m, memory[n..], offset);
      assert m + memory[n..] == memory;
      var next := Next(m, offset);
      TakenUpTo(memory, n, next, ts[1..], r);
      assert TakenFrom(memory, n, offset) == [TlvAt(memory, offset)] + TakenFrom(memory, n, next);
    }
  }

  lemma {:induction false} AllTakenWhenParsed(memory: seq<byte>, n: nat, offset: nat)
    requires n + READ_BEHIND <= |memory| && ParseMemory(memory, n, offset).Parsed?
    ensures TakenFrom(memory, n, offset) == ParseMemory(memory, n, offset).tlvs
    decreases n - offset
  {
    if offset < n {
      AllTakenWhenParsed(memory, n, offset + 4 + Word(memory[offset + 2], memory[offset + 3]));
    }
  }

  /** A message that the loop does not read beyond is parsed from its own octets. */
  lemma {:induction false} OwnOctetsOnly(memory: seq<byte>, n: nat, offset: nat)
    requires n + READ_BEHIND <= |memory| && !Parse(memory[..n], offset).Overrun?
    ensures ParseMemory(memory, n, offset) == Parse(memory[..n], offset)
    decreases n - offset
  {
    var m := memory[..n];
    if offset + 4 <= n {
      assert m[offset] == memory[offset] && m[offset + 1] == memory[offset + 1];
      assert m[offset + 2] == memory[offset + 2] && m[offset + 3] == memory[offset + 3];
      var next := offset + 4 + Word(m[offset + 2], m[offset + 3]);
      if next <= n {
        assert m[offset + 4..next] == memory[offset + 4..next];
        OwnOctetsOnly(memory, n, next);
      }
    }
  }

  /** The rests whose fate the octets behind the message decide: all that are read beyond, but for three octets
      whose third already announces too much. */
  predicate Undecided(r: seq<byte>) {
    ReadBeyond(r) && !(|r| == 3 && r[2] != 0)
  }

  /** Four octets of one value. */
  predicate Four(s: seq<byte>, v: byte) {
    |s| == READ_BEHIND && s[0] == s[1] == s[2] == s[3] == v
  }

  /** What is behind such a message shows: with zeros there and with octets of 255, the loop comes to different
      TLVs, or to TLVs and to a drop. */
  lemma {:induction false} BehindShows(m: seq<byte>, offset: nat, ts: seq<Tlv>, r: seq<byte>,
                                       zeros: seq<byte>, ones: seq<byte>)
    requires offset <= |m| && ListThen(m, offset, ts, r) && Undecided(r) && Four(zeros, 0) && Four(ones, 255)
    ensures ParseMemory(m + zeros, |m|, offset) != ParseMemory(m + ones, |m|, offset)
    decreases |ts|
  {
    if ts == [] {
      assert m[offset..] == r;
      if |r| < 4 {
        HeaderBehindShows(m, offset, zeros, ones);
      } else {
        PayloadBehindShows(m, offset, zeros, ones);
      }
    } else {
      hide ListThen, Undecided, ParseMemory, Prepend;
      ListSplits(m, offset, ts, r);
      var next := Next(m, offset);
      BehindShows(m, next, ts[1..], r, zeros, ones);
      FirstInMemory(m, zeros, offset);
      FirstInMemory(m, ones, offset);
      var p, q := ParseMemory(m + zeros, |m|, next), ParseMemory(m + ones, |m|, next);
      if Prepend(ts[0], p) == Prepend(ts[0], q) {
        PrependInjective(ts[0], p, q);
      }
    }
  }

  lemma HeaderBehindShows(m: seq<byte>, offset: nat, zeros: seq<byte>, ones: seq<byte>)
    requires offset < |m| < offset + 4 && Undecided(m[offset..]) && Four(zeros, 0) && Four(ones, 255)
    ensures ParseMemory(m + zeros, |m|, offset) != ParseMemory(m + ones, |m|, offset)
  {
    var n, r := |m|, m[offset..];
    assert (m + zeros)[offset + 3] == 0 && (m + ones)[offset + 3] == 255;
    assert (m + zeros)[offset + 2] == 0;
    LastTlv(m + zeros, n, offset);
    assert ParseMemory(m + ones, n, offset) == Dropped;
  }

  lemma PayloadBehindShows(m: seq<byte>, offset: nat, zeros: seq<byte>, ones: seq<byte>)
    requires offset + 4 <= |m| && Undecided(m[offset..]) && Four(zeros, 0) && Four(ones, 255)
    ensures ParseMemory(m + zeros, |m|, offset) != ParseMemory(m + ones, |m|, offset)
  {
    var n, r, next := |m|, m[offset..], Next(m, offset);
    assert r[2] == m[offset + 2] && r[3] == m[offset + 3];
    assert n < next <= n + 4;
    hide Undecided, ParseMemory;
    LastTlv(m + zeros, n, offset);
    LastTlv(m + ones, n, offset);
    var k := n - offset - 4;
    assert (m + zeros)[offset + 4..next][k] == zeros[0] == 0;
    assert (m + ones)[offset + 4..next][k] == ones[0] == 255;
  }

  /** A TLV that reaches the end of the message, or passes it, is the last. */
  lemma LastTlv(memory: seq<byte>, n: nat, offset: nat)
    requires offset < n && n + READ_BEHIND <= |memory|
    requires Word(memory[offset + 2], memory[offset + 3]) + offset <= n <= Next(memory, offset)
    ensures ParseMemory(memory, n, offset) == Parsed([TlvAt(memory, offset)])
  {
  }

  lemma PrependInjective(t: Tlv, p: Parsing, q: Parsing)
    requires Prepend(t, p) == Prepend(t, q)
    ensures p == q
  {
    if p.Parsed? && q.Parsed? {
      assert ([t] + p.tlvs)[1..] == p.tlvs && ([t] + q.tlvs)[1..] == q.tlvs;
    }
  }

  lemma Unfolded(memory: seq<byte>, n: nat, offset: nat)
    requires n + READ_BEHIND <= |memory| && offset + 4 <= n && Next(memory, offset) <= n
    ensures ParseMemory(memory, n, offset)
            == Prepend(TlvAt(memory, offset), ParseMemory(memory, n, Next(memory, offset)))
  {
  }

  lemma SameInMemory(m: seq<byte>, behind: seq<byte>, offset: nat)
    requires offset + 4 <= |m| && Next(m, offset) <= |m|
    ensures Next(m + behind, offset) == Next(m, offset) && TlvAt(m + behind, offset) == TlvAt(m, offset)
  {
    var memory, next := m + behind, Next(m, offset);
    assert memory[offset] == m[offset] && memory[offset + 1] == m[offset + 1];
    assert memory[offset + 2] == m[offset + 2] && memory[offset + 3] == m[offset + 3];
    assert memory[offset + 4..next] == m[offset + 4..next];
  }

  /** A TLV that lies inside the message is taken whatever is behind it. */
  lemma FirstInMemory(m: seq<byte>, behind: seq<byte>, offset: nat)
    requires |behind| == READ_BEHIND && offset + 4 <= |m| && Next(m, offset) <= |m|
    ensures ParseMemory(m + behind, |m|, offset)
            == Prepend(TlvAt(m, offset), ParseMemory(m + behind, |m|, Next(m, offset)))
  {
    hide Prepend;
    SameInMemory(m, behind, offset);
    Unfolded(m + behind, |m|, offset);
  }

  /** What the loop comes to depends on the octets behind a message exactly when its TLVs are followed by an
      undecided rest. */
  lemma DependsOnBehindIff(m: seq<byte>, offset: nat)
    requires offset <= |m|
    ensures (exists ts, r :: ListThen(m, offset, ts, r) && Undecided(r))
            <==> exists a, b :: SeesDifferently(m, offset, a, b)
  {
    hide ListThen, Undecided, ParseMemory;
    if ts, r :| ListThen(m, offset, ts, r) && Undecided(r) {
      var zeros, ones: seq<byte> := [0, 0, 0, 0], [255, 255, 255, 255];
      BehindShows(m, offset, ts, r, zeros, ones);
      assert SeesDifferently(m, offset, zeros, ones);
    }
    if a, b :| SeesDifferently(m, offset, a, b) {
      var ts, r := StopsAt(m, offset);
      DecidedAlike(m, offset, ts, r, a, b);
    }
  }

  ghost predicate SeesDifferently(m: seq<byte>, offset: nat, a: seq<byte>, b: seq<byte>) {
    && |a| == |b| == READ_BEHIND
    && ParseMemory(m + a, |m|, offset) != ParseMemory(m + b, |m|, offset)
  }

  lemma {:induction false} DecidedAlike(m: seq<byte>, offset: nat, ts: seq<Tlv>, r: seq<byte>,
                                        a: seq<byte>, b: seq<byte>)
    requires offset <= |m| && ListThen(m, offset, ts, r) && |a| == |b| == READ_BEHIND
    requires r == [] || ReadBeyond(r) || TooLong(r)
    ensures !Undecided(r) ==> ParseMemory(m + a, |m|, offset) == ParseMemory(m + b, |m|, offset)
    decreases |ts|
  {
    if ts == [] {
      assert m[offset..] == r;
      assert |r| >= 3 ==> r[2] == m[offset + 2] == (m + a)[offset + 2] == (m + b)[offset + 2];
      assert |r| >= 4 ==> r[3] == m[offset + 3] == (m + a)[offset + 3] == (m + b)[offset + 3];
    } else {
      hide ListThen, Undecided, ReadBeyond, TooLong;
      ListSplits(m, offset, ts, r);
      DecidedAlike(m, Next(m, offset), ts[1..], r, a, b);
      FirstInMemory(m, a, offset);
      FirstInMemory(m, b, offset);
    }
  }
}
