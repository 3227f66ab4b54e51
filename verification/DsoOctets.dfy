/** The messages of the DSO half octet by octet, with the numbers of RFC 8490 in figures: what is sent, and what a
    message received does to the endpoint that receives it. */
module DsoOctets {
  import opened Bytes
  import opened Tlvs
  import opened DsoMessage
  import opened DsoWrite
  import opened DsoQueries
  import opened DsoReceive

  /** A new header: the identifier low octet first, opcode 6, and zeros. */
  lemma HeaderSpelled(id: word)
    ensures NewHeader(id) == [id % 256, id / 256, 48, 0, 0, 0, 0, 0, 0, 0, 0, 0] && 48 / 8 == 6
  {
    OctetsInFigures(id);
  }

  /** A TLV: its type and its length, high octet first, then its payload; and a message behind its length. */
  lemma EncodingSpelled(t: Tlv, message: seq<byte>)
    requires |t.payload| <= 65535 && |message| <= 65535
    ensures Encode(t) == [t.opcode / 256, t.opcode % 256, |t.payload| / 256, |t.payload| % 256] + t.payload
    ensures Framed(message) == [|message| / 256, |message| % 256] + message
  {
    OctetsInFigures(t.opcode);
    OctetsInFigures(|t.payload|);
    OctetsInFigures(|message|);
    hide Hi, Lo;
  }

  /** The identifier of a message. */
  function IdOf(m: seq<byte>): nat
    requires |m| >= 12
  {
    var low: int, high: int := m[0], m[1];
    low + 256 * high
  }

  predicate LengthAllowed(m: seq<byte>) {
    |m| == 12 || |m| >= 16
  }

  /** A response to a query that is outstanding. */
  predicate Expected(table: Table, m: seq<byte>) {
    LengthAllowed(m) && m[2] >= 128 && IdOf(m) != 0 && IdOf(m) in table
  }

  predicate CountsClear(m: seq<byte>)
    requires |m| >= 12
  {
    m[4] == 0 && m[5] == 0 && m[6] == 0 && m[7] == 0 && m[8] == 0 && m[9] == 0 && m[10] == 0 && m[11] == 0
  }

  /** What a message does to its endpoint: the header is sound when length and counts are right and a response is
      expected; an expected response takes its query off the table, whatever its counts; a server has a session after a
      sound request, and a client after an expected response whose code is zero; and without a session, a server may
      not be sent a response nor a client a request. */
  lemma ReceivedSpelled(isServer: bool, had: bool, table: Table, m: seq<byte>)
    ensures HeaderSound(table, m) <==> LengthAllowed(m) && CountsClear(m) && (m[2] >= 128 ==> Expected(table, m))
    ensures TableAfter(table, m) == if Expected(table, m) then table - {IdOf(m)} else table
    ensures SessionAfter(isServer, had, table, m) <==>
              || had
              || (isServer && LengthAllowed(m) && CountsClear(m) && m[2] < 128)
              || (!isServer && Expected(table, m) && m[3] % 16 == 0)
    ensures |m| >= 12 ==>
              (OutOfSession(isServer, had, m) <==> !had && if isServer then m[2] >= 128 else m[2] < 128)
  {
    if |m| >= 12 {
      IdInFigures(m);
      CountsInFigures(m);
    }
    hide Id, IdOf, CountsZero, CountsClear;
  }

  lemma IdInFigures(m: seq<byte>)
    requires |m| >= 12
    ensures Id(m) == IdOf(m)
  {
  }

  lemma CountsInFigures(m: seq<byte>)
    requires |m| >= 12
    ensures CountsZero(m) <==> CountsClear(m)
  {
  }

  /** The TLVs that a callback sees: the first, and of the others the ten that come next; and those of the message
      before stay in front of a request that has none. */
  lemma SeenSpelled(before: Held, m: seq<byte>, ts: seq<Tlv>)
    requires |m| >= 12
    ensures var held := HeldAfter(before, m, ts);
            if ts == [] then held == if m[2] >= 128 then Held(Tlv(0, []), []) else before
            else
              && held.primary == ts[0]
              && |held.additls| == (if |ts| > 11 then 10 else |ts| - 1)
              && forall k | 0 <= k < |held.additls| :: held.additls[k] == ts[k + 1]
  {
  }

  /** What is held after a message that is not acceptable: an expected response that is a header alone has cleared it,
      and otherwise a message with an unsound header leaves it; behind a sound one, the TLVs in front of the one that
      announces too much have been taken. */
  lemma HeldWhenDropped(before: Held, table: Table, memory: seq<byte>, n: nat, ts: seq<Tlv>, r: seq<byte>)
    requires 12 <= n && n + 4 <= |memory|
    requires !HeaderSound(table, memory[..n]) || (ListThen(memory[..n], 12, ts, r) && TooLong(r))
    ensures HeldWhatever(before, table, memory, n) ==
            if !HeaderSound(table, memory[..n]) then
              (if Expected(table, memory[..n]) && n == 12 then Held(Tlv(0, []), []) else before)
            else if ts == [] then before
            else Held(ts[0], if |ts| > 11 then ts[1..11] else ts[1..])
  {
    var m := memory[..n];
    ReceivedSpelled(false, false, table, m);
    if HeaderSound(table, m) {
      TakenUpTo(memory, n, 12, ts, r);
      assert m[12..] == EncodeAll(ts) + r;
    }
    hide HeaderSound, TakenFrom, ListThen, Answers, IdOf, CountsClear;
    assert Answers(table, m) <==> Expected(table, m) by {
      AnswersIff(table, m);
    }
  }

  lemma AnswersIff(table: Table, m: seq<byte>)
    ensures Answers(table, m) <==> Expected(table, m)
  {
    if |m| >= 12 {
      IdInFigures(m);
    }
    hide Id, IdOf;
  }
}
