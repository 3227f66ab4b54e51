/** A DSO connection receiving messages: validation, the matching of responses with queries, session
    establishment and the TLVs handed to the callback. */
module DsoReceive {
  import opened Bytes
  import opened Tlvs
  import opened DsoMessage
  import opened DsoQueries

  const TYPE_KEEPALIVE := 1
  const TYPE_RETRY_DELAY := 2

  /** The call made for a message: none, one of the two built-in types, or one for a response or a request; and the two
      for messages that are not DSO. */
  datatype Event =
    | NoEvent | Keepalive | RetryDelay | Response(context: nat, rcode: nat) | Request
    | DnsMessage | DnsResponse

  predicate IsResponse(m: seq<byte>)
    requires |m| >= HEADER_LENGTH
  {
    m[2] >= 0x80
  }

  /** The identifier as it lies in memory. */
  function Id(m: seq<byte>): word
    requires |m| >= HEADER_LENGTH
  {
    Word(m[1], m[0])
  }

  function Rcode(m: seq<byte>): nat
    requires |m| >= HEADER_LENGTH
  {
    m[3] % 16
  }

  predicate CountsZero(m: seq<byte>)
    requires |m| >= HEADER_LENGTH
  {
    forall k | 4 <= k < 12 :: m[k] == 0
  }

  lemma HeaderOf(id: word)
    ensures var h := NewHeader(id); Id(h) == id && !IsResponse(h) && CountsZero(h)
  {
  }

  /** A length that a message may have: a header alone, or room behind it for a TLV. */
  predicate LengthSound(m: seq<byte>) {
    |m| == HEADER_LENGTH || |m| >= 16
  }

  /** A response to an outstanding query. */
  predicate Answers(table: Table, m: seq<byte>) {
    LengthSound(m) && IsResponse(m) && Id(m) != 0 && Id(m) in table
  }

  /** What is tested before the TLVs: the length, the counts, and the query that a response answers. */
  predicate HeaderSound(table: Table, m: seq<byte>) {
    LengthSound(m) && CountsZero(m) && (IsResponse(m) ==> Answers(table, m))
  }

  /** The message of `n` octets at the front of `memory` has a sound header and the loop goes through it. */
  predicate Acceptable(table: Table, memory: seq<byte>, n: nat)
    requires n + READ_BEHIND <= |memory|
  {
    HeaderSound(table, memory[..n]) && ParseMemory(memory, n, HEADER_LENGTH).Parsed?
  }

  /** The queries that still await a response after any message: a response frees its query before the counts in
      its header are looked at. */
  function TableAfter(table: Table, m: seq<byte>): Table {
    if Answers(table, m) then table - {Id(m)} else table
  }

  /** A session is established by a sound request that reaches a server, and by a response without an error. */
  predicate SessionAfter(isServer: bool, had: bool, table: Table, m: seq<byte>) {
    || had
    || (!isServer && Answers(table, m) && Rcode(m) == 0)
    || (isServer && HeaderSound(table, m) && !IsResponse(m))
  }

  /** A message of the wrong kind while there is no session. */
  predicate OutOfSession(isServer: bool, hasSession: bool, m: seq<byte>)
    requires |m| >= HEADER_LENGTH
  {
    !hasSession && IsResponse(m) == isServer
  }

  /** The event of a message that is not of a built-in type. */
  function AnswerEvent(table: Table, m: seq<byte>): (event: Event)
    requires HeaderSound(table, m)
    ensures event.Response? || event.Request?
  {
    if IsResponse(m) then Event.Response(table[Id(m)], Rcode(m)) else Request
  }

  function EventOf(table: Table, m: seq<byte>, ts: seq<Tlv>): (event: Event)
    requires HeaderSound(table, m)
    ensures event != NoEvent && !event.DnsMessage? && !event.DnsResponse?
  {
    if ts != [] && ts[0].opcode == TYPE_KEEPALIVE then Keepalive
    else if ts != [] && ts[0].opcode == TYPE_RETRY_DELAY then RetryDelay
    else AnswerEvent(table, m)
  }

  /** The event of an acceptable message, read off its octets: keepalive when the first TLV behind the header has type
      1, retry delay when it has type 2, and otherwise a response with the context of the query that has its identifier,
      or a request. */
  predicate Handed(table: Table, memory: seq<byte>, n: nat, event: Event)
    requires 12 <= n && n + 4 <= |memory|
  {
    if n > 12 && memory[12] == 0 && memory[13] == 1 then event == Keepalive
    else if n > 12 && memory[12] == 0 && memory[13] == 2 then event == RetryDelay
    else if memory[2] >= 0x80 then
      var high: int, low: int := memory[1], memory[0];
      var id := 256 * high + low;
      id in table && event == Event.Response(table[id], memory[3] % 16)
    else event == Request
  }

  /** It does not depend on how the message is taken apart. */
  lemma EventOfOctets(table: Table, memory: seq<byte>, n: nat)
    requires n + READ_BEHIND <= |memory| && Acceptable(table, memory, n)
    ensures Handed(table, memory, n, EventOf(table, memory[..n], ParseMemory(memory, n, HEADER_LENGTH).tlvs))
  {
    HasTlvsIff(memory, n);
    var m := memory[..n];
    assert m[0] == memory[0] && m[1] == memory[1] && m[2] == memory[2] && m[3] == memory[3];
    if n > 12 {
      CutRange(memory, n, HEADER_LENGTH);
    }
    hide ParseMemory, TakenFrom, CountsZero;
  }

  /** On a connection that stands after an acceptable message there is a session, unless this endpoint is a client
      whose request was answered with an error. */
  lemma SessionOrRefusal(isServer: bool, had: bool, table: Table, m: seq<byte>)
    requires HeaderSound(table, m)
    ensures var hasSession := SessionAfter(isServer, had, table, m);
            && (!OutOfSession(isServer, hasSession, m) ==>
                  hasSession || (!isServer && IsResponse(m) && Rcode(m) != 0))
            && (had ==> hasSession && !OutOfSession(isServer, hasSession, m))
  {
  }

  // ---------------------------------------------------------------------------------------------
  // The TLVs a callback sees

  /** The primary TLV and the additional ones, as `dso_state_t` holds them. */
  datatype Held = Held(primary: Tlv, additls: seq<Tlv>)

  const NOTHING := Held(Tlv(0, []), [])

  /** The additional TLVs there is room for. */
  function Additional(ts: seq<Tlv>): seq<Tlv>
    requires ts != []
  {
    if |ts| <= 1 + MAX_ADDITLS then ts[1..] else ts[1..1 + MAX_ADDITLS]
  }

  /** A message's own TLVs. */
  function Own(ts: seq<Tlv>): Held {
    if ts == [] then NOTHING else Held(ts[0], Additional(ts))
  }

  /** What is held after an acceptable message with TLVs `ts`: they are cleared for a response without any, and for
      a request without any those of the message before stay. */
  function HeldAfter(before: Held, m: seq<byte>, ts: seq<Tlv>): Held
    requires |m| >= HEADER_LENGTH
  {
    if ts == [] && !IsResponse(m) then before else Own(ts)
  }

  /** What is held after any message: a response that is a header alone clears the TLVs before its counts are looked
      at, and behind a sound header those in front of one that announces too much are taken. */
  function HeldWhatever(before: Held, table: Table, memory: seq<byte>, n: nat): Held
    requires n + READ_BEHIND <= |memory|
  {
    var m := memory[..n];
    var cleared := if Answers(table, m) && n == HEADER_LENGTH then NOTHING else before;
    if !HeaderSound(table, m) then cleared else HeldFrom(cleared, TakenFrom(memory, n, HEADER_LENGTH))
  }

  /** What the loop leaves when it takes `ts`. */
  function HeldFrom(before: Held, ts: seq<Tlv>): Held {
    if ts == [] then before else Own(ts)
  }

  lemma HeldWhenAcceptable(before: Held, table: Table, memory: seq<byte>, n: nat)
    requires n + READ_BEHIND <= |memory| && Acceptable(table, memory, n)
    ensures HeldWhatever(before, table, memory, n)
            == HeldAfter(before, memory[..n], ParseMemory(memory, n, HEADER_LENGTH).tlvs)
  {
    AllTakenWhenParsed(memory, n, HEADER_LENGTH);
    HasTlvsIff(memory, n);
    hide ParseMemory, TakenFrom, Additional;
  }

  /** The callback sees a message's own TLVs exactly when it has some, or is a response, or nothing was held before. */
  lemma SeesOwnTlvsIff(before: Held, m: seq<byte>, ts: seq<Tlv>)
    requires |m| >= HEADER_LENGTH
    ensures HeldAfter(before, m, ts) == Own(ts) <==> ts != [] || IsResponse(m) || before == NOTHING
  {
  }

  /** The messages that have some are those longer than a header. */
  lemma HasTlvsIff(memory: seq<byte>, n: nat)
    requires HEADER_LENGTH <= n && n + READ_BEHIND <= |memory|
    ensures var p := ParseMemory(memory, n, HEADER_LENGTH); p.Parsed? ==> (p.tlvs != [] <==> n > HEADER_LENGTH)
  {
  }

  /** A request with one TLV, then one with none: for the second, whatever lies behind it, the callback sees the TLV
      of the first. */
  lemma StaleTlvSeen(behind: seq<byte>)
    requires |behind| == READ_BEHIND
    ensures var first: seq<byte> := NewHeader(0) + [0, 64, 0, 1, 7];
            var second := NewHeader(0);
            var ts := ParseMemory(first + behind, 17, HEADER_LENGTH);
            && Acceptable(map[], first + behind, 17) && ts == Parsed([Tlv(64, [7])])
            && Acceptable(map[], second + behind, HEADER_LENGTH)
            && ParseMemory(second + behind, HEADER_LENGTH, HEADER_LENGTH) == Parsed([])
            && HeldAfter(HeldAfter(NOTHING, first, ts.tlvs), second, []) == Held(Tlv(64, [7]), [])
  {
    var first: seq<byte> := NewHeader(0) + [0, 64, 0, 1, 7];
    var second, memory := NewHeader(0), first + behind;
    assert memory[..17] == first && (second + behind)[..HEADER_LENGTH] == second;
    assert memory[12..17] == [0, 64, 0, 1, 7] && memory[16..17] == [7];
    LastTlv(memory, 17, HEADER_LENGTH);
  }

  // ---------------------------------------------------------------------------------------------
  // The loop

  /** What the loop has at `offset`, with `taken` behind it: either nothing yet, and what was held before, or the
      first TLV as the primary one and as many others as there is room for. */
  ghost predicate Cutting(memory: seq<byte>, n: nat, offset: nat, taken: seq<Tlv>, held: Held, before: Held)
    requires n + READ_BEHIND <= |memory|
  {
    && offset >= HEADER_LENGTH
    && (ParseMemory(memory, n, HEADER_LENGTH).Parsed? <==> ParseMemory(memory, n, offset).Parsed?)
    && TakenFrom(memory, n, HEADER_LENGTH) == taken + TakenFrom(memory, n, offset)
    && if taken == [] then offset == HEADER_LENGTH && held == before else offset > HEADER_LENGTH && held == Own(taken)
  }

  /** The TLV at `offset` announces too much, or it is taken and the rest parses on. */
  lemma CutRange(memory: seq<byte>, n: nat, offset: nat)
    requires n + READ_BEHIND <= |memory| && offset < n
    ensures offset + 4 <= |memory|
    ensures if Next(memory, offset) > n + 4 then
              ParseMemory(memory, n, offset) == Dropped && TakenFrom(memory, n, offset) == []
            else
              && Next(memory, offset) <= |memory|
              && TakenFrom(memory, n, offset) == [TlvAt(memory, offset)] + TakenFrom(memory, n, Next(memory, offset))
              && ParseMemory(memory, n, offset)
                 == Prepend(TlvAt(memory, offset), ParseMemory(memory, n, Next(memory, offset)))
  {
  }

  /** The TLVs held after one more: the first becomes the primary one, and the others are added while there is
      room. */
  function HeldNext(held: Held, first: bool, tlv: Tlv): Held {
    if first then Held(tlv, [])
    else if |held.additls| < MAX_ADDITLS then Held(held.primary, held.additls + [tlv])
    else held
  }

  lemma CutNext(memory: seq<byte>, n: nat, offset: nat, next: nat, tlv: Tlv, taken: seq<Tlv>, held: Held, before: Held)
    requires n + READ_BEHIND <= |memory| && Cutting(memory, n, offset, taken, held, before) && next > offset
    requires ParseMemory(memory, n, offset) == Prepend(tlv, ParseMemory(memory, n, next))
    requires TakenFrom(memory, n, offset) == [tlv] + TakenFrom(memory, n, next)
    ensures Cutting(memory, n, next, taken + [tlv], HeldNext(held, offset == HEADER_LENGTH, tlv), before)
  {
    hide ParseMemory, TakenFrom, Additional;
    OwnNext(taken, tlv);
    var rest := TakenFrom(memory, n, next);
    assert taken + ([tlv] + rest) == taken + [tlv] + rest;
  }

  lemma OwnNext(taken: seq<Tlv>, tlv: Tlv)
    ensures Own(taken + [tlv]) == HeldNext(Own(taken), taken == [], tlv)
  {
  }

  lemma CutEnd(memory: seq<byte>, n: nat, offset: nat, taken: seq<Tlv>, held: Held, before: Held)
    requires HEADER_LENGTH <= n <= offset && n + READ_BEHIND <= |memory|
    requires Cutting(memory, n, offset, taken, held, before)
    ensures ParseMemory(memory, n, HEADER_LENGTH).Parsed?
    ensures held == HeldFrom(before, TakenFrom(memory, n, HEADER_LENGTH))
  {
    assert taken + [] == taken;
  }

  lemma CutHere(memory: seq<byte>, n: nat, offset: nat, taken: seq<Tlv>, held: Held, before: Held)
    requires n + READ_BEHIND <= |memory| && Cutting(memory, n, offset, taken, held, before)
    ensures ParseMemory(memory, n, HEADER_LENGTH).Parsed? <==> ParseMemory(memory, n, offset).Parsed?
    ensures TakenFrom(memory, n, offset) == [] ==> held == HeldFrom(before, TakenFrom(memory, n, HEADER_LENGTH))
  {
    assert taken + [] == taken;
  }

  lemma CutStart(memory: seq<byte>, n: nat, held: Held)
    requires n + READ_BEHIND <= |memory|
    ensures Cutting(memory, n, HEADER_LENGTH, [], held, held)
  {
  }

  // ---------------------------------------------------------------------------------------------

  /** `dso_state_t` without its transport and its place in the lists. */
  class Endpoint {
    const isServer: bool
    const hasCallback: bool
    const queries: Queries
    var hasSession: bool
    var held: Held
    var dropped: bool

    constructor (isServer: bool, maxOutstandingQueries: nat, hasCallback: bool)
      ensures Valid() && queries.table == map[] && !hasSession && !dropped && held == NOTHING
      ensures this.isServer == isServer && this.hasCallback == hasCallback
      ensures fresh(queries) && fresh(queries.ids) && fresh(queries.contexts)
    {
      this.isServer, this.hasCallback := isServer, hasCallback;
      queries := new Queries(maxOutstandingQueries);
      hasSession, dropped, held := false, false, NOTHING;
    }

    ghost predicate Valid()
      reads this, queries, queries.ids, queries.contexts
    {
      queries.Valid()
    }

    /** `dso_make_message`: a header in the caller's buffer, with an identifier for a message that wants a
        response.  A server needs a session for any message, a client for a unidirectional one. */
    method MakeMessage(outbuf: array<byte>, unidirectional: bool, callbackState: nat, random: seq<word>)
      returns (made: bool, msg: Message?)
      requires Valid() && outbuf.Length >= HEADER_LENGTH && |random| == 1001
      requires (isServer || unidirectional) ==> hasSession
      modifies outbuf, queries, queries.ids, queries.contexts
      ensures Valid()
      ensures made <==> unidirectional || Available(queries.ids.Length, old(queries.table), random)
      ensures made ==> msg != null && fresh(msg) && msg.Valid() && msg.buf == outbuf && msg.cur == HEADER_LENGTH
                       && !msg.buildingTlv && msg.done == [] && msg.noCopyBytes == []
      ensures made ==> msg.header == NewHeader(Id(msg.header))
      ensures made && unidirectional ==> Id(msg.header) == 0 && queries.table == old(queries.table)
      ensures made && !unidirectional ==>
                && FirstFree(old(queries.table), random, Id(msg.header))
                && queries.table == old(queries.table)[Id(msg.header) := callbackState]
      ensures !made ==> queries.table == old(queries.table)
    {
      hide Message.Valid, Represents, NewHeader, Id, Available, FirstFree;
      msg := null;
      made := true;
      var id: word := 0;
      if !unidirectional {
        var number;
        made, id, number := queries.MakeQuery(callbackState, random);
      }
      if made {
        msg := new Message(outbuf, id);
        HeaderOf(id);
      }
    }

    /** The loop that cuts a message of `n` octets at the front of `memory` into TLVs. */
    method TakeTlvs(memory: seq<byte>, n: nat) returns (ok: bool)
      requires HEADER_LENGTH <= n && n + READ_BEHIND <= |memory|
      modifies this`held, this`dropped
      ensures ok <==> ParseMemory(memory, n, HEADER_LENGTH).Parsed?
      ensures dropped == (old(dropped) || !ok)
      ensures held == HeldFrom(old(held), TakenFrom(memory, n, HEADER_LENGTH))
    {
      hide ParseMemory, TakenFrom, Cutting, Additional, HeldFrom;
      var offset := HEADER_LENGTH;
      ghost var taken: seq<Tlv> := [];
      CutStart(memory, n, held);
      while offset < n
        invariant offset >= HEADER_LENGTH && dropped == old(dropped)
        invariant Cutting(memory, n, offset, taken, held, old(held))
        decreases n - offset
      {
        CutHere(memory, n, offset, taken, held, old(held));
        CutRange(memory, n, offset);
        var opcode := Word(memory[offset], memory[offset + 1]);
        var length := Word(memory[offset + 2], memory[offset + 3]);
        if length + offset > n {
          dropped := true;
          return false;
        }
        var tlv := Tlv(opcode, memory[offset + 4..offset + 4 + length]);
        CutNext(memory, n, offset, offset + 4 + length, tlv, taken, held, old(held));
        if offset == HEADER_LENGTH {
          held := Held(tlv, []);
        } else if |held.additls| < MAX_ADDITLS {
          held := Held(held.primary, held.additls + [tlv]);
        }
        taken := taken + [tlv];
        offset := offset + 4 + length;
      }
      CutEnd(memory, n, offset, taken, held, old(held));
      ok := true;
    }

    /** The first half of `dso_message_received`, for a response: the query it answers is taken off the table, a
        client's first response without an error establishes the session, and a response that is a header alone
        clears the TLVs. */
    method MatchResponse(message: seq<byte>) returns (ok: bool, event: Event)
      requires Valid() && |message| >= HEADER_LENGTH && IsResponse(message)
      modifies this, queries, queries.ids, queries.contexts
      ensures Valid()
      ensures ok <==> Answers(old(queries.table), message)
      ensures ok ==> event == Event.Response(old(queries.table)[Id(message)], Rcode(message))
      ensures dropped == (old(dropped) || !ok) && queries.table == TableAfter(old(queries.table), message)
      ensures hasSession == (old(hasSession) || (ok && !isServer && Rcode(message) == 0))
      ensures held == if ok && |message| == HEADER_LENGTH then NOTHING else old(held)
    {
      hide Represents, Parse;
      ok, event := false, NoEvent;
      if Id(message) == 0 || (|message| < 16 && |message| != 12) {
        dropped := true;
        return;
      }
      var context;
      ok, context := queries.TakeResponse(Id(message));
      if !ok {
        dropped := true;
        return;
      }
      event := Event.Response(context, Rcode(message));
      if !isServer && !hasSession && Rcode(message) == 0 {
        hasSession := true;
      }
      if |message| == 12 {
        held := NOTHING;
      }
    }

    /** `dso_message_received` up to its loop: the checks on the header, the match with a query, and the session.
        A message of the wrong kind before there is a session drops the connection and is handed on all the same. */
    method Admit(message: seq<byte>) returns (ok: bool, answer: Event)
      requires Valid()
      modifies this, queries, queries.ids, queries.contexts
      ensures Valid()
      ensures ok <==> HeaderSound(old(queries.table), message)
      ensures ok ==> answer == AnswerEvent(old(queries.table), message)
      ensures queries.table == TableAfter(old(queries.table), message)
      ensures hasSession == SessionAfter(isServer, old(hasSession), old(queries.table), message)
      ensures dropped == (old(dropped) || !ok || OutOfSession(isServer, hasSession, message))
      ensures held == if Answers(old(queries.table), message) && |message| == HEADER_LENGTH then NOTHING else old(held)
    {
      ok, answer := false, Request;
      if |message| < 12 {
        dropped := true;
        return;
      }
      hide Represents, CountsZero, Id, Rcode;
      var response := IsResponse(message);
      if response {
        ok, answer := MatchResponse(message);
        if !ok {
          return;
        }
      }
      if !CountsZero(message) || (|message| < 16 && |message| != 12) {
        dropped, ok := true, false;
        return;
      }
      if !hasSession && isServer && !response {
        hasSession := true;
      }
      if !hasSession && ((isServer && response) || (!isServer && !response)) {
        dropped := true;
      }
      ok := true;
    }

    /** What a message does: to the table, the session, the connection and the TLVs held, and the event it makes. */
    twostate predicate Received(memory: seq<byte>, n: nat, event: Event)
      requires n + READ_BEHIND <= |memory|
      reads this, queries
    {
      && queries.table == TableAfter(old(queries.table), memory[..n])
      && hasSession == SessionAfter(isServer, old(hasSession), old(queries.table), memory[..n])
      && dropped == (old(dropped) || !Acceptable(old(queries.table), memory, n)
                     || OutOfSession(isServer, hasSession, memory[..n]))
      && event == (if !hasCallback || !Acceptable(old(queries.table), memory, n) then NoEvent
                   else EventOf(old(queries.table), memory[..n], ParseMemory(memory, n, HEADER_LENGTH).tlvs))
      && held == HeldWhatever(old(held), old(queries.table), memory, n)
      && (Acceptable(old(queries.table), memory, n) ==>
            held == HeldAfter(old(held), memory[..n], ParseMemory(memory, n, HEADER_LENGTH).tlvs))
    }

    /** `dns_message_received`: a message of another opcode goes to the callback as plain DNS, a response as a message
        and a request as a response, and changes nothing. */
    method DnsMessageReceived(memory: seq<byte>, n: nat) returns (event: Event)
      requires Valid() && n + READ_BEHIND <= |memory|
      modifies this, queries, queries.ids, queries.contexts
      ensures Valid()
      ensures if n >= 12 && memory[2] / 8 % 16 != 6 then
                && unchanged(this) && unchanged(queries) && unchanged(queries.ids) && unchanged(queries.contexts)
                && event == if !hasCallback then NoEvent else if memory[2] >= 128 then DnsMessage else DnsResponse
              else Received(memory, n, event)
    {
      hide ParseMemory, TakenFrom, Represents, EventOf, HeldAfter, CountsZero, Id, Recorded;
      if n < 12 {
        dropped := true;
        return NoEvent;
      }
      var flags: int := memory[2];
      if flags / 8 % 16 != OPCODE_DSO / 8 {
        event := if !hasCallback then NoEvent else if flags >= 0x80 then DnsMessage else DnsResponse;
      } else {
        event := MessageReceived(memory, n);
      }
    }

    /** `dso_message_received`, for a message of `n` octets at the front of `memory`.  What lies behind it is the
        rest of the input buffer and the output buffer, which are allocated in one piece.  An acceptable message is
        taken apart and handed to the callback, and no other is; for any other the connection is dropped. */
    method MessageReceived(memory: seq<byte>, n: nat) returns (event: Event)
      requires Valid() && n + READ_BEHIND <= |memory|
      modifies this, queries, queries.ids, queries.contexts
      ensures Valid()
      ensures queries.table == TableAfter(old(queries.table), memory[..n])
      ensures hasSession == SessionAfter(isServer, old(hasSession), old(queries.table), memory[..n])
      ensures dropped == (old(dropped) || !Acceptable(old(queries.table), memory, n)
                          || OutOfSession(isServer, hasSession, memory[..n]))
      ensures event == if !hasCallback || !Acceptable(old(queries.table), memory, n) then NoEvent
                       else EventOf(old(queries.table), memory[..n], ParseMemory(memory, n, HEADER_LENGTH).tlvs)
      ensures hasCallback && Acceptable(old(queries.table), memory, n) ==>
                Handed(old(queries.table), memory, n, event)
      ensures held == HeldWhatever(old(held), old(queries.table), memory, n)
      ensures Acceptable(old(queries.table), memory, n) ==>
                held == HeldAfter(old(held), memory[..n], ParseMemory(memory, n, HEADER_LENGTH).tlvs)
    {
      event := NoEvent;
      var message := memory[..n];
      var ok, answer := Admit(message);
      if !ok {
        return;
      }
      HasTlvsIff(memory, n);
      ghost var table := old(queries.table);
      if Acceptable(table, memory, n) {
        HeldWhenAcceptable(old(held), table, memory, n);
        AllTakenWhenParsed(memory, n, HEADER_LENGTH);
        EventOfOctets(table, memory, n);
      }
      hide Handed, Represents, ParseMemory, TakenFrom, AnswerEvent, CountsZero, Additional;
      ok := TakeTlvs(memory, n);
      if ok && hasCallback {
        if n != 12 && held.primary.opcode == TYPE_KEEPALIVE {
          event := Keepalive;
        } else if n != 12 && held.primary.opcode == TYPE_RETRY_DELAY {
          event := RetryDelay;
        } else {
          event := answer;
        }
      }
    }
  }
}
