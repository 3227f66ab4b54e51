/** One request and its answer between the two ends of a DSO connection, both as they run. */
module DsoExchange {
  import opened Bytes
  import opened Tlvs
  import opened DsoMessage
  import opened DsoWrite
  import opened DsoRead
  import opened DsoReceive
  import opened DsoQueries
  import opened DsoRoundTrip

  lemma EncodedFront(ts: seq<Tlv>, i: nat)
    requires i < |ts|
    ensures |EncodeAll(ts[..i + 1])| == |EncodeAll(ts[..i])| + 4 + |ts[i].payload| <= |EncodeAll(ts)|
  {
    assert ts[..i + 1] == ts[..i] + [ts[i]];
    EncodeAllSnoc(ts[..i], ts[i]);
    EncodedParts(ts, i + 1);
  }

  lemma {:induction false} EncodedParts(ts: seq<Tlv>, i: nat)
    requires i <= |ts|
    ensures |EncodeAll(ts[..i])| <= |EncodeAll(ts)|
  {
    if i > 0 {
      EncodedParts(ts[1..], i - 1);
      assert ts[..i][1..] == ts[1..][..i - 1];
    }
  }

  /** TLVs put into a message one after another, in a buffer with room for them. */
  method BuildTlvs(msg: Message, ts: seq<Tlv>)
    requires msg.Valid() && !msg.buildingTlv && AllFit(ts) && msg.cur + |EncodeAll(ts)| < msg.buf.Length
    modifies msg, msg.buf
    ensures msg.Valid() && !msg.buildingTlv && msg.done == old(msg.done) + ts
    ensures msg.header == old(msg.header) && msg.noCopyBytes == old(msg.noCopyBytes)
  {
    hide EncodeAll, Message.Valid;
    assert ts[..0] == [] && EncodeAll([]) == [] by {
      NothingEncoded();
    }
    for i := 0 to |ts|
      invariant msg.Valid() && !msg.buildingTlv && msg.done == old(msg.done) + ts[..i]
      invariant msg.header == old(msg.header) && msg.noCopyBytes == old(msg.noCopyBytes)
      invariant msg.cur == old(msg.cur) + |EncodeAll(ts[..i])|
    {
      EncodedFront(ts, i);
      msg.StartTlv(ts[i].opcode);
      msg.AddTlvBytes(ts[i].payload);
      TlvLengthIs(msg);
      assert [] + ts[i].payload == ts[i].payload;
      assert Tlv(msg.opcode, msg.part) == ts[i];
      msg.FinishTlv();
      assert ts[..i + 1] == ts[..i] + [ts[i]];
      assert old(msg.done) + ts[..i] + [ts[i]] == old(msg.done) + ts[..i + 1];
    }
    assert ts[..|ts|] == ts;
  }

  lemma NothingEncoded()
    ensures EncodeAll([]) == []
  {
  }

  lemma TlvLengthIs(msg: Message)
    requires msg.Valid() && msg.buildingTlv
    ensures msg.tlvLen == |msg.part|
  {
    hide EncodeAll;
  }

  /** Callbacks made while a stream with one message on it is read, at most `calls` of them.  Unless one of them splits
      the length, or fails, the message that comes out is that one, once enough callbacks have been made. */
  method ReadMessage(source: Source, capacity: nat, calls: nat, ghost expected: seq<byte>)
    returns (message: seq<byte>, split: bool)
    requires source.pending == Framed(expected) && 1 <= |expected| <= capacity && |expected| <= MAX_MESSAGE
    modifies source
    ensures message != [] && !split ==> message == expected
    ensures split ==> source.faults > old(source.faults)
    ensures message == [] && !split ==> ReadsRanOut(source, old(source.readCount), calls)
  {
    hide Framed, Stream, Take, Sendable;
    var reader := new Reader(capacity);
    message, split := [], false;
    OneAwaited(capacity, expected);
    var i := 0;
    while i < calls && message == [] && !reader.dropped
      invariant reader.Valid() && fresh(reader) && fresh(reader.inbuf)
      invariant reader.inbuf.Length == capacity + 2
      invariant i <= calls && source.readCount == old(source.readCount) + i && source.faults >= old(source.faults)
      invariant split ==> source.faults > old(source.faults)
      invariant message == [] && !split ==> Awaiting(capacity, reader.View(), source.pending, [expected], [])
      invariant message != [] && !split ==> message == expected
    {
      ghost var state, s := reader.View(), source.pending;
      var atLength := reader.messageLength == 0;
      var count, closed;
      count, closed, message := reader.ReadCallback(source);
      if atLength && count == 1 {
        split := true;
      }
      if count >= 0 && !closed && !split {
        OneRead(capacity, state, s, count, expected);
      } else if !split {
        split := true;
      }
      i := i + 1;
    }
    if message == [] && !split {
      StillToCome(capacity, reader.View(), source.pending, expected);
    }
  }

  /** All callbacks have been made, and there is more to read. */
  predicate ReadsRanOut(source: Source, before: nat, calls: nat)
    reads source
  {
    source.readCount == before + calls && source.pending != []
  }

  lemma StillToCome(capacity: nat, state: Reading, s: seq<byte>, expected: seq<byte>)
    requires Awaiting(capacity, state, s, [expected], []) && (state.Body? ==> state.length > 0)
    ensures s != [] && !state.Gone?
  {
    if state.AwaitLength? {
      assert |Stream([expected])| == |Framed(expected)| + |Stream([expected][1..])|;
    }
  }

  lemma OneAwaited(capacity: nat, expected: seq<byte>)
    ensures Awaiting(capacity, AwaitLength, Framed(expected), [expected], [])
    ensures 1 <= |expected| <= capacity && |expected| <= 65535 ==> Sendable(capacity, [expected])
  {
    assert [expected][1..] == [];
    assert Stream([expected]) == Framed(expected) + Stream([]);
    assert Framed(expected) + [] + [] == Framed(expected);
  }

  /** A read that does not split the length: either the message is still awaited, or it has come out. */
  lemma OneRead(capacity: nat, state: Reading, s: seq<byte>, count: nat, expected: seq<byte>)
    requires Sendable(capacity, [expected]) && Awaiting(capacity, state, s, [expected], [])
    requires !state.Gone? && count <= state.Needed() && count <= |s| && (state.AwaitLength? ==> count != 1)
    ensures var taken := Take(capacity, state, s[..count]);
            && (taken.delivered == [] ==> Awaiting(capacity, taken.state, s[count..], [expected], []))
            && (taken.delivered != [] ==> taken.delivered == [expected])
  {
    hide Take, Stream, Framed, Awaiting, Sendable;
    assert s[..count] + s[count..] == s;
    ReadKeepsPace(capacity, state, s[..count], s[count..], [expected], []);
    var delivered := Take(capacity, state, s[..count]).delivered;
    if delivered == [] {
      assert [expected][|delivered|..] == [expected];
    } else {
      assert delivered == [expected];
    }
  }

  /** Two endpoints share no state. */
  ghost predicate Separate(client: Endpoint, server: Endpoint) {
    && client != server && client.queries != server.queries
    && client.queries.ids != server.queries.ids && client.queries.contexts != server.queries.contexts
  }

  /** What a client has outstanding when an exchange comes to nothing: what it had, or its request as well. */
  ghost predicate Pending(was: Table, now: Table, context: nat) {
    now == was || exists id: word :: id != 0 && id !in was && now == was[id := context]
  }

  /** A request made by the client, with TLVs `ts`: it is written whole when there is an identifier for it and the
      socket has room and does not fail. */
  method SendRequest(client: Endpoint, ts: seq<Tlv>, context: nat, size: nat, random: seq<word>, socket: Socket)
    returns (sent: bool, ghost id: word)
    requires client.Valid() && !client.isServer && AllFit(ts) && |random| == 1001 && socket.sent == []
    requires HEADER_LENGTH + |EncodeAll(ts)| < size && HEADER_LENGTH + |EncodeAll(ts)| <= MAX_MESSAGE
    modifies client.queries, client.queries.ids, client.queries.contexts, socket
    ensures client.Valid() && client.held == old(client.held) && client.dropped == old(client.dropped)
    ensures client.hasSession == old(client.hasSession)
    ensures Pending(old(client.queries.table), client.queries.table, context)
    ensures sent <==>
              && Available(client.queries.ids.Length, old(client.queries.table), random)
              && socket.writable && socket.faults == old(socket.faults)
    ensures socket.faults >= old(socket.faults)
    ensures sent ==>
              && FirstFree(old(client.queries.table), random, id)
              && client.queries.table == old(client.queries.table)[id := context]
              && socket.sent == Framed(RequestOctets(id, ts))
  {
    hide EncodeAll, Message.Valid, Represents, Recorded, NewHeader, Id, Framed, Concat, Available;
    sent, id := false, 0;
    var outbuf := new byte[size];
    var made, msg := client.MakeMessage(outbuf, false, context, random);
    if !made {
      return;
    }
    id := Id(msg.header);
    sent := WriteRequest(msg, ts, socket);
  }

  /** TLVs put behind a header, and the message written. */
  method WriteRequest(msg: Message, ts: seq<Tlv>, socket: Socket) returns (sent: bool)
    requires msg.Valid() && !msg.buildingTlv && msg.done == [] && msg.noCopyBytes == [] && msg.cur == HEADER_LENGTH
    requires HEADER_LENGTH + |EncodeAll(ts)| < msg.buf.Length && HEADER_LENGTH + |EncodeAll(ts)| <= MAX_MESSAGE
    requires AllFit(ts) && socket.sent == []
    modifies msg, msg.buf, socket
    ensures sent <==> socket.writable && socket.faults == old(socket.faults)
    ensures socket.faults >= old(socket.faults)
    ensures sent ==> socket.sent == Framed(old(msg.header) + EncodeAll(ts))
  {
    hide EncodeAll, Message.Valid, Framed, Concat;
    BuildTlvs(msg, ts);
    assert [] + ts == ts;
    GatheredIsBuilt(msg);
    var transport := new Transport(socket);
    var rc := transport.MessageWrite(msg, false);
    sent := rc == 1;
  }

  /** The server takes a request off its stream, hands it to its callback, and answers it with a response code. */
  method AnswerRequest(server: Endpoint, source: Source, capacity: nat, calls: nat, rcode: nat, behind: seq<byte>,
                       socket: Socket, ghost id: word, ghost ts: seq<Tlv>)
    returns (event: Event, sent: bool)
    requires server.Valid() && server.isServer && AllFit(ts) && rcode < 16 && |behind| == READ_BEHIND
    requires |RequestOctets(id, ts)| <= capacity && |RequestOctets(id, ts)| <= MAX_MESSAGE
    requires source.pending == Framed(RequestOctets(id, ts)) && socket.sent == []
    modifies server, server.queries, server.queries.ids, server.queries.contexts, source, socket
    ensures server.Valid()
    ensures !sent ==>
              || source.faults > old(source.faults) || ReadsRanOut(source, old(source.readCount), calls)
              || socket.faults > old(socket.faults)
    ensures sent ==>
              && socket.sent == Framed(SimpleResponse(RequestOctets(id, ts)[..HEADER_LENGTH], rcode))
              && server.queries.table == old(server.queries.table) && server.hasSession
              && server.dropped == old(server.dropped)
              && (ts != [] ==> server.held == Own(ts))
              && event == if !server.hasCallback then NoEvent
                          else EventOf(server.queries.table, RequestOctets(id, ts), ts)
  {
    hide EncodeAll, Represents, Recorded, NewHeader, Framed, Concat, ParseMemory, TakenFrom, Additional, RequestOctets,
         SimpleResponse, HeldWhatever;
    event, sent := NoEvent, false;
    ghost var request := RequestOctets(id, ts);
    ghost var table, before, had := server.queries.table, server.held, server.hasSession;
    RequestHeader(id, ts);
    var message, split := ReadMessage(source, capacity, calls, request);
    if message == [] || split {
      return;
    }
    RequestIsTaken(table, id, ts, behind, before, had);
    OpcodeIsSix(id, ts, behind);
    event := server.DnsMessageReceived(message + behind, |message|);
    var transport := new Transport(socket);
    sent := transport.SendSimpleResponse(message[..HEADER_LENGTH], rcode);
  }

  lemma OpcodeIsSix(id: word, ts: seq<Tlv>, behind: seq<byte>)
    ensures var m := RequestOctets(id, ts) + behind; |m| >= 12 && m[2] / 8 % 16 == 6
  {
    OpcodeIsDso(id, NewHeader(id), 0);
    hide NewHeader, EncodeAll;
    assert (RequestOctets(id, ts) + behind)[2] == NewHeader(id)[2];
  }

  /** The client takes the response off its stream and hands it to its callback. */
  method TakeAnswer(client: Endpoint, source: Source, capacity: nat, calls: nat, behind: seq<byte>,
                    ghost table: Table, ghost id: word, ghost context: nat, ghost ts: seq<Tlv>, ghost rcode: nat)
    returns (done: bool, event: Event)
    requires client.Valid() && !client.isServer && rcode < 16 && |behind| == READ_BEHIND
    requires HEADER_LENGTH <= capacity && id != 0 && id !in table && client.queries.table == table[id := context]
    requires source.pending == Framed(SimpleResponse(RequestOctets(id, ts)[..HEADER_LENGTH], rcode))
    modifies client, client.queries, client.queries.ids, client.queries.contexts, source
    ensures client.Valid()
    ensures !done ==> source.faults > old(source.faults) || ReadsRanOut(source, old(source.readCount), calls)
    ensures !done ==> client.queries.table == old(client.queries.table)
    ensures done ==>
              && client.queries.table == table && client.dropped == old(client.dropped)
              && client.hasSession == (old(client.hasSession) || rcode == 0) && client.held == NOTHING
              && event == if client.hasCallback then Event.Response(context, rcode) else NoEvent
  {
    hide EncodeAll, Represents, Recorded, NewHeader, Framed, Concat, ParseMemory, TakenFrom, Additional, RequestOctets,
         SimpleResponse, HeldWhatever;
    done, event := false, NoEvent;
    ghost var before, had := client.held, client.hasSession;
    RequestHeader(id, ts);
    ghost var response := SimpleResponse(NewHeader(id), rcode);
    var message, split := ReadMessage(source, capacity, calls, response);
    if message == [] || split {
      return;
    }
    ResponseIsTaken(table, id, context, rcode, behind, before, had);
    ResponseHeader(id, rcode);
    OpcodeIsDso(id, NewHeader(id), rcode);
    event := client.DnsMessageReceived(message + behind, |message|);
    done := true;
  }

  /** One direction of a connection: the sending side at one end and the receiving side at the other. */
  datatype Path = Path(socket: Socket, source: Source) {
    /** A write has failed or fallen short, a read has failed or caught one octet of two, or no more callbacks are made
        while there is more to read. */
    twostate predicate Failed(calls: nat)
      reads socket, source
    {
      || socket.faults > old(socket.faults) || source.faults > old(source.faults)
      || ReadsRanOut(source, old(source.readCount), calls)
    }
  }

  /** One exchange as both ends run it, over a path up to the server and one down to the client.  It is done unless no
      identifier is to be had, the client's socket has no room, or one of the paths fails; then the client has at most
      this one query more.  When it is done, the server's callback was given the request with its TLVs, the client's the
      response with the context of the request, the queries of both are those of before, and there is a session at both
      ends, unless the client was refused. */
  method Exchange(client: Endpoint, server: Endpoint, ts: seq<Tlv>, context: nat, size: nat, capacity: nat, calls: nat,
                  rcode: nat, behind: seq<byte>, random: seq<word>, up: Path, down: Path)
    returns (done: bool, asked: Event, answered: Event)
    requires client.Valid() && !client.isServer && server.Valid() && server.isServer && Separate(client, server)
    requires AllFit(ts) && rcode < 16 && |behind| == READ_BEHIND && |random| == 1001
    requires HEADER_LENGTH + |EncodeAll(ts)| < size
    requires HEADER_LENGTH + |EncodeAll(ts)| <= capacity && HEADER_LENGTH + |EncodeAll(ts)| <= MAX_MESSAGE
    requires up.socket != down.socket && up.source != down.source && up.socket.sent == [] && down.socket.sent == []
    modifies client, client.queries, client.queries.ids, client.queries.contexts
    modifies server, server.queries, server.queries.ids, server.queries.contexts
    modifies up.socket, up.source, down.socket, down.source
    ensures client.Valid() && server.Valid()
    ensures Pending(old(client.queries.table), client.queries.table, context)
    ensures !done ==>
              || !Available(client.queries.ids.Length, old(client.queries.table), random)
              || !up.socket.writable || up.Failed(calls) || down.Failed(calls)
    ensures done ==>
              && client.queries.table == old(client.queries.table) && server.queries.table == old(server.queries.table)
              && client.dropped == old(client.dropped) && server.dropped == old(server.dropped)
              && server.hasSession && client.hasSession == (old(client.hasSession) || rcode == 0)
    ensures done && server.hasCallback ==> asked == EventAsked(ts)
    ensures done && ts != [] ==> server.held == Own(ts)
    ensures done && client.hasCallback ==> answered == Event.Response(context, rcode)
  {
    hide EncodeAll, Represents, Recorded, NewHeader, Framed, Concat, ParseMemory, TakenFrom, Additional,
         SimpleResponse, Available;
    done, asked, answered := false, NoEvent, NoEvent;
    ghost var table := client.queries.table;
    ghost var id;
    var sent;
    sent, id := SendRequest(client, ts, context, size, random, up.socket);
    if !sent {
      return;
    }
    up.source.pending := up.socket.sent;
    asked, sent := AnswerRequest(server, up.source, capacity, calls, rcode, behind, down.socket, id, ts);
    if !sent {
      return;
    }
    RequestIsTaken(server.queries.table, id, ts, behind, NOTHING, false);
    down.source.pending := down.socket.sent;
    done, answered := TakeAnswer(client, down.source, capacity, calls, behind, table, id, context, ts, rcode);
  }
}
