/** From the builder at one end of a DSO connection to the callback at the other. */
module DsoRoundTrip {
  import opened Bytes
  import opened Tlvs
  import opened DsoMessage
  import opened DsoWrite
  import opened DsoRead
  import opened DsoReceive
  import opened DsoQueries

  /** A message with its TLVs. */
  datatype Built = Built(header: seq<byte>, tlvs: seq<Tlv>) {
    function Octets(): seq<byte> {
      header + EncodeAll(tlvs)
    }

    ghost predicate Sound() {
      |header| == HEADER_LENGTH && AllFit(tlvs)
    }
  }

  /** What is gathered for writing is the header and the encoding of the TLVs, wherever the splice lies. */
  lemma GatheredIsBuilt(msg: Message)
    requires msg.Valid() && !msg.buildingTlv
    ensures Built(msg.header, msg.done).Sound()
    ensures msg.noCopyBytesOffset <= msg.cur <= msg.buf.Length
    ensures msg.Gathered() == Built(msg.header, msg.done).Octets()
    ensures |msg.Gathered()| == msg.cur + |msg.noCopyBytes|
  {
  }

  /** A built message parses back to the opcodes, lengths and payloads it was built from. */
  lemma BuiltParses(built: Built)
    requires built.Sound()
    ensures Parse(built.Octets(), HEADER_LENGTH) == Parsed(built.tlvs)
  {
    hide Parse, EncodeAll;
    var m := built.Octets();
    assert m[HEADER_LENGTH..] == EncodeAll(built.tlvs);
    ParseIff(m, HEADER_LENGTH, built.tlvs);
  }

  /** Up to eleven TLVs all reach the callback, as the primary one and the additional ones. */
  lemma AllTlvsTaken(ts: seq<Tlv>)
    requires ts != []
    ensures [ts[0]] + Additional(ts) == ts <==> |ts| <= 11
  {
    assert ts == [ts[0]] + ts[1..];
    if |ts| > 1 + MAX_ADDITLS {
      assert |[ts[0]] + Additional(ts)| == 11;
    }
  }

  ghost function AllOctets(sent: seq<Built>): (messages: seq<seq<byte>>)
    ensures |messages| == |sent|
  {
    seq(|sent|, k requires 0 <= k < |sent| => sent[k].Octets())
  }

  /** Built messages that fit the receiver's buffer, sent one after another and read in any pieces that do not
      split a length, are delivered in order and parse back to their TLVs. */
  lemma SentIsReceived(capacity: nat, sent: seq<Built>, chunks: seq<seq<byte>>)
    requires forall k | 0 <= k < |sent| :: sent[k].Sound() && |sent[k].Octets()| <= capacity <= MAX_MESSAGE
    requires Reads(capacity, AwaitLength, chunks) && Splits(capacity, AwaitLength, chunks) == 0
    requires Concat(chunks) == Stream(AllOctets(sent))
    ensures var delivered := TakeAll(capacity, AwaitLength, chunks).delivered;
            && |delivered| == |sent|
            && forall k | 0 <= k < |sent| ::
                 delivered[k] == sent[k].Octets() && Parse(delivered[k], HEADER_LENGTH) == Parsed(sent[k].tlvs)
  {
    hide Parse, EncodeAll, Stream, TakeAll, Reads, Splits;
    var messages := AllOctets(sent);
    forall k | 0 <= k < |sent|
      ensures 1 <= |messages[k]| <= capacity && Parse(messages[k], HEADER_LENGTH) == Parsed(sent[k].tlvs)
    {
      BuiltParses(sent[k]);
    }
    DeliversIff(capacity, messages, chunks);
  }

  // ---------------------------------------------------------------------------------------------
  // One exchange

  /** What a request with identifier `id` and TLVs `ts` looks like on its way. */
  function RequestOctets(id: word, ts: seq<Tlv>): seq<byte> {
    NewHeader(id) + EncodeAll(ts)
  }

  /** The event of a request with TLVs `ts`. */
  function EventAsked(ts: seq<Tlv>): Event {
    if ts != [] && ts[0].opcode == 1 then Keepalive
    else if ts != [] && ts[0].opcode == 2 then RetryDelay
    else Request
  }

  /** A request that a client builds is acceptable to every server, whatever lies behind it in memory and whatever
      queries the server has outstanding itself, and is handed on with its own TLVs. */
  lemma RequestIsTaken(table: Table, id: word, ts: seq<Tlv>, behind: seq<byte>, before: Held, had: bool)
    requires AllFit(ts) && |behind| == READ_BEHIND
    ensures var m := RequestOctets(id, ts);
            && Acceptable(table, m + behind, |m|) && ParseMemory(m + behind, |m|, HEADER_LENGTH) == Parsed(ts)
            && (m + behind)[..|m|] == m && TableAfter(table, m) == table
            && EventOf(table, m, ts) == EventAsked(ts)
            && (ts != [] ==> HeldAfter(before, m, ts) == Own(ts))
            && SessionAfter(true, had, table, m)
  {
    hide Parse, ParseMemory, EncodeAll, Additional;
    var built := Built(NewHeader(id), ts);
    var m := built.Octets();
    assert (m + behind)[..|m|] == m;
    BuiltParses(built);
    OwnOctetsOnly(m + behind, |m|, HEADER_LENGTH);
    HasTlvsIff(m + behind, |m|);
    RequestHeader(id, ts);
  }

  lemma RequestHeader(id: word, ts: seq<Tlv>)
    ensures var m := RequestOctets(id, ts);
            LengthSound(m) && !IsResponse(m) && CountsZero(m) && Id(m) == id && m[..HEADER_LENGTH] == NewHeader(id)
  {
    HeaderOf(id);
    if ts != [] {
      assert EncodeAll(ts) == Encode(ts[0]) + EncodeAll(ts[1..]);
    }
    hide EncodeAll;
  }

  /** The simple response to it is acceptable to the client that made the request, finds the context of the request
      and frees its identifier; it carries no TLVs, and none are seen. */
  lemma ResponseIsTaken(table: Table, id: word, context: nat, rcode: nat, behind: seq<byte>, before: Held,
                        had: bool)
    requires id != 0 && id !in table && rcode < 16 && |behind| == READ_BEHIND
    ensures var r, table' := SimpleResponse(NewHeader(id), rcode), table[id := context];
            && Acceptable(table', r + behind, |r|) && ParseMemory(r + behind, |r|, HEADER_LENGTH) == Parsed([])
            && (r + behind)[..|r|] == r && TableAfter(table', r) == table
            && EventOf(table', r, []) == Event.Response(context, rcode)
            && HeldAfter(before, r, []) == NOTHING
            && SessionAfter(false, had, table', r) == (had || rcode == 0)
  {
    var r, table' := SimpleResponse(NewHeader(id), rcode), table[id := context];
    hide SimpleResponse, CountsZero, Id, IsResponse, Rcode, NewHeader;
    assert (r + behind)[..|r|] == r;
    ResponseHeader(id, rcode);
    assert table' - {id} == table;
  }

  lemma ResponseHeader(id: word, rcode: nat)
    requires rcode < 16
    ensures var r := SimpleResponse(NewHeader(id), rcode);
            LengthSound(r) && IsResponse(r) && CountsZero(r) && Id(r) == id && Rcode(r) == rcode
  {
    HeaderOf(id);
  }

  /** One exchange from end to end.  A request goes out under a free identifier, the server answers it with a
      response code, and both are read in any pieces that do not split a length: the server's callback is given the
      request with its TLVs, the client's the response with the context of the request, and afterwards the client's
      queries are those it had before.  The server has a session then, and so has the client unless it was refused. */
  lemma ExchangeYieldsContext(capacity: nat, table: Table, id: word, context: nat, ts: seq<Tlv>, rcode: nat,
                              serverReads: seq<seq<byte>>, clientReads: seq<seq<byte>>, served: Table,
                              behind: seq<byte>, heldByServer: Held, heldByClient: Held, had: bool)
    requires id != 0 && id !in table && AllFit(ts) && rcode < 16 && |behind| == READ_BEHIND
    requires |RequestOctets(id, ts)| <= capacity <= MAX_MESSAGE
    requires Reads(capacity, AwaitLength, serverReads) && Splits(capacity, AwaitLength, serverReads) == 0
    requires Reads(capacity, AwaitLength, clientReads) && Splits(capacity, AwaitLength, clientReads) == 0
    requires Concat(serverReads) == Framed(RequestOctets(id, ts))
    requires Concat(clientReads) == Framed(SimpleResponse(RequestOctets(id, ts)[..HEADER_LENGTH], rcode))
    ensures var request := RequestOctets(id, ts);
            var response := SimpleResponse(request[..HEADER_LENGTH], rcode);
            && TakeAll(capacity, AwaitLength, serverReads) == Taken(AwaitLength, [request])
            && TakeAll(capacity, AwaitLength, clientReads) == Taken(AwaitLength, [response])
            && Acceptable(served, request + behind, |request|)
            && ParseMemory(request + behind, |request|, HEADER_LENGTH) == Parsed(ts)
            && EventOf(served, request, ts) == EventAsked(ts)
            && (ts != [] ==> HeldAfter(heldByServer, request, ts) == Own(ts))
            && Acceptable(table[id := context], response + behind, |response|)
            && EventOf(table[id := context], response, []) == Event.Response(context, rcode)
            && HeldAfter(heldByClient, response, []) == NOTHING
            && TableAfter(table[id := context], response) == table
            && SessionAfter(true, had, served, request)
            && SessionAfter(false, had, table[id := context], response) == (had || rcode == 0)
  {
    hide Parse, ParseMemory, EncodeAll, Additional, TakeAll, Reads, Splits, SimpleResponse, RequestOctets;
    RequestHeader(id, ts);
    RequestIsTaken(served, id, ts, behind, heldByServer, had);
    ResponseIsTaken(table, id, context, rcode, behind, heldByClient, had);
    OneDelivered(capacity, RequestOctets(id, ts), serverReads);
    OneDelivered(capacity, SimpleResponse(NewHeader(id), rcode), clientReads);
  }

  lemma OneDelivered(capacity: nat, message: seq<byte>, chunks: seq<seq<byte>>)
    requires 1 <= |message| <= capacity <= MAX_MESSAGE
    requires Reads(capacity, AwaitLength, chunks) && Splits(capacity, AwaitLength, chunks) == 0
    requires Concat(chunks) == Framed(message)
    ensures TakeAll(capacity, AwaitLength, chunks) == Taken(AwaitLength, [message])
  {
    assert [message][1..] == [];
    assert Stream([message]) == Framed(message) + Stream([]);
    hide Stream, TakeAll, Reads, Splits;
    assert Stream([message]) + [] == Framed(message);
    WholeLengthsDeliver(capacity, chunks, [message], []);
  }
}
