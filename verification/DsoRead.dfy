/** Reading DSO messages off a TCP stream: `dso_read_callback` takes what each read delivers, first the two
    octets of a length, then that many octets of a message. */
module DsoRead {
  import opened Bytes
  import opened DsoWrite

  /** Where the reader stands: before a length, inside a message, or with the connection dropped. */
  datatype Reading = AwaitLength | Body(length: nat, got: seq<byte>) | Gone {
    /** `bytes_needed` for the next read. */
    function Needed(): nat {
      match this
      case AwaitLength => 2
      case Body(length, got) => if |got| <= length then length - |got| else 0
      case Gone => 0
    }

    /** Octets taken from the stream and not yet delivered. */
    function Held(): nat {
      match this
      case AwaitLength => 0
      case Body(_, got) => 2 + |got|
      case Gone => 2
    }
  }

  datatype Taken = Taken(state: Reading, delivered: seq<seq<byte>>)

  /** One read of `chunk`.  A lone octet of a length is forgotten: the next call starts over for two. */
  function Take(capacity: nat, state: Reading, chunk: seq<byte>): Taken
    requires |chunk| <= state.Needed()
  {
    match state
    case AwaitLength =>
      if |chunk| < 2 then Taken(AwaitLength, [])
      else
        var length := Word(chunk[0], chunk[1]);
        Taken(if length == 0 || length > capacity then Gone else Body(length, []), [])
    case Body(length, got) =>
      if |got + chunk| == length then Taken(AwaitLength, [got + chunk]) else Taken(Body(length, got + chunk), [])
    case Gone => Taken(Gone, [])
  }

  /** Reads that each deliver no more than is asked for, while the connection stands. */
  ghost predicate Reads(capacity: nat, state: Reading, chunks: seq<seq<byte>>)
    decreases |chunks|
  {
    chunks != [] ==>
      && !state.Gone? && |chunks[0]| <= state.Needed()
      && Reads(capacity, Take(capacity, state, chunks[0]).state, chunks[1..])
  }

  ghost function TakeAll(capacity: nat, state: Reading, chunks: seq<seq<byte>>): Taken
    requires Reads(capacity, state, chunks)
    decreases |chunks|
  {
    if chunks == [] then Taken(state, [])
    else
      var first := Take(capacity, state, chunks[0]);
      var rest := TakeAll(capacity, first.state, chunks[1..]);
      Taken(rest.state, first.delivered + rest.delivered)
  }

  /** The reads that catch only one octet of a length. */
  ghost function Splits(capacity: nat, state: Reading, chunks: seq<seq<byte>>): nat
    requires Reads(capacity, state, chunks)
    decreases |chunks|
  {
    if chunks == [] then 0
    else
      (if state.AwaitLength? && |chunks[0]| == 1 then 1 else 0)
      + Splits(capacity, Take(capacity, state, chunks[0]).state, chunks[1..])
  }

  /** Messages one after another, each behind its length. */
  function Stream(messages: seq<seq<byte>>): seq<byte> {
    if messages == [] then [] else Framed(messages[0]) + Stream(messages[1..])
  }

  ghost predicate Sendable(capacity: nat, messages: seq<seq<byte>>) {
    forall k | 0 <= k < |messages| :: 1 <= |messages[k]| <= capacity && |messages[k]| <= 65535
  }

  /** A length that no message may have: zero, or more than the input buffer holds. */
  ghost predicate Fatal(capacity: nat, s: seq<byte>) {
    |s| == 2 && (Word(s[0], s[1]) == 0 || Word(s[0], s[1]) > capacity)
  }

  /** The octets still to come when `messages`, then `tail`, are still to be delivered. */
  ghost predicate Awaiting(capacity: nat, state: Reading, s: seq<byte>, messages: seq<seq<byte>>, tail: seq<byte>) {
    match state
    case AwaitLength => s == Stream(messages) + tail
    case Body(length, got) =>
      && messages != [] && length == |messages[0]| && |got| < length && got == messages[0][..|got|]
      && s == messages[0][|got|..] + (Stream(messages[1..]) + tail)
    case Gone => s == [] && messages == [] && tail != []
  }

  lemma FrontOf(chunk: seq<byte>, s: seq<byte>, a: seq<byte>, b: seq<byte>)
    requires chunk + s == a + b && |chunk| <= |a|
    ensures chunk == a[..|chunk|] && s == a[|chunk|..] + b
  {
    var all := a + b;
    assert chunk == (chunk + s)[..|chunk|] == all[..|chunk|];
    assert s == (chunk + s)[|chunk|..] == all[|chunk|..];
  }

  lemma LengthOf(message: seq<byte>, chunk: seq<byte>)
    requires |message| <= 65535 && chunk == Framed(message)[..2]
    ensures Word(chunk[0], chunk[1]) == |message| && Framed(message)[2..] == message
  {
  }

  lemma TakeLength(capacity: nat, chunk: seq<byte>, s: seq<byte>, messages: seq<seq<byte>>, tail: seq<byte>)
    requires Sendable(capacity, messages) && (tail == [] || Fatal(capacity, tail))
    requires chunk + s == Stream(messages) + tail && |chunk| == 2
    ensures var taken := Take(capacity, AwaitLength, chunk);
            && taken.delivered == []
            && if messages == [] then taken.state.Gone? && s == [] && tail != []
               else Awaiting(capacity, taken.state, s, messages, tail)
  {
    hide Framed;
    if messages == [] {
      FrontOf(chunk, s, tail, []);
    } else {
      var m := messages[0];
      assert Stream(messages) + tail == Framed(m) + (Stream(messages[1..]) + tail);
      FrontOf(chunk, s, Framed(m), Stream(messages[1..]) + tail);
      LengthOf(m, chunk);
      assert m[0..] == m;
    }
  }

  lemma TakeBody(capacity: nat, state: Reading, chunk: seq<byte>, s: seq<byte>,
                 messages: seq<seq<byte>>, tail: seq<byte>)
    requires state.Body? && |chunk| <= state.Needed()
    requires Awaiting(capacity, state, chunk + s, messages, tail)
    ensures var taken := Take(capacity, state, chunk);
            if |state.got + chunk| == state.length then
              taken == Taken(AwaitLength, [messages[0]]) && Awaiting(capacity, AwaitLength, s, messages[1..], tail)
            else taken.delivered == [] && Awaiting(capacity, taken.state, s, messages, tail)
  {
    hide Stream;
    var m, got, next := messages[0], state.got, |state.got| + |chunk|;
    FrontOf(chunk, s, m[|got|..], Stream(messages[1..]) + tail);
    assert got + chunk == m[..next];
    assert m[|got|..][|chunk|..] == m[next..];
    assert m[..|m|] == m && m[|m|..] == [];
  }

  /** A run of reads is its first read and the rest. */
  lemma FirstRead(capacity: nat, state: Reading, chunks: seq<seq<byte>>)
    requires chunks != [] && Reads(capacity, state, chunks)
    ensures !state.Gone? && |chunks[0]| <= state.Needed()
    ensures var first := Take(capacity, state, chunks[0]);
            && Reads(capacity, first.state, chunks[1..])
            && TakeAll(capacity, state, chunks)
               == Taken(TakeAll(capacity, first.state, chunks[1..]).state,
                        first.delivered + TakeAll(capacity, first.state, chunks[1..]).delivered)
            && Splits(capacity, state, chunks)
               == (if state.AwaitLength? && |chunks[0]| == 1 then 1 else 0)
                  + Splits(capacity, first.state, chunks[1..])
            && Concat(chunks) == chunks[0] + Concat(chunks[1..])
            && (first.state.Gone? ==> TakeAll(capacity, first.state, chunks[1..]) == Taken(Gone, []))
  {
  }

  /** One read that does not split a length: what it delivers is the front of the messages. */
  lemma ReadKeepsPace(capacity: nat, state: Reading, chunk: seq<byte>, s: seq<byte>,
                      messages: seq<seq<byte>>, tail: seq<byte>)
    requires Sendable(capacity, messages) && (tail == [] || Fatal(capacity, tail))
    requires !state.Gone? && |chunk| <= state.Needed() && (state.AwaitLength? ==> |chunk| != 1)
    requires Awaiting(capacity, state, chunk + s, messages, tail)
    ensures var first := Take(capacity, state, chunk);
            && first.delivered <= messages
            && Awaiting(capacity, first.state, s, messages[|first.delivered|..], tail)
  {
    assert messages[0..] == messages;
    if state.Body? {
      hide Stream, Fatal, Sendable;
      TakeBody(capacity, state, chunk, s, messages, tail);
    } else if chunk == [] {
      hide Stream, Fatal, Sendable;
      assert chunk + s == s;
    } else {
      TakeLength(capacity, chunk, s, messages, tail);
    }
  }

  lemma FrontAndRest(a: seq<seq<byte>>, b: seq<seq<byte>>, all: seq<seq<byte>>)
    requires a <= all && b <= all[|a|..]
    ensures a + b <= all && all[|a|..][|b|..] == all[|a + b|..]
  {
    assert all == a + all[|a|..];
  }

  /** With no length split, the messages come out whole and in order, however their bodies are cut, and what the
      reader then awaits is what is left of the stream. */
  lemma {:induction false} WholeLengthsKeepPace(capacity: nat, state: Reading, chunks: seq<seq<byte>>, more: seq<byte>,
                                                messages: seq<seq<byte>>, tail: seq<byte>)
    requires Sendable(capacity, messages) && (tail == [] || Fatal(capacity, tail))
    requires Reads(capacity, state, chunks) && Splits(capacity, state, chunks) == 0
    requires Awaiting(capacity, state, Concat(chunks) + more, messages, tail)
    ensures var taken := TakeAll(capacity, state, chunks);
            && taken.delivered <= messages
            && Awaiting(capacity, taken.state, more, messages[|taken.delivered|..], tail)
    decreases |chunks|
  {
    if chunks == [] {
      assert Concat(chunks) + more == more && messages[0..] == messages;
    } else {
      hide Stream, Fatal, Awaiting, Take, TakeAll, Splits, Reads, Concat;
      FirstRead(capacity, state, chunks);
      var first, s := Take(capacity, state, chunks[0]), Concat(chunks[1..]) + more;
      assert Concat(chunks) + more == chunks[0] + s;
      ReadKeepsPace(capacity, state, chunks[0], s, messages, tail);
      WholeLengthsKeepPace(capacity, first.state, chunks[1..], more, messages[|first.delivered|..], tail);
      FrontAndRest(first.delivered, TakeAll(capacity, first.state, chunks[1..]).delivered, messages);
    }
  }

  /** When all of the stream has been read with no length split, all messages are delivered, and a fatal length after
      them has dropped the connection. */
  lemma WholeLengthsDeliver(capacity: nat, chunks: seq<seq<byte>>, messages: seq<seq<byte>>, tail: seq<byte>)
    requires Sendable(capacity, messages) && (tail == [] || Fatal(capacity, tail))
    requires Reads(capacity, AwaitLength, chunks) && Splits(capacity, AwaitLength, chunks) == 0
    requires Concat(chunks) == Stream(messages) + tail
    ensures TakeAll(capacity, AwaitLength, chunks) == Taken(if tail == [] then AwaitLength else Gone, messages)
  {
    hide TakeAll, Reads, Splits, Fatal;
    var taken := TakeAll(capacity, AwaitLength, chunks);
    assert Concat(chunks) + [] == Concat(chunks);
    WholeLengthsKeepPace(capacity, AwaitLength, chunks, [], messages, tail);
    NothingAwaited(capacity, taken.state, messages[|taken.delivered|..], tail);
  }

  lemma NothingAwaited(capacity: nat, state: Reading, messages: seq<seq<byte>>, tail: seq<byte>)
    requires Awaiting(capacity, state, [], messages, tail)
    ensures messages == [] && state == if tail == [] then AwaitLength else Gone
  {
    EmptyStream(messages);
  }

  lemma EmptyStream(messages: seq<seq<byte>>)
    ensures Stream(messages) == [] <==> messages == []
  {
  }

  /** Every octet of the stream is in a delivered message or its length, is held, or is the lone octet of a split
      length. */
  lemma {:induction false} OctetsAccounted(capacity: nat, state: Reading, chunks: seq<seq<byte>>)
    requires Reads(capacity, state, chunks)
    ensures var taken := TakeAll(capacity, state, chunks);
            state.Held() + |Concat(chunks)|
            == |Stream(taken.delivered)| + taken.state.Held() + Splits(capacity, state, chunks)
    decreases |chunks|
  {
    if chunks != [] {
      var first := Take(capacity, state, chunks[0]);
      OctetsAccounted(capacity, first.state, chunks[1..]);
      StreamConcat(first.delivered, TakeAll(capacity, first.state, chunks[1..]).delivered);
      assert first.delivered != [] ==> Stream(first.delivered) == Framed(first.delivered[0]) + Stream([]);
    }
  }

  lemma {:induction false} StreamConcat(a: seq<seq<byte>>, b: seq<seq<byte>>)
    ensures Stream(a + b) == Stream(a) + Stream(b)
  {
    if a == [] {
      assert a + b == b;
    } else {
      assert (a + b)[1..] == a[1..] + b;
      StreamConcat(a[1..], b);
    }
  }

  /** The reads of a stream of messages: they go to its end, or to where the connection is dropped. */
  ghost predicate ReadsOf(capacity: nat, chunks: seq<seq<byte>>, messages: seq<seq<byte>>)
    requires Reads(capacity, AwaitLength, chunks)
  {
    && Concat(chunks) <= Stream(messages)
    && (Concat(chunks) == Stream(messages) || TakeAll(capacity, AwaitLength, chunks).state.Gone?)
  }

  /** A stream of messages is delivered as those messages exactly when no read splits a length, and the connection
      is not dropped over it then. */
  lemma DeliversIff(capacity: nat, messages: seq<seq<byte>>, chunks: seq<seq<byte>>)
    requires Sendable(capacity, messages) && Reads(capacity, AwaitLength, chunks)
    requires ReadsOf(capacity, chunks, messages)
    ensures TakeAll(capacity, AwaitLength, chunks).delivered == messages <==> Splits(capacity, AwaitLength, chunks) == 0
    ensures Splits(capacity, AwaitLength, chunks) == 0 ==> TakeAll(capacity, AwaitLength, chunks).state == AwaitLength
  {
    var taken := TakeAll(capacity, AwaitLength, chunks);
    OctetsAccounted(capacity, AwaitLength, chunks);
    if Splits(capacity, AwaitLength, chunks) == 0 {
      var more := Stream(messages)[|Concat(chunks)|..];
      assert Stream(messages) + [] == Stream(messages) == Concat(chunks) + more;
      WholeLengthsKeepPace(capacity, AwaitLength, chunks, more, messages, []);
      WholeLengthsDeliver(capacity, chunks, messages, []);
    }
  }

  /** Two messages, the length of the first cut in two: the connection is dropped with octets unread, and neither
      message is delivered. */
  lemma SplitLengthDropsEarly()
    ensures Reads(10, AwaitLength, [[0], [1, 7]]) && ReadsOf(10, [[0], [1, 7]], [[7], [8]])
    ensures Concat([[0], [1, 7]]) != Stream([[7], [8]]) && TakeAll(10, AwaitLength, [[0], [1, 7]]).delivered == []
  {
    SplitLengthLosesMessage();
    var messages: seq<seq<byte>> := [[7], [8]];
    assert messages[1..] == [[8]] && messages[1..][1..] == [];
    assert Stream([[7]]) == [0, 1, 7] + Stream([]);
    assert Stream(messages) == [0, 1, 7] + Stream(messages[1..]);
    assert |Stream([[8]])| == 3;
  }

  /** One message of one octet, its length cut in two: the first octet is lost and nothing is delivered. */
  lemma SplitLengthLosesMessage()
    ensures Concat([[0], [1, 7]]) == Stream([[7]]) && Reads(10, AwaitLength, [[0], [1, 7]])
    ensures TakeAll(10, AwaitLength, [[0], [1, 7]]) == Taken(Gone, [])
  {
    var chunks: seq<seq<byte>> := [[0], [1, 7]];
    assert chunks[1..] == [[1, 7]] && chunks[1..][1..] == [];
    assert Take(10, AwaitLength, [0]) == Taken(AwaitLength, []);
    assert Take(10, AwaitLength, [1, 7]) == Taken(Gone, []);
    assert Reads(10, AwaitLength, [[1, 7]]) && Reads(10, AwaitLength, chunks);
    assert TakeAll(10, AwaitLength, [[1, 7]]) == Taken(Gone, []);
    assert Concat([[1, 7]]) == [1, 7] + Concat([]);
    assert Stream([[7]]) == Framed([7]) + Stream([]);
  }

  // ---------------------------------------------------------------------------------------------
  // The callback

  /** The receiving side of a TCP socket: what is still to come, how many octets were asked for last, how many reads
      there have been, and how many of them have failed, found the connection closed, or caught one octet where two
      were asked for. */
  class Source {
    var pending: seq<byte>
    var asked: nat
    var readCount: nat
    var faults: nat

    constructor (octets: seq<byte>)
      ensures pending == octets && asked == 0 && readCount == 0 && faults == 0
    {
      pending, asked, readCount, faults := octets, 0, 0, 0;
    }

    /** `mDNSPlatformReadTCP`: an error, end of stream, or up to `n` octets. */
    method ReadTcp(buf: array<byte>, at: nat, n: nat) returns (count: int, closed: bool)
      requires at + n <= buf.Length
      modifies this, buf
      ensures asked == n && readCount == old(readCount) + 1
      ensures faults == old(faults) + if count < 0 || closed || (n == 2 && count == 1) then 1 else 0
      ensures count <= n && count <= |old(pending)|
      ensures count >= 0 ==> pending == old(pending)[count..]
      ensures forall i | 0 <= i < count :: buf[at + i] == old(pending)[i]
      ensures forall i | 0 <= i < buf.Length && !(at <= i < at + count) :: buf[i] == old(buf[i])
    {
      closed := *;
      asked, readCount := n, readCount + 1;
      if * {
        faults := faults + 1;
        return -1, closed;
      }
      var k :| 0 <= k <= n && k <= |pending|;
      forall i | 0 <= i < k {
        buf[at + i] := pending[i];
      }
      pending := pending[k..];
      faults := faults + if closed || (n == 2 && k == 1) then 1 else 0;
      count := k;
    }
  }

  /** The reading half of `dso_transport_t`, and whether its connection has been dropped. */
  class Reader {
    const inbuf: array<byte>
    var inbufp: nat
    var bytesNeeded: nat
    var needLength: bool
    var messageLength: nat
    var dropped: bool

    /** `dso_transport_create`: room for a message of `capacity` octets and its length. */
    constructor (capacity: nat)
      ensures Valid() && fresh(inbuf) && inbuf.Length == capacity + 2 && View() == AwaitLength
    {
      inbuf := new byte[capacity + 2](_ => 0);
      inbufp, bytesNeeded, needLength, messageLength, dropped := 0, 0, false, 0, false;
    }

    ghost predicate Valid()
      reads this, inbuf
    {
      && inbuf.Length >= 2
      && (messageLength != 0 && !dropped ==>
            && !needLength && bytesNeeded > 0 && 2 <= inbufp
            && inbufp + bytesNeeded == 2 + messageLength <= inbuf.Length)
    }

    ghost function View(): Reading
      requires Valid()
      reads this, inbuf
    {
      if dropped then Gone
      else if messageLength == 0 then AwaitLength
      else Body(messageLength, inbuf[2..inbufp])
    }

    /** `dso_read_callback`, on a connection that stands; `message` is what goes to `dns_message_received`. */
    method ReadCallback(source: Source) returns (count: int, closed: bool, message: seq<byte>)
      requires Valid() && !dropped
      modifies this, inbuf, source
      ensures Valid()
      ensures source.asked == old(View()).Needed() && source.readCount == old(source.readCount) + 1
      ensures source.faults ==
              old(source.faults) + if count < 0 || closed || (source.asked == 2 && count == 1) then 1 else 0
      ensures count <= old(View()).Needed() && count <= |old(source.pending)|
      ensures if count < 0 || closed then View() == Gone && message == []
              else
                && source.pending == old(source.pending)[count..]
                && Take(inbuf.Length - 2, old(View()), old(source.pending)[..count])
                   == Taken(View(), if message == [] then [] else [message])
    {
      hide Word, Take;
      message := [];
      ghost var state := View();
      if messageLength == 0 {
        needLength := true;
        inbufp := 0;
        bytesNeeded := 2;
      }
      ghost var chunk, at, was := source.pending, inbufp, inbuf[..];
      count, closed := source.ReadTcp(inbuf, inbufp, bytesNeeded);
      if count < 0 || closed {
        dropped := true;
        return;
      }
      chunk := chunk[..count];
      assert forall i | 0 <= i < count :: inbuf[at + i] == chunk[i];
      if !needLength {
        BodyGrows(was, inbuf[..], at, chunk);
      }
      message := Advance(count, state, chunk);
    }

    /** What `dso_read_callback` does with the octets it has read: `chunk`, behind those of `state`. */
    method Advance(count: nat, ghost state: Reading, ghost chunk: seq<byte>) returns (message: seq<byte>)
      requires inbuf.Length >= 2 && !dropped && count == |chunk| <= bytesNeeded
      requires if needLength then
                 && state.AwaitLength? && messageLength == 0 && inbufp == 0 && bytesNeeded == 2
                 && inbuf[..count] == chunk
               else
                 && messageLength > 0 && 2 <= inbufp && inbufp + bytesNeeded == 2 + messageLength <= inbuf.Length
                 && state.Body? && state.length == messageLength && |state.got| == inbufp - 2
                 && inbuf[2..inbufp + count] == state.got + chunk && bytesNeeded > 0
      modifies this
      ensures Valid()
      ensures count <= state.Needed()
              && Take(inbuf.Length - 2, state, chunk) == Taken(View(), if message == [] then [] else [message])
    {
      message := [];
      inbufp := inbufp + count;
      bytesNeeded := bytesNeeded - count;
      if bytesNeeded == 0 {
        if needLength {
          assert inbuf[0] == inbuf[..count][0] && inbuf[1] == inbuf[..count][1];
          bytesNeeded := Word(inbuf[0], inbuf[1]);
          if bytesNeeded == 0 || bytesNeeded > inbuf.Length - 2 {
            dropped := true;
            return;
          }
          messageLength := bytesNeeded;
          inbufp := 2;
          needLength := false;
          assert inbuf[2..inbufp] == [];
        } else {
          message := inbuf[2..2 + messageLength];
          messageLength := 0;
        }
      }
    }
  }

  /** Octets put behind those of a body. */
  lemma BodyGrows(was: seq<byte>, now: seq<byte>, at: nat, chunk: seq<byte>)
    requires 2 <= at && |now| == |was| && at + |chunk| <= |now|
    requires forall i | 2 <= i < at :: now[i] == was[i]
    requires forall i | 0 <= i < |chunk| :: now[at + i] == chunk[i]
    ensures now[2..at + |chunk|] == was[2..at] + chunk
  {
  }
}
