/** A server program on a TCP connection: requests received and answered, one after another, until a reception fails. */
module ServerLoop {
  import opened Bytes
  import opened Framing
  import opened Backend
  import opened Server
  import opened Reply
  import opened EndToEnd
  import opened Exchange
  import opened ServerSafety
  import opened Calls
  import opened ModbusOctets

  ghost predicate AllAcceptable(start: nat, size: nat, frames: seq<seq<byte>>) {
    forall k | 0 <= k < |frames| :: Acceptable(Tcp, start, size, frames[k])
  }

  /** What is sent in answer to a run of frames. */
  ghost function AnswerAll(t: Tables, frames: seq<seq<byte>>): seq<byte>
    requires AllAcceptable(t.startRegisters, |t.registers|, frames)
    decreases |frames|
  {
    if frames == [] then []
    else
      assert Acceptable(Tcp, t.startRegisters, |t.registers|, frames[0]);
      hide Acceptable, SomeBitWriter, SomeRegisterWriter;
      ServeSafe(Tcp, t, frames[0]);
      AnswerTo(t, frames[0]) + AnswerAll(Serve(Tcp, t, frames[0]).tables, frames[1..])
  }

  function AnswerTo(t: Tables, req: seq<byte>): seq<byte>
    requires Acceptable(Tcp, t.startRegisters, |t.registers|, req)
  {
    var served := Serve(Tcp, t, req);
    if served.frame.Some? then served.frame.value else []
  }

  /** The tables and the octets sent after a run of frames. */
  ghost function Outcome(t: Tables, frames: seq<seq<byte>>): (Tables, seq<byte>)
    requires AllAcceptable(t.startRegisters, |t.registers|, frames)
  {
    (ServeAll(Tcp, t, frames), AnswerAll(t, frames))
  }

  /** A request that is answered, and with a frame that can be told from the next one. */
  ghost predicate Answerable(req: seq<byte>) {
    |req| > 7 && req[7] != 7 && ExceptionDelimited(req[7])
  }

  /** An answer with the identifier and the unit of its request. */
  predicate AnswerFor(req: seq<byte>, answer: seq<byte>) {
    |req| > 7 && |answer| > 7 && answer[..2] == req[..2] && answer[6] == req[6]
  }

  /** Requests sent in a row are answered in a row: a client that cuts what the server sent into frames finds one answer
      for each request, in the order of the requests, with the identifier and for the unit of its request. */
  lemma {:induction false} AnsweredInOrder(t: Tables, frames: seq<seq<byte>>) returns (answers: seq<seq<byte>>)
    requires AllAcceptable(t.startRegisters, |t.registers|, frames)
    requires forall k | 0 <= k < |frames| :: Answerable(frames[k])
    ensures Cut(Tcp, Confirmation, AnswerAll(t, frames)) == answers && |answers| == |frames|
    ensures forall k | 0 <= k < |frames| :: AnswerFor(frames[k], answers[k])
    decreases |frames|
  {
    if frames == [] {
      answers := [];
    } else {
      var req := frames[0];
      assert Acceptable(Tcp, t.startRegisters, |t.registers|, req) && Answerable(req);
      hide Cut, Acceptable, Answerable, AllAcceptable, Serve, AnswerFor, AnswerTo;
      OutcomeFirst(t, frames);
      OneAnswer(t, req);
      var t' := Serve(Tcp, t, req).tables;
      var rest := AnsweredInOrder(t', frames[1..]);
      answers := [AnswerTo(t, req)] + rest;
      CutOne(Tcp, Confirmation, AnswerTo(t, req), AnswerAll(t', frames[1..]));
    }
  }

  lemma OneAnswer(t: Tables, req: seq<byte>)
    requires Acceptable(Tcp, t.startRegisters, |t.registers|, req) && Answerable(req)
    ensures IsMessage(Tcp, Confirmation, AnswerTo(t, req)) && AnswerFor(req, AnswerTo(t, req))
  {
    hide Serve, IsMessage, ExceptionDelimited, Supported;
    AnsweredIff(Tcp, t, req);
    ReplyIsMessageIff(Tcp, t, req);
    ReplySpelled(Tcp, t, req);
  }

  lemma OutcomeFirst(t: Tables, frames: seq<seq<byte>>)
    requires AllAcceptable(t.startRegisters, |t.registers|, frames) && frames != []
    ensures Acceptable(Tcp, t.startRegisters, |t.registers|, frames[0])
    ensures var t' := Serve(Tcp, t, frames[0]).tables;
            && t'.startRegisters == t.startRegisters && |t'.registers| == |t.registers|
            && AllAcceptable(t'.startRegisters, |t'.registers|, frames[1..])
            && Outcome(t, frames) == (Outcome(t', frames[1..]).0, AnswerTo(t, frames[0]) + Outcome(t', frames[1..]).1)
  {
    assert Acceptable(Tcp, t.startRegisters, |t.registers|, frames[0]);
    ServeSafe(Tcp, t, frames[0]);
    hide Acceptable, SomeBitWriter, SomeRegisterWriter, Serve, AnswerTo;
  }

  /** The frames on a stream, and the turns that a server takes for them. */
  lemma FirstTurn(slave: byte, t: Tables, s: seq<byte>)
    requires AllAcceptable(t.startRegisters, |t.registers|, Cut(Tcp, Indication, s))
    ensures Servable(Tcp, t.startRegisters, |t.registers|, s)
    ensures var frames := Cut(Tcp, Indication, s);
            if frames == [] then ServerTurn(Tcp, slave, t, s) == (t, []) && !Frame(Tcp, Indication, s).Message?
            else
              && Frame(Tcp, Indication, s) == Message(|frames[0]|) && 7 < |frames[0]| <= |s|
              && frames[0] == s[..|frames[0]|] && frames[1..] == Cut(Tcp, Indication, s[|frames[0]|..])
              && Acceptable(Tcp, t.startRegisters, |t.registers|, frames[0])
              && ServerTurn(Tcp, slave, t, s) == (Serve(Tcp, t, frames[0]).tables, AnswerTo(t, frames[0]))
  {
    hide Frame, IsMessage, Serve;
    if Frame(Tcp, Indication, s).Message? {
      MessageIsLong(Tcp, Indication, s);
      var n := Frame(Tcp, Indication, s).length;
      var rest := Cut(Tcp, Indication, s[n..]);
      assert Cut(Tcp, Indication, s) == [s[..n]] + rest;
      assert ([s[..n]] + rest)[0] == s[..n] && ([s[..n]] + rest)[1..] == rest;
    }
  }

  /** One frame more is served behind the others. */
  lemma {:induction false} OutcomeMore(t: Tables, frames: seq<seq<byte>>, k: nat)
    requires AllAcceptable(t.startRegisters, |t.registers|, frames) && k < |frames|
    ensures AllAcceptable(t.startRegisters, |t.registers|, frames[..k + 1])
    ensures var (t', sent) := Outcome(t, frames[..k]);
            && t'.startRegisters == t.startRegisters && |t'.registers| == |t.registers|
            && Acceptable(Tcp, t'.startRegisters, |t'.registers|, frames[k])
            && Outcome(t, frames[..k + 1]) == (Serve(Tcp, t', frames[k]).tables, sent + AnswerTo(t', frames[k]))
    decreases k
  {
    hide IsMessage, Supported, Serve, AnswerTo, Outcome;
    assert Acceptable(Tcp, t.startRegisters, |t.registers|, frames[k]);
    OutcomeFirst(t, frames[..k + 1]);
    OutcomeFirst(t, frames);
    var t1 := Serve(Tcp, t, frames[0]).tables;
    if k > 0 {
      OutcomeFirst(t, frames[..k]);
      OutcomeMore(t1, frames[1..], k - 1);
      assert frames[..k][1..] == frames[1..][..k - 1] && frames[..k + 1][1..] == frames[1..][..k];
      var before := Outcome(t1, frames[1..][..k - 1]);
      assert AnswerTo(t, frames[0]) + (before.1 + AnswerTo(before.0, frames[k]))
          == AnswerTo(t, frames[0]) + before.1 + AnswerTo(before.0, frames[k]);
    } else {
      OutcomeOfNone(t);
      OutcomeOfNone(t1);
      assert frames[..1][1..] == [] && frames[..0] == [];
      assert AnswerTo(t, frames[0]) + [] == [] + AnswerTo(t, frames[0]);
    }
  }

  lemma OutcomeOfNone(t: Tables)
    ensures Outcome(t, []) == (t, [])
  {
  }

  /** The first `k` frames of a stream have been served: the tables, what was sent, and what is still to come. */
  ghost predicate Done(t: Tables, frames: seq<seq<byte>>, k: nat, now: Tables, sent: seq<byte>, rest: seq<byte>)
    requires AllAcceptable(t.startRegisters, |t.registers|, frames)
  {
    k <= |frames| && (now, sent) == Outcome(t, frames[..k]) && Cut(Tcp, Indication, rest) == frames[k..]
  }

  /** A reception that fails ends the run, and any other serves the first frame. */
  lemma OneTurn(slave: byte, t: Tables, frames: seq<seq<byte>>, k: nat, now: Tables, sent: seq<byte>, s: seq<byte>,
                rc: int, rest: seq<byte>)
    requires AllAcceptable(t.startRegisters, |t.registers|, frames) && Done(t, frames, k, now, sent, s)
    requires Took(Tcp, slave, s, rc, rest)
    ensures Servable(Tcp, now.startRegisters, |now.registers|, s)
    ensures var (now', answer) := ServerTurn(Tcp, slave, now, s);
            if rc == -1 then k == |frames| && now' == now && answer == []
            else |rest| < |s| && Done(t, frames, k + 1, now', sent + answer, rest)
  {
    KeepsAcceptable(t, frames, k);
    FirstTurn(slave, now, s);
    if k < |frames| {
      OutcomeMore(t, frames, k);
      assert frames[k..][0] == frames[k] && frames[k..][1..] == frames[k + 1..];
    }
    hide Cut, AllAcceptable, AnswerTo, Frame, ServerTurn, Servable, Acceptable, Serve, Outcome;
  }

  lemma KeepsAcceptable(t: Tables, frames: seq<seq<byte>>, k: nat)
    requires AllAcceptable(t.startRegisters, |t.registers|, frames) && k <= |frames|
    ensures var now := Outcome(t, frames[..k]).0;
            && now.startRegisters == t.startRegisters && |now.registers| == |t.registers|
            && AllAcceptable(now.startRegisters, |now.registers|, frames[k..])
  {
    if k > 0 {
      OutcomeMore(t, frames, k - 1);
      ServeSafe(Tcp, Outcome(t, frames[..k - 1]).0, frames[k - 1]);
      hide Outcome, Acceptable, Serve, AnswerTo, SomeBitWriter, SomeRegisterWriter;
    } else {
      assert frames[..0] == [];
    }
    assert forall i | 0 <= i < |frames| - k :: frames[k..][i] == frames[k + i];
  }

  /** The loop of a server program: whatever pieces the requests arrive in, the tables and the octets sent are those of
      the frames on the stream, one after another; when the link fails, those of the first of them. */
  method Run(slave: byte, m: Mapping, link: Link) returns (sent: seq<byte>, ghost served: nat)
    requires m.Valid()
    requires AllAcceptable(m.startRegisters, m.tabRegisters.Length, Cut(Tcp, Indication, link.pending))
    modifies link, m.tabBits, m.tabRegisters
    ensures m.Valid() && |old(m.Contents()).registers| == m.tabRegisters.Length
    ensures var frames := Cut(Tcp, Indication, old(link.pending));
            && served <= |frames| && (!link.failed ==> served == |frames|)
            && (m.Contents(), sent) == Outcome(old(m.Contents()), frames[..served])
  {
    hide Cut, Outcome, AnswerTo, Frame, ServerTurn, Servable, Acceptable, Serve,
         Mapping.Valid, Mapping.Contents;
    Extent(m);
    sent, served := [], 0;
    ghost var t0, frames := m.Contents(), Cut(Tcp, Indication, link.pending);
    NoneServed(t0, frames, link.pending);
    var rc := 0;
    while rc != -1
      invariant m.Valid() && served <= |frames| && (rc == -1 && !link.failed ==> served == |frames|)
      invariant (m.Contents(), sent) == Outcome(t0, frames[..served])
      invariant rc != -1 ==> Done(t0, frames, served, m.Contents(), sent, link.pending)
      decreases rc != -1, |link.pending|
    {
      ghost var now, s := m.Contents(), link.pending;
      KeepsAcceptable(t0, frames, served);
      Extent(m);
      FirstTurn(slave, now, s);
      var answer;
      rc, answer := ServeOne(Tcp, slave, m, link);
      if !link.failed {
        OneTurn(slave, t0, frames, served, now, sent, s, rc, link.pending);
        served := if rc != -1 then served + 1 else served;
      }
      assert sent + [] == sent;
      sent := sent + answer;
    }
  }

  lemma NoneServed(t: Tables, frames: seq<seq<byte>>, s: seq<byte>)
    requires AllAcceptable(t.startRegisters, |t.registers|, frames) && frames == Cut(Tcp, Indication, s)
    ensures Done(t, frames, 0, t, [], s)
  {
    assert frames[..0] == [] && frames[0..] == frames;
  }
}
