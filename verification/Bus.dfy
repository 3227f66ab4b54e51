/** An RTU station on a shared line, where it hears the requests made to other slaves and their answers. */
module Bus {
  import opened Bytes
  import opened Protocol
  import opened Framing
  import opened Backend
  import opened CrcDetection
  import opened EndToEnd

  /** One reception: the return value, the frame when there is one to serve, and what is left. */
  datatype Heard = Heard(rc: int, request: seq<byte>, ignoring: bool, rest: seq<byte>)

  /** The octets a reception leaves behind, whatever it makes of those it takes. */
  function Rest(t: MsgType, s: seq<byte>): (rest: seq<byte>)
    ensures s != [] ==> |rest| < |s|
  {
    match Frame(Rtu, t, s)
    case Message(n) => s[n..]
    case TooLong(n) => s[n..]
    case Partial => []
  }

  /** What `_modbus_rtu_receive` makes of a stream. */
  function Hear(slave: byte, ignoring: bool, s: seq<byte>): Heard {
    if ignoring then Heard(0, [], false, Rest(Confirmation, s))
    else
      match Frame(Rtu, Indication, s)
      case Message(n) =>
        MessageIsLong(Rtu, Indication, s);
        var rc := Rtu.CheckIntegrity(slave, s[..n]);
        Heard(rc, if rc > 0 then s[..n] else [], rc == 0, s[n..])
      case _ => Heard(-1, [], false, Rest(Indication, s))
  }

  /** The return value of a reception that the link does not fail.  With the flag set it is 0, whatever arrives.
      Without it, a whole request to this slave or to all gives its length, or -1 when its CRC is not right; a whole
      request to another slave gives 0; and a request that is cut short, or would be too long, gives -1. */
  predicate Returns(slave: byte, ignoring: bool, s: seq<byte>, rc: int) {
    if ignoring then rc == 0
    else
      match Frame(Rtu, Indication, s)
      case Message(n) =>
        && 4 <= n <= |s|
        && if s[0] == slave || s[0] == 0 then rc == (if CrcMatches(s[..n]) then n else -1) else rc == 0
      case _ => rc == -1
  }

  lemma HearReturns(slave: byte, ignoring: bool, s: seq<byte>)
    ensures Returns(slave, ignoring, s, Hear(slave, ignoring, s).rc)
    ensures Hear(slave, ignoring, s).ignoring == (!ignoring && Hear(slave, ignoring, s).rc == 0)
  {
    hide Frame, CrcMatches;
    if Frame(Rtu, Indication, s).Message? {
      MessageIsLong(Rtu, Indication, s);
    }
  }

  /** `modbus_rtu_t` and the slave number of its `modbus_t`. */
  class Station {
    var slave: byte
    var confirmationToIgnore: bool

    constructor (slave: byte)
      ensures this.slave == slave && !confirmationToIgnore
    {
      this.slave := slave;
      confirmationToIgnore := false;
    }

    /** `_modbus_rtu_receive`; a failed link clears the flag all the same. */
    method Receive(link: Link, req: array<byte>) returns (rc: int)
      requires req.Length >= MAX_MESSAGE_LENGTH
      modifies this`confirmationToIgnore, link, req
      ensures link.failed ==> !confirmationToIgnore && rc == if old(confirmationToIgnore) then 0 else -1
      ensures !link.failed ==> Returns(slave, old(confirmationToIgnore), old(link.pending), rc)
      ensures !link.failed ==> confirmationToIgnore == (!old(confirmationToIgnore) && rc == 0)
      ensures !link.failed ==>
                var heard := Hear(slave, old(confirmationToIgnore), old(link.pending));
                && rc == heard.rc && confirmationToIgnore == heard.ignoring && link.pending == heard.rest
                && (rc > 0 ==> rc <= req.Length && req[..rc] == heard.request)
    {
      hide Frame, CrcMatches, Returns;
      ghost var s := link.pending;
      HearReturns(slave, confirmationToIgnore, s);
      var errno;
      if confirmationToIgnore {
        rc, errno := ReceiveMsg(Rtu, slave, link, req, Confirmation);
        confirmationToIgnore := false;
        rc := 0;
      } else {
        rc, errno := ReceiveMsg(Rtu, slave, link, req, Indication);
        if rc == 0 {
          confirmationToIgnore := true;
        }
      }
    }
  }

  /** The requests a station takes from a stream by receiving until nothing is left. */
  function Listen(slave: byte, ignoring: bool, s: seq<byte>): seq<seq<byte>>
    decreases |s|
  {
    if s == [] then []
    else
      var heard := Hear(slave, ignoring, s);
      Heeded(slave, ignoring, s);
      (if heard.rc > 0 then [heard.request] else []) + Listen(slave, heard.ignoring, heard.rest)
  }

  lemma Heeded(slave: byte, ignoring: bool, s: seq<byte>)
    requires s != []
    ensures |Hear(slave, ignoring, s).rest| < |s|
  {
    hide CrcMatches;
  }

  /** A station that receives until nothing is left on the line, or the line fails: it takes the requests of `Listen`,
      or the first of them. */
  method ListenAll(station: Station, link: Link) returns (taken: seq<seq<byte>>)
    modifies station`confirmationToIgnore, link
    ensures var all := Listen(station.slave, old(station.confirmationToIgnore), old(link.pending));
            if link.failed then taken <= all else taken == all && link.pending == []
  {
    hide Hear, Rest, CrcMatches;
    var req := new byte[MAX_MESSAGE_LENGTH];
    taken := [];
    link.failed := false;
    ghost var all := Listen(station.slave, station.confirmationToIgnore, link.pending);
    assert [] + all == all;
    while link.pending != []
      invariant !link.failed
      invariant taken + Listen(station.slave, station.confirmationToIgnore, link.pending) == all
      decreases |link.pending|
    {
      ghost var slave, ignoring, s := station.slave, station.confirmationToIgnore, link.pending;
      Heeded(slave, ignoring, s);
      var rc := station.Receive(link, req);
      if link.failed {
        return;
      }
      ghost var heard := Hear(slave, ignoring, s);
      ListenOne(slave, ignoring, s, taken);
      if rc > 0 {
        taken := taken + [req[..rc]];
      }
    }
    assert taken + [] == taken;
  }

  lemma ListenOne(slave: byte, ignoring: bool, s: seq<byte>, taken: seq<seq<byte>>)
    requires s != []
    ensures var heard := Hear(slave, ignoring, s);
            taken + Listen(slave, ignoring, s)
            == taken + (if heard.rc > 0 then [heard.request] else []) + Listen(slave, heard.ignoring, heard.rest)
  {
    var heard := Hear(slave, ignoring, s);
    var now, later := if heard.rc > 0 then [heard.request] else [], Listen(slave, heard.ignoring, heard.rest);
    assert Listen(slave, ignoring, s) == now + later by {
      hide Hear;
    }
    hide *;
    assert taken + (now + later) == taken + now + later;
  }

  // ---------------------------------------------------------------------------------------------
  // Traffic

  /** What passes on the line: a request to this station or to all, which nobody else answers, and a request
      to another slave with that slave's answer. */
  datatype Traffic = Here(request: seq<byte>) | Elsewhere(request: seq<byte>, response: seq<byte>)

  ghost predicate Whole(t: MsgType, frame: seq<byte>) {
    |frame| > 3 && IsMessage(Rtu, t, frame)
  }

  ghost predicate Passes(slave: byte, item: Traffic) {
    && Whole(Indication, item.request)
    && var here := item.request[0] == slave || item.request[0] == BROADCAST_ADDRESS;
    && match item
       case Here(_) => here
       case Elsewhere(_, response) => !here && Whole(Confirmation, response)
  }

  function OnTheLine(trace: seq<Traffic>): seq<byte> {
    if trace == [] then []
    else (match trace[0] case Here(q) => q case Elsewhere(q, r) => q + r) + OnTheLine(trace[1..])
  }

  /** The requests to serve: those for this station or for all that arrive undamaged. */
  ghost function ToServe(slave: byte, trace: seq<Traffic>): seq<seq<byte>>
    requires forall k | 0 <= k < |trace| :: Passes(slave, trace[k])
  {
    if trace == [] then []
    else
      assert Passes(slave, trace[0]);
      (if trace[0].Here? && CrcMatches(trace[0].request) then [trace[0].request] else []) + ToServe(slave, trace[1..])
  }

  lemma HearOne(slave: byte, ignoring: bool, frame: seq<byte>, rest: seq<byte>)
    requires Whole(if ignoring then Confirmation else Indication, frame)
    ensures var heard := Hear(slave, ignoring, frame + rest);
            && heard.rest == rest
            && heard.ignoring == (!ignoring && frame[0] != slave && frame[0] != BROADCAST_ADDRESS)
            && heard.rc == (if ignoring || heard.ignoring then 0 else if CrcMatches(frame) then |frame| else -1)
            && (heard.rc > 0 ==> heard.request == frame)
  {
    var t := if ignoring then Confirmation else Indication;
    hide Frame, CrcMatches;
    FrameOfPrefix(Rtu, t, frame, rest);
    assert (frame + rest)[..|frame|] == frame && (frame + rest)[|frame|..] == rest;
  }

  /** On any traffic in which every request to another slave is followed by its one response, the station takes
      exactly the undamaged requests meant for it, in order, and no response for a request. */
  lemma {:induction false} ListensToItsOwn(slave: byte, trace: seq<Traffic>)
    requires forall k | 0 <= k < |trace| :: Passes(slave, trace[k])
    ensures Listen(slave, false, OnTheLine(trace)) == ToServe(slave, trace)
    decreases |trace|
  {
    hide Whole, Hear, CrcMatches;
    if trace != [] {
      assert Passes(slave, trace[0]);
      var rest := OnTheLine(trace[1..]);
      ListensToItsOwn(slave, trace[1..]);
      match trace[0] {
        case Here(q) =>
          WholeIsSome(Indication, q);
          HearOne(slave, false, q, rest);
        case Elsewhere(q, r) =>
          WholeIsSome(Indication, q);
          WholeIsSome(Confirmation, r);
          assert q + r + rest == q + (r + rest);
          HearOne(slave, false, q, r + rest);
          HearOne(slave, true, r, rest);
      }
    }
  }

  lemma WholeIsSome(t: MsgType, frame: seq<byte>)
    requires Whole(t, frame)
    ensures |frame| > 3
  {
  }

  /** The one response is needed.  After a request to another slave, whatever follows is read as the response to it:
      what the station hears then is what is left behind that. */
  lemma AfterRequestElsewhere(slave: byte, q: seq<byte>, s: seq<byte>)
    requires Whole(Indication, q) && q[0] != slave && q[0] != BROADCAST_ADDRESS
    ensures Listen(slave, false, q + s) == Listen(slave, false, Rest(Confirmation, s))
  {
    hide Whole, Hear, CrcMatches, Frame, Rest;
    WholeIsSome(Indication, q);
    HearOne(slave, false, q, s);
    HearIgnoring(slave, s);
    if s == [] {
      NothingLeft();
    }
  }

  lemma HearIgnoring(slave: byte, s: seq<byte>)
    ensures Hear(slave, true, s) == Heard(0, [], false, Rest(Confirmation, s))
  {
  }

  lemma NothingLeft()
    ensures Rest(Confirmation, []) == []
  {
  }

  /** A request heard is no longer than the octets it is heard in. */
  lemma {:induction false} HeardWithin(slave: byte, ignoring: bool, s: seq<byte>)
    ensures forall r | r in Listen(slave, ignoring, s) :: |r| <= |s|
    decreases |s|
  {
    if s != [] {
      hide CrcMatches;
      var heard := Hear(slave, ignoring, s);
      Heeded(slave, ignoring, s);
      HeardWithin(slave, heard.ignoring, heard.rest);
      assert heard.rc > 0 ==> |heard.request| <= |s|;
    }
  }

  /** When the other slave stays silent, the next request is lost, whatever its function and whoever it is for. */
  lemma SilentSlaveCostsARequest(slave: byte, q: seq<byte>, own: seq<byte>)
    requires Whole(Indication, q) && q[0] != slave && q[0] != BROADCAST_ADDRESS
    requires own != []
    ensures own !in Listen(slave, false, q + own)
  {
    hide Whole, Listen, Rest;
    WholeIsSome(Indication, q);
    AfterRequestElsewhere(slave, q, own);
    HeardWithin(slave, false, Rest(Confirmation, own));
  }

  /** A request that reads the same both ways is lost whole: the station hears nothing. */
  lemma SwallowedWhole(slave: byte, q: seq<byte>, own: seq<byte>)
    requires Whole(Indication, q) && q[0] != slave && q[0] != BROADCAST_ADDRESS
    requires Whole(Indication, own) && own[1] in {WRITE_SINGLE_COIL, WRITE_SINGLE_REGISTER, MASK_WRITE_REGISTER}
    ensures Listen(slave, false, q + own) == []
  {
    assert Whole(Confirmation, own);
    hide Whole, Hear, CrcMatches, Frame;
    WholeIsSome(Indication, q);
    AfterRequestElsewhere(slave, q, own);
    assert own + [] == own;
    HearOne(slave, true, own, []);
  }
}
