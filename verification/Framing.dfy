/** Where a message ends: the three-step machine of `_modbus_receive_msg`, which learns from the octets
    read so far how many to read next, against the length the whole stream determines. */
module Framing {
  import opened Bytes
  import opened Backend
  import opened Protocol

  datatype MsgType = Indication | Confirmation

  /** `compute_meta_length_after_function`. */
  function MetaLength(function_: byte, t: MsgType): (length: nat)
    ensures length <= 9
  {
    if t.Indication? then
      if function_ <= WRITE_SINGLE_REGISTER then 4
      else if function_ == WRITE_MULTIPLE_COILS || function_ == WRITE_MULTIPLE_REGISTERS then 5
      else if function_ == MASK_WRITE_REGISTER then 6
      else if function_ == WRITE_AND_READ_REGISTERS then 9
      else 0
    else
      if function_ == WRITE_SINGLE_COIL || function_ == WRITE_SINGLE_REGISTER
         || function_ == WRITE_MULTIPLE_COILS || function_ == WRITE_MULTIPLE_REGISTERS then 4
      else if function_ == MASK_WRITE_REGISTER then 6
      else 1
  }

  /** `compute_data_length_after_meta` without the checksum, on a message that starts at the function. */
  function DataLength(pdu: seq<byte>, t: MsgType): nat
    requires pdu != [] && |pdu| >= 1 + MetaLength(pdu[0], t)
  {
    var function_ := pdu[0];
    if t.Indication? then
      if function_ == WRITE_MULTIPLE_COILS || function_ == WRITE_MULTIPLE_REGISTERS then pdu[5]
      else if function_ == WRITE_AND_READ_REGISTERS then pdu[9]
      else 0
    else
      if function_ <= READ_INPUT_REGISTERS || function_ == REPORT_SLAVE_ID
         || function_ == WRITE_AND_READ_REGISTERS then pdu[1]
      else 0
  }

  /** What a stream holds at its front: not yet a whole message, a message whose announced length
      exceeds the ADU, or a message of so many octets. */
  datatype Framed = Partial | TooLong(consumed: nat) | Message(length: nat)

  function Frame(b: Backend, t: MsgType, s: seq<byte>): Framed {
    var h := b.HeaderLength();
    if |s| < h + 1 then Partial
    else
      var meta := h + 1 + MetaLength(s[h], t);
      if |s| < meta then Partial
      else
        var length := meta + DataLength(s[h..], t) + b.ChecksumLength();
        if length > b.MaxAduLength() then TooLong(meta)
        else if |s| < length then Partial
        else Message(length)
  }

  /** A PDU that is exactly as long as its own octets announce. */
  predicate Complete(t: MsgType, pdu: seq<byte>) {
    && pdu != []
    && |pdu| >= 1 + MetaLength(pdu[0], t)
    && |pdu| == 1 + MetaLength(pdu[0], t) + DataLength(pdu, t)
  }

  /** The octets of one whole message. */
  predicate IsMessage(b: Backend, t: MsgType, frame: seq<byte>) {
    Frame(b, t, frame) == Message(|frame|)
  }

  lemma MessageIffComplete(b: Backend, t: MsgType, frame: seq<byte>)
    requires |frame| > b.HeaderLength() + b.ChecksumLength()
    ensures Complete(t, b.Pdu(frame)) && |frame| <= b.MaxAduLength() ==> IsMessage(b, t, frame)
    ensures IsMessage(b, t, frame) ==> Complete(t, b.Pdu(frame)) && |frame| <= b.MaxAduLength()
  {
    var pdu, rest := b.Pdu(frame), frame[b.HeaderLength()..];
    assert forall k | 0 <= k < |pdu| :: pdu[k] == rest[k];
  }

  /** What has been decided does not depend on the octets that follow. */
  lemma FrameOfPrefix(b: Backend, t: MsgType, s: seq<byte>, more: seq<byte>)
    requires !Frame(b, t, s).Partial?
    ensures Frame(b, t, s + more) == Frame(b, t, s)
  {
    var h := b.HeaderLength();
    var meta := h + 1 + MetaLength(s[h], t);
    assert (s + more)[h] == s[h];
    assert forall k | 0 <= k < |s| - h :: (s + more)[h..][k] == s[h..][k];
  }

  // ---------------------------------------------------------------------------------------------
  // A stream cut into messages

  /** What repeated reception makes of a stream: the messages up to the first one that is not whole. */
  function Cut(b: Backend, t: MsgType, s: seq<byte>): seq<seq<byte>>
    decreases |s|
  {
    match Frame(b, t, s)
    case Message(n) => [s[..n]] + Cut(b, t, s[n..])
    case _ => []
  }

  function Flatten(frames: seq<seq<byte>>): seq<byte> {
    if frames == [] then [] else frames[0] + Flatten(frames[1..])
  }

  lemma CutOne(b: Backend, t: MsgType, frame: seq<byte>, rest: seq<byte>)
    requires IsMessage(b, t, frame)
    ensures Cut(b, t, frame + rest) == [frame] + Cut(b, t, rest)
  {
    hide Frame;
    FrameOfPrefix(b, t, frame, rest);
    assert (frame + rest)[..|frame|] == frame && (frame + rest)[|frame|..] == rest;
  }

  /** Messages sent back to back are received as the same messages, whatever follows them. */
  lemma {:induction false} BackToBack(b: Backend, t: MsgType, frames: seq<seq<byte>>, tail: seq<byte>)
    requires forall k | 0 <= k < |frames| :: IsMessage(b, t, frames[k])
    ensures Cut(b, t, Flatten(frames) + tail) == frames + Cut(b, t, tail)
    decreases |frames|
  {
    hide Frame, Cut;
    if frames == [] {
      assert Flatten(frames) + tail == tail;
    } else {
      var rest := Flatten(frames[1..]) + tail;
      assert Flatten(frames) + tail == frames[0] + rest;
      CutOne(b, t, frames[0], rest);
      BackToBack(b, t, frames[1..], tail);
      assert [frames[0]] + (frames[1..] + Cut(b, t, tail)) == frames + Cut(b, t, tail);
    }
  }

  // ---------------------------------------------------------------------------------------------
  // The link: octets on their way, handed over in pieces of any size

  class Link {
    var pending: seq<byte>
    var failed: bool
    /** The errno it leaves if it fails. */
    const fault: int

    constructor (octets: seq<byte>, fault: int)
      ensures pending == octets && !failed && this.fault == fault
    {
      pending := octets;
      failed := false;
      this.fault := fault;
    }

    /** `select` followed by `recv`: an error, end of stream, or between 1 and `n` octets. */
    method Recv(msg: array<byte>, at: nat, n: nat) returns (rc: int)
      requires n > 0 && at + n <= msg.Length
      modifies this, msg
      ensures -1 <= rc <= n
      ensures rc == -1 ==> failed && pending == old(pending)
      ensures rc != -1 ==> failed == old(failed) && rc <= |old(pending)| && pending == old(pending)[rc..]
      ensures rc == 0 ==> old(pending) == []
      ensures forall i | 0 <= i < rc :: msg[at + i] == old(pending)[i]
      ensures forall i | 0 <= i < msg.Length && !(at <= i < at + rc) :: msg[i] == old(msg[i])
    {
      if * {
        failed := true;
        return -1;
      }
      if pending == [] {
        return 0;
      }
      var k :| 1 <= k <= n && k <= |pending|;
      forall i | 0 <= i < k {
        msg[at + i] := pending[i];
      }
      pending := pending[k..];
      rc := k;
    }
  }

  datatype Step = StepFunction | StepMeta | StepData {
    function Remaining(): nat {
      match this
      case StepFunction => 2
      case StepMeta => 1
      case StepData => 0
    }
  }

  /** What a reader at `step`, with `got` octets read and `due` more to read, knows of the stream `s`. */
  ghost predicate OnTrack(b: Backend, t: MsgType, s: seq<byte>, step: Step, got: nat, due: nat) {
    var h := b.HeaderLength();
    && got <= |s| && got + due <= b.MaxAduLength()
    && match step
       case StepFunction => got + due == h + 1 && due > 0
       case StepMeta => h < got && due > 0 && got + due == h + 1 + MetaLength(s[h], t)
       case StepData =>
         && h < got && h + 1 + MetaLength(s[h], t) <= got
         && got + due == h + 1 + MetaLength(s[h], t) + DataLength(s[h..], t) + b.ChecksumLength()
  }

  /** The switch at the end of the loop: the next step and the octets to read for it. */
  function NextStep(b: Backend, t: MsgType, step: Step, msg: seq<byte>): (next: (Step, nat))
    requires |msg| > b.HeaderLength() && !step.StepData?
    requires step.StepMeta? ==> |msg| > b.HeaderLength() + MetaLength(msg[b.HeaderLength()], t)
    ensures next.0.Remaining() < step.Remaining()
  {
    var h := b.HeaderLength();
    var meta := MetaLength(msg[h], t);
    if step.StepFunction? && meta != 0 then (StepMeta, meta)
    else (StepData, DataLength(msg[h..], t) + b.ChecksumLength())
  }

  ghost predicate AtSwitch(b: Backend, t: MsgType, s: seq<byte>, step: Step, got: nat) {
    && b.HeaderLength() < got <= |s| && !step.StepData?
    && got == b.HeaderLength() + 1 + if step.StepMeta? then MetaLength(s[b.HeaderLength()], t) else 0
  }

  lemma NextStepOnTrack(b: Backend, slave: byte, t: MsgType, s: seq<byte>, step: Step, got: nat,
                        msg: seq<byte>, rest: seq<byte>)
    requires AtSwitch(b, t, s, step, got) && Consumed(s, got, msg, rest)
    ensures |msg[..got]| > b.HeaderLength()
    ensures step.StepMeta? ==> got > b.HeaderLength() + MetaLength(msg[..got][b.HeaderLength()], t)
    ensures var (step', due) := NextStep(b, t, step, msg[..got]);
            if step'.StepData? && got + due > b.MaxAduLength() then
              Received(b, slave, t, s, -1, msg, rest) && Frame(b, t, s).TooLong?
            else OnTrack(b, t, s, step', got, due)
  {
    var h := b.HeaderLength();
    if step.StepMeta? || MetaLength(s[h], t) == 0 {
      DataLengthOfPrefix(s, s[..got], h, t);
    }
    hide MetaLength, DataLength;
  }

  /** What one reception makes of the stream `s`: the return value, the octets at the front of the buffer and
      those left on the link, whatever the pieces in which the link hands them over. */
  ghost predicate Received(b: Backend, slave: byte, t: MsgType, s: seq<byte>,
                           rc: int, msg: seq<byte>, rest: seq<byte>)
  {
    match Frame(b, t, s)
    case Message(n) =>
      && n <= |msg| && msg[..n] == s[..n] && rest == s[n..]
      && n > b.HeaderLength() + b.ChecksumLength() && rc == b.CheckIntegrity(slave, s[..n])
    case TooLong(n) => rc == -1 && n <= |s| && rest == s[n..]
    case Partial => rc == -1 && rest == []
  }

  /** The octets read so far, and those still on the link. */
  ghost predicate Consumed(s: seq<byte>, n: nat, msg: seq<byte>, rest: seq<byte>) {
    n <= |s| && n <= |msg| && msg[..n] == s[..n] && rest == s[n..]
  }

  lemma ReadToTheEnd(b: Backend, slave: byte, t: MsgType, s: seq<byte>, got: nat, msg: seq<byte>, rest: seq<byte>)
    requires OnTrack(b, t, s, StepData, got, 0) && Consumed(s, got, msg, rest)
    ensures got > b.HeaderLength() + b.ChecksumLength() && got <= |msg|
    ensures Received(b, slave, t, s, b.CheckIntegrity(slave, msg[..got]), msg, rest) && Frame(b, t, s).Message?
  {
    hide MetaLength, DataLength, Backend.CheckIntegrity;
  }

  lemma EndOfStream(b: Backend, slave: byte, t: MsgType, s: seq<byte>, step: Step, due: nat, msg: seq<byte>)
    requires OnTrack(b, t, s, step, |s|, due) && due > 0
    ensures Received(b, slave, t, s, -1, msg, []) && Frame(b, t, s).Partial?
  {
    hide MetaLength, DataLength;
  }

  /** `_modbus_receive_msg`, error recovery off; the errno of a failed link is the link's own. */
  method ReceiveMsg(b: Backend, slave: byte, link: Link, msg: array<byte>, t: MsgType) returns (rc: int, errno: int)
    requires msg.Length >= MAX_MESSAGE_LENGTH
    modifies link, msg
    ensures if link.failed then rc == -1 && errno == link.fault
            else Received(b, slave, t, old(link.pending), rc, msg[..], link.pending)
    ensures !link.failed && rc == -1 ==>
              errno == match Frame(b, t, old(link.pending))
                       case Message(_) => 112345690
                       case TooLong(_) => 112345691
                       case Partial => 104
  {
    hide Frame, OnTrack, NextStep, MetaLength, DataLength, Backend.CheckIntegrity, Backend.HeaderLength,
         Backend.ChecksumLength, Backend.MaxAduLength;
    var step := StepFunction;
    var msgLength: nat, lengthToRead: nat := 0, b.HeaderLength() + 1;
    ghost var s := link.pending;
    link.failed := false;
    errno := 0;
    StartOnTrack(b, t, s);
    while lengthToRead != 0
      invariant !link.failed
      invariant OnTrack(b, t, s, step, msgLength, lengthToRead)
      invariant Consumed(s, msgLength, msg[..], link.pending)
      decreases step.Remaining(), lengthToRead
    {
      Bounds(b, t, s, step, msgLength, lengthToRead);
      rc := link.Recv(msg, msgLength, lengthToRead);
      if rc == 0 {
        EndOfStream(b, slave, t, s, step, lengthToRead, msg[..]);
        return -1, ECONNRESET;
      } else if rc == -1 {
        return rc, link.fault;
      }
      Advance(s, link.pending, msg[..], msgLength, rc);
      ReadOn(b, t, s, step, msgLength, lengthToRead, rc);
      msgLength := msgLength + rc;
      lengthToRead := lengthToRead - rc;
      if lengthToRead == 0 && !step.StepData? {
        NextStepOnTrack(b, slave, t, s, step, msgLength, msg[..], link.pending);
        assert msg[..][..msgLength] == msg[..msgLength];
        var next := NextStep(b, t, step, msg[..msgLength]);
        step, lengthToRead := next.0, next.1;
        if step.StepData? && msgLength + lengthToRead > b.MaxAduLength() {
          return -1, EMBBADDATA;
        }
      }
    }
    AtTheEnd(b, t, s, step, msgLength);
    ReadToTheEnd(b, slave, t, s, msgLength, msg[..], link.pending);
    rc := b.CheckIntegrity(slave, msg[..msgLength]);
    errno := EMBBADCRC;
  }

  lemma StartOnTrack(b: Backend, t: MsgType, s: seq<byte>)
    ensures OnTrack(b, t, s, StepFunction, 0, b.HeaderLength() + 1)
  {
  }

  lemma Bounds(b: Backend, t: MsgType, s: seq<byte>, step: Step, got: nat, due: nat)
    requires OnTrack(b, t, s, step, got, due)
    ensures got + due <= b.MaxAduLength()
  {
  }

  /** After some octets more the reader is still on track, or due at the switch. */
  lemma ReadOn(b: Backend, t: MsgType, s: seq<byte>, step: Step, got: nat, due: nat, k: nat)
    requires OnTrack(b, t, s, step, got, due) && k <= due && got + k <= |s|
    ensures k < due || step.StepData? ==> OnTrack(b, t, s, step, got + k, due - k)
    ensures k == due && !step.StepData? ==> AtSwitch(b, t, s, step, got + k)
  {
    hide MetaLength, DataLength;
  }

  lemma AtTheEnd(b: Backend, t: MsgType, s: seq<byte>, step: Step, got: nat)
    requires OnTrack(b, t, s, step, got, 0)
    ensures step.StepData?
  {
  }

  lemma Advance(s: seq<byte>, rest: seq<byte>, msg: seq<byte>, n: nat, k: nat)
    requires n + k <= |s| && n + k <= |msg|
    requires msg[..n] == s[..n] && rest == s[n..][k..]
    requires forall i | 0 <= i < k :: msg[n + i] == s[n..][i]
    ensures Consumed(s, n + k, msg, rest)
  {
    forall i | 0 <= i < n + k
      ensures msg[i] == s[i]
    {
      if i < n {
        assert msg[..n][i] == s[..n][i];
      } else {
        assert msg[n + (i - n)] == s[n..][i - n];
      }
    }
  }

  lemma DataLengthOfPrefix(s: seq<byte>, got: seq<byte>, h: nat, t: MsgType)
    requires h < |got| <= |s| && got == s[..|got|] && |got| >= h + 1 + MetaLength(s[h], t)
    ensures DataLength(got[h..], t) == DataLength(s[h..], t)
  {
    assert forall k | 0 <= k < |got| - h :: got[h..][k] == s[h..][k];
  }
}
