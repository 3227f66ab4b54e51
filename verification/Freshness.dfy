/** Transaction identifiers of the TCP backend: no late reply is taken for the answer to another request. */
module Freshness {
  import opened Bytes
  import opened Protocol
  import opened Framing
  import opened Backend
  import opened Server
  import opened Client
  import opened EndToEnd
  import opened ServerSafety

  /** The identifier of the `k`-th request sent by a context that starts with `t0`. */
  function TidOf(t0: word, k: nat): word {
    if k == 0 then t0 else NextTid(TidOf(t0, k - 1))
  }

  lemma {:induction false} TidCounts(t0: word, k: nat)
    ensures TidOf(t0, k) == U16(t0 + k)
  {
    if k != 0 {
      TidCounts(t0, k - 1);
    }
  }

  /** Two requests share an identifier exactly when a whole number of wraps lies between them. */
  lemma SameTidIff(t0: word, j: nat, k: nat)
    ensures TidOf(t0, j) == TidOf(t0, k) <==> (k - j) % 0x1_0000 == 0
  {
    TidCounts(t0, j);
    TidCounts(t0, k);
  }

  lemma ResponseKeepsTid(req: seq<byte>, reply: Reply)
    requires |req| > 7 && !reply.Silence? && (reply.Answer? ==> reply.pdu != [])
    ensures var rsp := Tcp.Sealed(Response(Tcp, req, reply)); |rsp| > 7 && Tcp.Tid(rsp) == Tcp.Tid(req)
  {
    if !reply.Echo? {
      SealedKeeps(Tcp, Tcp.Tid(req), req[6], ReplyPdu(Tcp.Pdu(req), reply));
      hide Backend.Tid, Backend.Header, ReplyPdu;
    } else {
      hide Hi, Lo;
    }
  }

  /** Whatever a server answers, it answers with the transaction identifier of the request. */
  lemma ReplyKeepsTid(t: Tables, req: seq<byte>)
    requires Receivable(Tcp, req) && Supported(t.startRegisters, |t.registers|, Tcp.Pdu(req))
    requires Serve(Tcp, t, req).frame.Some?
    ensures var rsp := Serve(Tcp, t, req).frame.value; |rsp| > 7 && Tcp.Tid(rsp) == Tcp.Tid(req)
  {
    hide Execute, Complete, IsMessage, ReplyPdu, Response, Backend.Sealed, Backend.Tid;
    MessageIffComplete(Tcp, Indication, req);
    ResponseKeepsTid(req, Execute(t, Tcp.Pdu(req)).reply);
  }

  /** A response that carries another identifier is rejected, whatever else it says. */
  lemma OtherTidRejected(req: seq<byte>, rsp: seq<byte>)
    requires |req| > 7 && Complete(Indication, Tcp.Pdu(req))
    requires |rsp| > 7 && IsMessage(Tcp, Confirmation, rsp)
    requires Tcp.Tid(req) != Tcp.Tid(rsp)
    ensures CheckConfirmation(Tcp, req, rsp, |rsp|) == Rejected(EMBBADDATA)
  {
    hide Complete, IsMessage, Quantities, ResponseLength;
  }

  /** The `k`-th request of a run. */
  function Sent(t0: word, slave: byte, k: nat, c: Call): (req: seq<byte>)
    requires !Refused(c)
    ensures Receivable(Tcp, req) && Tcp.Pdu(req) == RequestPdu(c) && Tcp.Tid(req) == TidOf(t0, k)
    ensures Complete(Indication, RequestPdu(c))
  {
    hide Complete, IsMessage, RequestPdu, Backend.Sealed, Refused, TidOf;
    RequestIsMessage(Tcp, TidOf(t0, k), slave, c);
    RequestComplete(c);
    Request(Tcp, TidOf(t0, k), slave, c)
  }

  /** Over any run of requests, whatever calls they carry, and through every wrap of the counter: the reply to
      request `j` is one that the client receives whole, it carries the identifier of request `k` exactly when the
      two are a multiple of 65536 apart, and within that distance the client's test of request `k` rejects it. */
  lemma StaleReplyRejected(t0: word, slave: byte, t: Tables, j: nat, cj: Call, k: nat, ck: Call)
    requires !Refused(cj) && !Refused(ck) && Supported(t.startRegisters, |t.registers|, RequestPdu(cj))
    requires Serve(Tcp, t, Sent(t0, slave, j, cj)).frame.Some?
    ensures var req, rsp := Sent(t0, slave, k, ck), Serve(Tcp, t, Sent(t0, slave, j, cj)).frame.value;
            && |rsp| > 7 && IsMessage(Tcp, Confirmation, rsp)
            && (Tcp.Tid(req) == Tcp.Tid(rsp) <==> (k - j) % 0x1_0000 == 0)
            && (0 < k - j < 0x1_0000 || 0 < j - k < 0x1_0000 ==>
                  CheckConfirmation(Tcp, req, rsp, |rsp|) == Rejected(EMBBADDATA))
  {
    hide Serve, IsMessage, Complete, Refused, Sent, TidOf, CheckConfirmation, Backend.Tid, RequestPdu;
    var rsp := Serve(Tcp, t, Sent(t0, slave, j, cj)).frame.value;
    ReplyKeepsTid(t, Sent(t0, slave, j, cj));
    KindOfRequest(cj);
    ReplyIsMessageIff(Tcp, t, Sent(t0, slave, j, cj));
    SameTidIff(t0, j, k);
    if (k - j) % 0x1_0000 != 0 {
      OtherTidRejected(Sent(t0, slave, k, ck), rsp);
    }
  }
}
