/** The client half of modbus.c: what each call sends, how a response is matched against its request,
    and what the call makes of it. */
module Client {
  import opened Bytes
  import opened Protocol
  import opened Packing
  import opened Framing
  import opened Backend
  import opened Server

  /** The calls of the client interface; `src` arrays carry their own length. */
  datatype Call =
    | ReadBitsCall(addr: word, nb: nat)
    | ReadInputBitsCall(addr: word, nb: nat)
    | ReadRegistersCall(addr: word, nb: nat)
    | ReadInputRegistersCall(addr: word, nb: nat)
    | WriteBitCall(addr: word, status: bool)
    | WriteRegisterCall(addr: word, value: word)
    | WriteBitsCall(addr: word, cells: seq<byte>)
    | WriteRegistersCall(addr: word, values: seq<word>)
    | MaskWriteCall(addr: word, andMask: word, orMask: word)
    | WriteAndReadCall(writeAddr: word, values: seq<word>, addr: word, nb: nat)
    | ReportSlaveIdCall(maxDest: nat)

  /** The calls the client refuses before it sends anything. */
  predicate Refused(c: Call) {
    match c
    case ReadBitsCall(_, nb) => nb > MAX_READ_BITS
    case ReadInputBitsCall(_, nb) => nb > MAX_READ_BITS
    case ReadRegistersCall(_, nb) => nb > MAX_READ_REGISTERS
    case ReadInputRegistersCall(_, nb) => nb > MAX_READ_REGISTERS
    case WriteBitsCall(_, cells) => |cells| > MAX_WRITE_BITS
    case WriteRegistersCall(_, values) => |values| > MAX_WRITE_REGISTERS
    case WriteAndReadCall(_, values, _, nb) => |values| > MAX_WR_WRITE_REGISTERS || nb > MAX_WR_READ_REGISTERS
    case ReportSlaveIdCall(maxDest) => maxDest == 0
    case _ => false
  }

  function RefusalErrno(c: Call): int {
    if c.ReportSlaveIdCall? then EINVAL else EMBMDATA
  }

  /** The five octets that `build_request_basis` puts behind the header. */
  function Basis(function_: byte, addr: word, nb: nat): (pdu: seq<byte>)
    ensures |pdu| == 5
  {
    [function_, Hi(addr), Lo(addr), Hi(nb), Lo(nb)]
  }

  function RequestPdu(c: Call): (pdu: seq<byte>)
    requires !Refused(c)
    ensures pdu != []
  {
    match c
    case ReadBitsCall(addr, nb) => Basis(READ_COILS, addr, nb)
    case ReadInputBitsCall(addr, nb) => Basis(READ_DISCRETE_INPUTS, addr, nb)
    case ReadRegistersCall(addr, nb) => Basis(READ_HOLDING_REGISTERS, addr, nb)
    case ReadInputRegistersCall(addr, nb) => Basis(READ_INPUT_REGISTERS, addr, nb)
    case WriteBitCall(addr, status) => Basis(WRITE_SINGLE_COIL, addr, if status then 0xFF00 else 0)
    case WriteRegisterCall(addr, value) => Basis(WRITE_SINGLE_REGISTER, addr, value)
    case WriteBitsCall(addr, cells) =>
      Basis(WRITE_MULTIPLE_COILS, addr, |cells|) + [ByteCount(|cells|)] + Pack(Normalised(cells))
    case WriteRegistersCall(addr, values) =>
      Basis(WRITE_MULTIPLE_REGISTERS, addr, |values|) + [2 * |values|] + RegisterBytes(values)
    case MaskWriteCall(addr, andMask, orMask) =>
      Basis(MASK_WRITE_REGISTER, addr, 0)[..3] + [Hi(andMask), Lo(andMask), Hi(orMask), Lo(orMask)]
    case WriteAndReadCall(writeAddr, values, addr, nb) =>
      Basis(WRITE_AND_READ_REGISTERS, addr, nb)
      + [Hi(writeAddr), Lo(writeAddr), Hi(|values|), Lo(|values|), 2 * |values|] + RegisterBytes(values)
    case ReportSlaveIdCall(_) => Basis(REPORT_SLAVE_ID, 0, 0)[..1]
  }

  /** Every call builds a PDU as long as it announces, and none is too long for the ADU. */
  lemma RequestComplete(c: Call)
    requires !Refused(c)
    ensures Complete(Indication, RequestPdu(c)) && |RequestPdu(c)| <= 253
  {
  }

  function Request(b: Backend, tId: word, slave: byte, c: Call): seq<byte>
    requires !Refused(c)
  {
    b.Sealed(b.Header(tId, slave) + RequestPdu(c))
  }

  lemma RequestIsMessage(b: Backend, tId: word, slave: byte, c: Call)
    requires !Refused(c)
    ensures var req := Request(b, tId, slave, c);
            && |req| > b.HeaderLength() + b.ChecksumLength()
            && b.Pdu(req) == RequestPdu(c) && IsMessage(b, Indication, req)
            && b.CheckIntegrity(slave, req) == |req|
            && b.Tid(req) == (if b.Tcp? then tId else 0) && req[b.HeaderLength() - 1] == slave
  {
    hide RequestPdu, Complete, IsMessage, Backend.Sealed, Backend.CheckIntegrity;
    RequestComplete(c);
    SealedKeeps(b, tId, slave, RequestPdu(c));
    SealedPasses(b, b.Header(tId, slave) + RequestPdu(c));
    MessageIffComplete(b, Indication, Request(b, tId, slave, c));
  }

  // ---------------------------------------------------------------------------------------------
  // Responses

  const MSG_LENGTH_UNDEFINED := -1

  /** `compute_response_length_from_request`. */
  function ResponseLength(b: Backend, q: seq<byte>): int
    requires Complete(Indication, q)
  {
    var function_ := q[0];
    if function_ == REPORT_SLAVE_ID then MSG_LENGTH_UNDEFINED
    else
      b.HeaderLength() + b.ChecksumLength() +
      if function_ == READ_COILS || function_ == READ_DISCRETE_INPUTS then 2 + ByteCount(Field(q, 3))
      else if function_ == WRITE_AND_READ_REGISTERS || function_ == READ_HOLDING_REGISTERS
              || function_ == READ_INPUT_REGISTERS then 2 + 2 * Field(q, 3)
      else if function_ == READ_EXCEPTION_STATUS then 3
      else if function_ == MASK_WRITE_REGISTER then 7
      else 5
  }

  datatype Checked = Accepted(n: nat) | Rejected(errno: int)

  /** `pre_check_confirmation`: the errno, or 0. */
  function PreCheck(b: Backend, req: seq<byte>, rsp: seq<byte>): int
    requires |req| >= b.HeaderLength() && |rsp| >= b.HeaderLength()
  {
    if b.Rtu? then
      if req[0] != rsp[0] && req[0] != BROADCAST_ADDRESS then EMBBADSLAVE else 0
    else if req[0] != rsp[0] || req[1] != rsp[1] then EMBBADDATA
    else if rsp[2] != 0 && rsp[3] != 0 then EMBBADDATA
    else 0
  }

  /** The quantities compared by `check_confirmation`: the request's and the response's. */
  function Quantities(q: seq<byte>, p: seq<byte>): (int, int)
    requires Complete(Indication, q) && Complete(Confirmation, p) && p[0] == q[0]
  {
    var function_ := p[0];
    if function_ == READ_COILS || function_ == READ_DISCRETE_INPUTS then (ByteCount(Field(q, 3)), p[1])
    else if function_ == WRITE_AND_READ_REGISTERS || function_ == READ_HOLDING_REGISTERS
            || function_ == READ_INPUT_REGISTERS then (Field(q, 3), p[1] / 2)
    else if function_ == WRITE_MULTIPLE_COILS || function_ == WRITE_MULTIPLE_REGISTERS then (Field(q, 3), Field(p, 3))
    else if function_ == REPORT_SLAVE_ID then (p[1], p[1])
    else (1, 1)
  }

  /** `check_confirmation`, for a response that `_modbus_receive_msg` has delivered; `rspLength` is what that returned,
      the length or, for one that `check_integrity` ignored, 0. */
  function CheckConfirmation(b: Backend, req: seq<byte>, rsp: seq<byte>, rspLength: nat): Checked
    requires |req| > b.HeaderLength() + b.ChecksumLength() && Complete(Indication, b.Pdu(req))
    requires |rsp| > b.HeaderLength() + b.ChecksumLength() && IsMessage(b, Confirmation, rsp)
    requires rspLength in {0, |rsp|}
  {
    MessageIffComplete(b, Confirmation, rsp);
    var q, p := b.Pdu(req), b.Pdu(rsp);
    var computed := ResponseLength(b, q);
    if PreCheck(b, req, rsp) != 0 then Rejected(PreCheck(b, req, rsp))
    else if p[0] >= 0x80 then
      if rspLength == b.HeaderLength() + 2 + b.ChecksumLength() && q[0] == p[0] - 0x80 && p[1] < EXCEPTION_MAX
      then Rejected(ENOBASE + p[1])
      else Rejected(EMBBADEXC)
    else if rspLength != computed && computed != MSG_LENGTH_UNDEFINED then Rejected(EMBBADDATA)
    else if p[0] != q[0] then Rejected(EMBBADDATA)
    else
      var (reqNb, rspNb) := Quantities(q, p);
      if reqNb == rspNb then Accepted(rspNb) else Rejected(EMBBADDATA)
  }

  /** A response is accepted only if its function is the request's, its quantity, where it carries one,
      is the one asked for, and every octet the calls then read lies inside it. */
  lemma ConfirmationSound(b: Backend, req: seq<byte>, rsp: seq<byte>)
    requires |req| > b.HeaderLength() + b.ChecksumLength() && Complete(Indication, b.Pdu(req))
    requires |rsp| > b.HeaderLength() + b.ChecksumLength() && IsMessage(b, Confirmation, rsp)
    requires CheckConfirmation(b, req, rsp, |rsp|).Accepted?
    ensures var q, p, n := b.Pdu(req), b.Pdu(rsp), CheckConfirmation(b, req, rsp, |rsp|).n;
            && p != [] && p[0] == q[0] < 0x80
            && (q[0] in {READ_COILS, READ_DISCRETE_INPUTS} ==>
                  n == ByteCount(Field(q, 3)) && 2 + n == |p| && Field(q, 3) <= 8 * n)
            && (q[0] in {READ_HOLDING_REGISTERS, READ_INPUT_REGISTERS, WRITE_AND_READ_REGISTERS} ==>
                  n == Field(q, 3) && 2 + 2 * n == |p|)
            && (q[0] in {WRITE_MULTIPLE_COILS, WRITE_MULTIPLE_REGISTERS} ==>
                  5 <= |p| && n == Field(q, 3) == Field(p, 3))
            && (q[0] == REPORT_SLAVE_ID ==> 2 + n == |p|)
  {
    MessageIffComplete(b, Confirmation, rsp);
  }

  /** The shape of the answer to request PDU `q`: its function, its length, and the quantity where it is repeated. */
  predicate Confirms(q: seq<byte>, p: seq<byte>)
    requires Complete(Indication, q) && Complete(Confirmation, p)
  {
    && p[0] == q[0] < 0x80
    && if q[0] in {READ_COILS, READ_DISCRETE_INPUTS} then |p| == 2 + ByteCount(Field(q, 3))
       else if q[0] in {READ_HOLDING_REGISTERS, READ_INPUT_REGISTERS, WRITE_AND_READ_REGISTERS} then
         |p| == 2 + 2 * Field(q, 3)
       else if q[0] in {WRITE_MULTIPLE_COILS, WRITE_MULTIPLE_REGISTERS} then Field(p, 3) == Field(q, 3)
       else
         q[0] in {WRITE_SINGLE_COIL, WRITE_SINGLE_REGISTER, MASK_WRITE_REGISTER, REPORT_SLAVE_ID}
  }

  /** Exactly the responses of that shape, from the slave asked or with the identifier asked for, are accepted: for
      every request that the client can make, whatever is delivered. */
  lemma AcceptedIff(b: Backend, req: seq<byte>, c: Call, rsp: seq<byte>)
    requires !Refused(c) && |req| > b.HeaderLength() + b.ChecksumLength() && b.Pdu(req) == RequestPdu(c)
    requires Complete(Indication, b.Pdu(req))
    requires |rsp| > b.HeaderLength() + b.ChecksumLength() && IsMessage(b, Confirmation, rsp)
    ensures Complete(Confirmation, b.Pdu(rsp))
    ensures CheckConfirmation(b, req, rsp, |rsp|).Accepted?
            <==> PreCheck(b, req, rsp) == 0 && Confirms(b.Pdu(req), b.Pdu(rsp))
  {
    MessageIffComplete(b, Confirmation, rsp);
    KindOfRequest(c);
    hide RequestPdu, Refused, Field, IsMessage, PreCheck;
  }

  /** A call ends with the errno of an exception exactly when that exception is what the slave answered. */
  lemma ExceptionIff(b: Backend, req: seq<byte>, rsp: seq<byte>, code: byte)
    requires |req| > b.HeaderLength() + b.ChecksumLength() && Complete(Indication, b.Pdu(req))
    requires |rsp| > b.HeaderLength() + b.ChecksumLength() && IsMessage(b, Confirmation, rsp)
    requires code < EXCEPTION_MAX
    ensures CheckConfirmation(b, req, rsp, |rsp|) == Rejected(ENOBASE + code)
            <==> && PreCheck(b, req, rsp) == 0
                 && var p := b.Pdu(rsp); |p| == 2 && p[0] >= 0x80 && p[0] - 0x80 == b.Pdu(req)[0] && p[1] == code
  {
    MessageIffComplete(b, Confirmation, rsp);
    PreCheckErrno(b, req, rsp);
    hide Field, IsMessage, PreCheck, Quantities, ResponseLength;
  }

  lemma PreCheckErrno(b: Backend, req: seq<byte>, rsp: seq<byte>)
    requires |req| >= b.HeaderLength() && |rsp| >= b.HeaderLength()
    ensures PreCheck(b, req, rsp) in {0, EMBBADSLAVE, EMBBADDATA}
  {
  }

  /** The functions a client requests. */
  lemma KindOfRequest(c: Call)
    requires !Refused(c)
    ensures RequestPdu(c)[0] in {READ_COILS, READ_DISCRETE_INPUTS, READ_HOLDING_REGISTERS, READ_INPUT_REGISTERS,
                                 WRITE_SINGLE_COIL, WRITE_SINGLE_REGISTER, WRITE_MULTIPLE_COILS,
                                 WRITE_MULTIPLE_REGISTERS, REPORT_SLAVE_ID, MASK_WRITE_REGISTER,
                                 WRITE_AND_READ_REGISTERS}
  {
    hide Pack, RegisterBytes;
  }

  /** What a call returns, with the array it fills, or the errno it sets. */
  datatype Outcome = Ok(rc: int, data: seq<word>) | Error(errno: int)

  /** The array read by a call is long enough for what its loop takes out of the response PDU `p`. */
  predicate Decodable(c: Call, p: seq<byte>, n: nat) {
    match c
    case ReadBitsCall(_, nb) => |p| == 2 + n && nb <= 8 * n
    case ReadInputBitsCall(_, nb) => |p| == 2 + n && nb <= 8 * n
    case ReadRegistersCall(_, nb) => |p| == 2 + 2 * n && n == nb
    case ReadInputRegistersCall(_, nb) => |p| == 2 + 2 * n && n == nb
    case WriteAndReadCall(_, _, _, nb) => |p| == 2 + 2 * n && n == nb
    case ReportSlaveIdCall(_) => |p| == 2 + n
    case _ => true
  }

  lemma BasisFields(function_: byte, addr: word, nb: word)
    ensures var q := Basis(function_, addr, nb); q[0] == function_ && Field(q, 1) == addr && Field(q, 3) == nb
  {
  }

  /** The kind and the quantity of the request PDU of a call that decodes what it is answered. */
  lemma RequestKind(c: Call)
    requires !Refused(c)
    ensures var q := RequestPdu(c);
            match c
            case ReadBitsCall(_, nb) => q[0] == READ_COILS && |q| >= 5 && Field(q, 3) == nb
            case ReadInputBitsCall(_, nb) => q[0] == READ_DISCRETE_INPUTS && |q| >= 5 && Field(q, 3) == nb
            case ReadRegistersCall(_, nb) => q[0] == READ_HOLDING_REGISTERS && |q| >= 5 && Field(q, 3) == nb
            case ReadInputRegistersCall(_, nb) => q[0] == READ_INPUT_REGISTERS && |q| >= 5 && Field(q, 3) == nb
            case WriteAndReadCall(_, _, _, nb) => q[0] == WRITE_AND_READ_REGISTERS && |q| >= 5 && Field(q, 3) == nb
            case ReportSlaveIdCall(_) => q[0] == REPORT_SLAVE_ID
            case _ => true
  {
    hide Pack, RegisterBytes, Basis, Field;
    match c {
      case ReadBitsCall(addr, nb) => BasisFields(READ_COILS, addr, nb);
      case ReadInputBitsCall(addr, nb) => BasisFields(READ_DISCRETE_INPUTS, addr, nb);
      case ReadRegistersCall(addr, nb) => BasisFields(READ_HOLDING_REGISTERS, addr, nb);
      case ReadInputRegistersCall(addr, nb) => BasisFields(READ_INPUT_REGISTERS, addr, nb);
      case WriteAndReadCall(_, _, addr, nb) =>
        BasisFields(WRITE_AND_READ_REGISTERS, addr, nb);
        FieldOfFront(RequestPdu(c), Basis(WRITE_AND_READ_REGISTERS, addr, nb));
      case ReportSlaveIdCall(_) => BasisFields(REPORT_SLAVE_ID, 0, 0);
      case _ =>
    }
  }

  lemma FieldOfFront(q: seq<byte>, front: seq<byte>)
    requires |front| == 5 && |q| >= 5 && q[..5] == front
    ensures q[0] == front[0] && Field(q, 3) == Field(front, 3)
  {
    assert q[..5][0] == q[0] && q[..5][3] == q[3] && q[..5][4] == q[4];
  }

  /** A response that `check_integrity` ignored is rejected, but for one: when the client asked every slave at once
      for its identity, whoever answers that is accepted, its CRC unread. */
  lemma IgnoredAcceptedIff(b: Backend, req: seq<byte>, rsp: seq<byte>, slave: byte)
    requires |req| > b.HeaderLength() + b.ChecksumLength() && Complete(Indication, b.Pdu(req))
    requires |rsp| > b.HeaderLength() + b.ChecksumLength() && IsMessage(b, Confirmation, rsp)
    requires req[b.HeaderLength() - 1] == slave && b.CheckIntegrity(slave, rsp) == 0
    ensures CheckConfirmation(b, req, rsp, 0).Accepted?
            <==> slave == BROADCAST_ADDRESS && b.Pdu(req)[0] == b.Pdu(rsp)[0] == REPORT_SLAVE_ID
    ensures slave != BROADCAST_ADDRESS ==> CheckConfirmation(b, req, rsp, 0) == Rejected(EMBBADSLAVE)
  {
    MessageIffComplete(b, Confirmation, rsp);
    hide IsMessage, CrcDetection.CrcMatches;
  }

  /** A broadcast request for the identity, and what slave 5 answers: it is accepted with any two octets for a CRC. */
  lemma UnreadCrcAccepted(x: byte, y: byte)
    ensures var req := Request(Rtu, 0, BROADCAST_ADDRESS, ReportSlaveIdCall(10));
            var rsp: seq<byte> := [5, REPORT_SLAVE_ID, 1, 180, x, y];
            && |req| > 3 && Complete(Indication, Rtu.Pdu(req)) && IsMessage(Rtu, Confirmation, rsp)
            && Rtu.CheckIntegrity(BROADCAST_ADDRESS, rsp) == 0
            && CheckConfirmation(Rtu, req, rsp, 0) == Accepted(1)
  {
    hide Backend.Sealed, CrcDetection.CrcMatches, Backend.Tid, Hi, Lo;
    var c := ReportSlaveIdCall(10);
    var req := Request(Rtu, 0, BROADCAST_ADDRESS, c);
    var rsp: seq<byte> := [5, REPORT_SLAVE_ID, 1, 180, x, y];
    RequestIsMessage(Rtu, 0, BROADCAST_ADDRESS, c);
    RequestComplete(c);
    assert Rtu.Pdu(req) == [REPORT_SLAVE_ID] && Rtu.Pdu(rsp) == [REPORT_SLAVE_ID, 1, 180];
  }

  lemma AcceptedIsDecodable(b: Backend, req: seq<byte>, c: Call, rsp: seq<byte>, rspLength: nat)
    requires !Refused(c)
    requires |req| > b.HeaderLength() + b.ChecksumLength() && b.Pdu(req) == RequestPdu(c)
    requires |rsp| > b.HeaderLength() + b.ChecksumLength() && IsMessage(b, Confirmation, rsp)
    requires Complete(Indication, b.Pdu(req)) && rspLength in {0, |rsp|}
    requires CheckConfirmation(b, req, rsp, rspLength).Accepted?
    ensures Decodable(c, b.Pdu(rsp), CheckConfirmation(b, req, rsp, rspLength).n)
  {
    SameWithLength(b, req, rsp, rspLength);
    hide *;
    WholeIsDecodable(b, req, c, rsp);
  }

  lemma WholeIsDecodable(b: Backend, req: seq<byte>, c: Call, rsp: seq<byte>)
    requires !Refused(c)
    requires |req| > b.HeaderLength() + b.ChecksumLength() && b.Pdu(req) == RequestPdu(c)
    requires |rsp| > b.HeaderLength() + b.ChecksumLength() && IsMessage(b, Confirmation, rsp)
    requires Complete(Indication, b.Pdu(req)) && CheckConfirmation(b, req, rsp, |rsp|).Accepted?
    ensures Decodable(c, b.Pdu(rsp), CheckConfirmation(b, req, rsp, |rsp|).n)
  {
    hide RequestPdu, Refused, CheckConfirmation, Backend.Pdu, IsMessage, Complete, Field;
    ConfirmationSound(b, req, rsp);
    RequestKind(c);
  }

  lemma SameWithLength(b: Backend, req: seq<byte>, rsp: seq<byte>, rspLength: nat)
    requires |req| > b.HeaderLength() + b.ChecksumLength() && Complete(Indication, b.Pdu(req))
    requires |rsp| > b.HeaderLength() + b.ChecksumLength() && IsMessage(b, Confirmation, rsp)
    requires rspLength in {0, |rsp|} && CheckConfirmation(b, req, rsp, rspLength).Accepted?
    ensures CheckConfirmation(b, req, rsp, |rsp|) == CheckConfirmation(b, req, rsp, rspLength)
  {
    hide IsMessage, PreCheck, Quantities;
  }

  function Decode(c: Call, p: seq<byte>, n: nat): (o: Outcome)
    requires Decodable(c, p, n)
    ensures o.Ok?
  {
    match c
    case ReadBitsCall(_, nb) => Ok(nb, Unpack(p[2..], nb))
    case ReadInputBitsCall(_, nb) => Ok(nb, Unpack(p[2..], nb))
    case ReadRegistersCall(_, nb) => Ok(n, BytesToRegisters(p[2..], n))
    case ReadInputRegistersCall(_, nb) => Ok(n, BytesToRegisters(p[2..], n))
    case WriteAndReadCall(_, _, _, nb) => Ok(n, BytesToRegisters(p[2..], n))
    case ReportSlaveIdCall(maxDest) => Ok(n, p[2..2 + if n < maxDest then n else maxDest])
    case _ => Ok(n, [])
  }

  /** The end of a call, from the response on. */
  function Finish(b: Backend, tId: word, slave: byte, c: Call, rsp: seq<byte>, rspLength: nat): Outcome
    requires !Refused(c) && rspLength in {0, |rsp|}
    requires |rsp| > b.HeaderLength() + b.ChecksumLength() && IsMessage(b, Confirmation, rsp)
  {
    RequestIsMessage(b, tId, slave, c);
    RequestComplete(c);
    var req := Request(b, tId, slave, c);
    match CheckConfirmation(b, req, rsp, rspLength)
    case Rejected(errno) => Error(errno)
    case Accepted(n) =>
      AcceptedIsDecodable(b, req, c, rsp, rspLength);
      Decode(c, b.Pdu(rsp), n)
  }
}
