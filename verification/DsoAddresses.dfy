/** The addresses that a DSO connection attempt works through: copied out of the socket addresses that a lookup
    finds, kept in a queue, and tried one after another. */
module DsoAddresses {
  import opened Bytes

  const MAX_ADDRESSES := 16

  type Quad = s: seq<byte> | |s| == 4 witness [0, 0, 0, 0]

  type Hex = s: seq<byte> | |s| == 16 witness seq(16, _ => 0)

  /** An `mDNSAddr`: its type and the octets in its union. */
  datatype Address = Address(isIPv6: bool, octets: seq<byte>)

  /** What a lookup hands over, less its port: a `struct sockaddr_in` or a `struct sockaddr_in6`. */
  datatype SockAddr = V4(addr4: Quad) | V6(flowInfo: Quad, addr6: Hex) {
    /** The address it stands for. */
    function Meant(): Address {
      if V4? then Address(false, addr4) else Address(true, addr6)
    }

    /** Its octets from where `struct sockaddr_in` has `sin_addr`, behind family and port.  In `struct sockaddr_in6`
        that is where the flow information lies, and the address comes after it. */
    function FromSinAddr(): (octets: seq<byte>)
      ensures V4? ==> |octets| == 4
      ensures V6? ==> |octets| == 20
    {
      if V4? then addr4 else flowInfo + addr6
    }

    /** What is copied of it: as many octets from `sin_addr` on as an address of its family has. */
    function Copied(): Address {
      if V4? then Address(false, FromSinAddr()[..4]) else Address(true, FromSinAddr()[..16])
    }
  }

  /** The address copied is the one meant exactly for an IPv4 address, and for an IPv6 address that repeats the flow
      information four times over. */
  lemma CopiedIff(sa: SockAddr)
    ensures sa.Copied() == sa.Meant() <==> sa.V4? || sa.flowInfo + sa.addr6[..12] == sa.addr6
    ensures sa.Copied() == sa.Meant() <==>
              sa.V4? || sa.addr6 == sa.flowInfo + sa.flowInfo + sa.flowInfo + sa.flowInfo
  {
    if sa.V6? {
      assert (sa.flowInfo + sa.addr6)[..16] == sa.flowInfo + sa.addr6[..12];
      if sa.flowInfo + sa.addr6[..12] == sa.addr6 {
        ShiftedIsRepeated(sa.flowInfo, sa.addr6);
      }
    }
  }

  lemma ShiftedIsRepeated(flow: Quad, addr: Hex)
    requires flow + addr[..12] == addr
    ensures addr == flow + flow + flow + flow
  {
    forall k | 0 <= k < 16
      ensures addr[k] == flow[k % 4]
    {
      assert addr[k] == (flow + addr[..12])[k];
      if k >= 4 {
        assert addr[k - 4] == (flow + addr[..12])[k - 4];
      }
      if k >= 8 {
        assert addr[k - 8] == (flow + addr[..12])[k - 8];
      }
    }
  }

  /** 2001:db8::1 with flow information zero is copied as 0:0:2001:db8::. */
  lemma WrongAddressCopied()
    ensures var found := V6([0, 0, 0, 0], [0x20, 1, 0x0d, 0xb8, 0, 0, 0, 0, 0, 0, 0, 0, 0, 0, 0, 1]);
            && found.Copied() == Address(true, [0, 0, 0, 0, 0x20, 1, 0x0d, 0xb8, 0, 0, 0, 0, 0, 0, 0, 0])
            && found.Copied() != found.Meant()
  {
    var found := V6([0, 0, 0, 0], [0x20, 1, 0x0d, 0xb8, 0, 0, 0, 0, 0, 0, 0, 0, 0, 0, 0, 1]);
    assert found.Copied().octets[4] == 0x20 && found.Meant().octets[4] == 0;
  }

  /** What is copied of several. */
  function Copies(found: seq<SockAddr>): (copies: seq<Address>)
    ensures |copies| == |found|
    ensures forall k | 0 <= k < |found| :: copies[k] == found[k].Copied()
  {
    seq(|found|, k requires 0 <= k < |found| => found[k].Copied())
  }

  /** One more address that is found is one more that waits. */
  lemma OneMore(attempted: seq<Address>, waiting: seq<Address>, given: seq<Address>, found: seq<SockAddr>, sa: SockAddr)
    requires attempted + waiting == given + Copies(found)
    ensures attempted + (waiting + [sa.Copied()]) == given + Copies(found + [sa])
  {
    assert Copies(found + [sa]) == Copies(found) + [sa.Copied()];
    assert attempted + (waiting + [sa.Copied()]) == (attempted + waiting) + [sa.Copied()];
  }

  datatype Attempt = Attempt(address: Address, port: word)

  /** What trying the next address comes to. */
  datatype Tried = Exhausted | NoSocket | Tried(attempt: Attempt, status: Status) {
    /** The address tried, if one was. */
    function Addresses(): seq<Address> {
      if Tried? then [attempt.address] else []
    }
  }

  datatype Status = Connected | Pending | Failed

  /** The first waiting address is tried, with the configured port, if the platform grants a socket for it. */
  function Trying(waiting: seq<Address>, port: word, granted: bool, status: Status): Tried {
    if waiting == [] then Exhausted else if !granted then NoSocket else Tried(Attempt(waiting[0], port), status)
  }

  /** `dso_connect_state_t`, as far as its addresses are concerned. */
  class ConnectState {
    const addresses: array<Address>
    const ports: array<word>
    const configPort: word
    var numAddrs: nat
    var curAddr: nat
    var connecting: bool
    /** The addresses it was created with, the socket addresses stored since, and the addresses tried so far. */
    ghost const given: seq<Address>
    ghost var accepted: seq<SockAddr>
    ghost var attempted: seq<Address>

    /** `dso_connect_state_create`, with the one address it may be given. */
    constructor (given: seq<Address>, configPort: word)
      requires |given| <= 1
      ensures Valid() && this.given == given && accepted == [] && attempted == []
      ensures Waiting() == given && curAddr == 0 && this.configPort == configPort && !connecting
      ensures fresh(addresses) && fresh(ports)
    {
      addresses := new Address[MAX_ADDRESSES](_ => Address(false, []));
      ports := new word[MAX_ADDRESSES](_ => 0);
      this.configPort := configPort;
      numAddrs, curAddr, connecting := |given|, 0, false;
      this.given, accepted, attempted := given, [], [];
      new;
      if |given| == 1 {
        addresses[0], ports[0] := given[0], configPort;
      }
    }

    /** Nothing is lost, repeated or reordered: the addresses tried, then those waiting, are those given at first,
        then those copied. */
    ghost predicate Valid()
      reads this, addresses, ports
    {
      && addresses.Length == ports.Length == MAX_ADDRESSES
      && curAddr <= numAddrs <= MAX_ADDRESSES
      && (forall k | 0 <= k < numAddrs :: ports[k] == configPort)
      && attempted + Waiting() == given + Copies(accepted)
    }

    /** The addresses not yet tried, in the order in which they came. */
    ghost function Waiting(): seq<Address>
      requires curAddr <= numAddrs <= addresses.Length
      reads this, addresses
    {
      addresses[curAddr..numAddrs]
    }

    /** After any run: the addresses tried are those given and found, in that order and each once, and all of them
        when none is waiting.  One that was found is tried as found exactly when it was copied right. */
    lemma TriedInOrder()
      requires Valid()
      ensures attempted <= given + Copies(accepted)
      ensures Waiting() == [] <==> |attempted| == |given| + |accepted|
      ensures forall k | |given| <= k < |attempted| ::
                var sa := accepted[k - |given|];
                attempted[k] == sa.Meant() <==> sa.V4? || sa.flowInfo + sa.addr6[..12] == sa.addr6
    {
      var all := given + Copies(accepted);
      assert |attempted| + |Waiting()| == |all|;
      forall k | |given| <= k < |attempted|
        ensures var sa := accepted[k - |given|];
                attempted[k] == sa.Meant() <==> sa.V4? || sa.flowInfo + sa.addr6[..12] == sa.addr6
      {
        assert attempted[k] == (attempted + Waiting())[k] == all[k] == accepted[k - |given|].Copied();
        CopiedIff(accepted[k - |given|]);
      }
    }

    /** Room for one more address, made when the array is full by moving those not yet tried to the front; there is
        none when at most one of them has been tried. */
    method MakeRoom() returns (room: bool)
      requires Valid()
      modifies this`numAddrs, this`curAddr, addresses
      ensures Valid() && Waiting() == old(Waiting())
      ensures room <==> !(old(numAddrs) == MAX_ADDRESSES && old(curAddr) <= 1)
      ensures if room then numAddrs < MAX_ADDRESSES else |Waiting()| >= MAX_ADDRESSES - 1
    {
      hide Copies;
      if numAddrs == MAX_ADDRESSES {
        if curAddr > 1 {
          ghost var waiting := Waiting();
          forall i | 0 <= i < MAX_ADDRESSES - curAddr {
            addresses[i] := addresses[curAddr + i];
          }
          numAddrs := numAddrs - curAddr;
          curAddr := 0;
          assert Waiting() == waiting;
        } else {
          return false;
        }
      }
      room := true;
    }

    /** The part of `dso_inaddr_callback` that stores an address, unless there is no room for it. */
    method Store(sa: SockAddr) returns (stored: bool)
      requires Valid()
      modifies this`numAddrs, this`curAddr, this`accepted, addresses, ports
      ensures Valid()
      ensures stored <==> !(old(numAddrs) == 16 && old(curAddr) <= 1)
      ensures stored ==> Waiting() == old(Waiting()) + [sa.Copied()] && accepted == old(accepted) + [sa]
      ensures !stored ==> Waiting() == old(Waiting()) && accepted == old(accepted) && |Waiting()| >= 15
    {
      stored := MakeRoom();
      if !stored {
        return;
      }
      hide Copies;
      ghost var waiting := Waiting();
      if sa.V4? {
        addresses[numAddrs] := Address(false, sa.FromSinAddr()[..4]);
      } else {
        addresses[numAddrs] := Address(true, sa.FromSinAddr()[..16]);
      }
      ports[numAddrs] := configPort;
      numAddrs := numAddrs + 1;
      assert Waiting() == waiting + [sa.Copied()];
      OneMore(attempted, waiting, given, accepted, sa);
      accepted := accepted + [sa];
    }

    /** The part of `dso_connect_callback` that tries the next address: whether the platform grants a socket is
        `granted`, and what becomes of the connection is `status`. */
    method TryNext(granted: bool, status: Status) returns (tried: Tried)
      requires Valid()
      modifies this`curAddr, this`connecting, this`attempted
      ensures Valid()
      ensures tried == Trying(old(Waiting()), configPort, granted, status)
      ensures attempted == old(attempted) + tried.Addresses()
      ensures tried.Addresses() + Waiting() == old(Waiting())
      ensures connecting <==> old(connecting) || (tried.Tried? && tried.status.Pending?)
    {
      if numAddrs <= curAddr {
        return Exhausted;
      }
      if !granted {
        return NoSocket;
      }
      var attempt := Attempt(addresses[curAddr], ports[curAddr]);
      ghost var waiting := Waiting();
      curAddr := curAddr + 1;
      assert [attempt.address] + Waiting() == waiting;
      assert attempted + waiting == attempted + [attempt.address] + Waiting();
      attempted := attempted + [attempt.address];
      if status == Pending {
        connecting := true;
      }
      tried := Tried(attempt, status);
    }

    /** `dso_inaddr_callback`: what a lookup without an error has found is stored, and then the next address is
        tried, unless an attempt is pending. */
    method AddressFound(error: bool, sa: SockAddr, granted: bool, status: Status) returns (stored: bool, tried: Tried)
      requires Valid()
      modifies this`numAddrs, this`curAddr, this`connecting, this`accepted, this`attempted, addresses, ports
      ensures Valid()
      ensures stored <==> !error && !(old(numAddrs) == 16 && old(curAddr) <= 1)
      ensures accepted == old(accepted) + if stored then [sa] else []
      ensures attempted == old(attempted) + tried.Addresses()
      ensures tried.Addresses() + Waiting() == old(Waiting()) + if stored then [sa.Copied()] else []
      ensures tried == if !stored || old(connecting) then Exhausted
                       else Trying(old(Waiting()) + [sa.Copied()], configPort, granted, status)
      ensures connecting <==> old(connecting) || (tried.Tried? && tried.status.Pending?)
    {
      tried := Exhausted;
      if error {
        return false, tried;
      }
      stored := Store(sa);
      if stored && !connecting {
        tried := TryNext(granted, status);
      }
    }

    /** `dso_connect_callback` for a socket whose connection failed. */
    method ConnectFailed(granted: bool, status: Status) returns (tried: Tried)
      requires Valid()
      modifies this`curAddr, this`connecting, this`attempted
      ensures Valid()
      ensures tried == Trying(old(Waiting()), configPort, granted, status)
      ensures attempted == old(attempted) + tried.Addresses()
      ensures tried.Addresses() + Waiting() == old(Waiting())
      ensures connecting <==> tried.Tried? && tried.status.Pending?
    {
      connecting := false;
      tried := TryNext(granted, status);
    }
  }
}
