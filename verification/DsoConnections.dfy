/** The two linked lists that own DSO connections: those in use, and those dropped and waiting to be finalised. */
module DsoConnections {
  import opened Bytes

  /** `dso_state_t`, as far as the lists are concerned. */
  class Dso {
    var next: Dso?
    const serial: dword

    constructor (serial: dword)
      ensures this.serial == serial && next == null
    {
      this.serial := serial;
      next := null;
    }
  }

  function At(nodes: seq<Dso>, i: nat): Dso? {
    if i < |nodes| then nodes[i] else null
  }

  /** The chain of `next` fields from `head` runs through `nodes` and ends. */
  ghost predicate Chain(head: Dso?, nodes: seq<Dso>)
    reads nodes
  {
    head == At(nodes, 0) && forall i | 0 <= i < |nodes| :: nodes[i].next == At(nodes, i + 1)
  }

  ghost predicate Distinct(nodes: seq<Dso>) {
    forall i, j | 0 <= i < j < |nodes| :: nodes[i] != nodes[j]
  }

  /** Every connection created is live, doomed or finalised, and is so once. */
  ghost predicate Accounted(created: seq<Dso>, live: seq<Dso>, doomed: seq<Dso>, finalised: seq<Dso>) {
    Distinct(created) && multiset(created) == multiset(live) + multiset(doomed) + multiset(finalised)
  }

  /** Serial numbers count the connections created, modulo 2^32. */
  ghost predicate Numbered(created: seq<Dso>, serial: dword) {
    && serial == |created| % 0x1_0000_0000
    && forall k | 0 <= k < |created| :: created[k].serial == k % 0x1_0000_0000
  }

  lemma CreateAccounted(created: seq<Dso>, live: seq<Dso>, doomed: seq<Dso>, finalised: seq<Dso>, dso: Dso)
    requires Accounted(created, live, doomed, finalised) && dso !in created
    ensures Accounted(created + [dso], [dso] + live, doomed, finalised)
  {
  }

  lemma DropAccounted(created: seq<Dso>, live: seq<Dso>, doomed: seq<Dso>, finalised: seq<Dso>, i: nat)
    requires Accounted(created, live, doomed, finalised) && i < |live|
    ensures Accounted(created, Without(live, i), [live[i]] + doomed, finalised)
  {
    assert live == live[..i] + [live[i]] + live[i + 1..];
  }

  lemma FinaliseAccounted(created: seq<Dso>, live: seq<Dso>, doomed: seq<Dso>, finalised: seq<Dso>)
    requires Accounted(created, live, doomed, finalised)
    ensures Accounted(created, live, [], finalised + doomed)
  {
  }

  function Without(nodes: seq<Dso>, i: nat): seq<Dso>
    requires i < |nodes|
  {
    nodes[..i] + nodes[i + 1..]
  }

  lemma Among(created: seq<Dso>, live: seq<Dso>, doomed: seq<Dso>, finalised: seq<Dso>, dso: Dso)
    requires Accounted(created, live, doomed, finalised)
    ensures dso in created <==> dso in live || dso in doomed || dso in finalised
  {
    assert dso in multiset(created) <==> dso in multiset(live) + multiset(doomed) + multiset(finalised);
    assert dso in created <==> dso in multiset(created);
  }

  /** A connection created is on exactly one of the lists, once, or it has been finalised, once. */
  lemma OnExactlyOne(created: seq<Dso>, live: seq<Dso>, doomed: seq<Dso>, finalised: seq<Dso>, dso: Dso)
    requires Accounted(created, live, doomed, finalised) && dso in created
    ensures multiset(live)[dso] + multiset(doomed)[dso] + multiset(finalised)[dso] == 1
  {
    DistinctOnce(created, dso);
    assert multiset(created)[dso] == 1;
  }

  lemma {:induction false} DistinctOnce(nodes: seq<Dso>, dso: Dso)
    requires Distinct(nodes)
    ensures multiset(nodes)[dso] == if dso in nodes then 1 else 0
  {
    if nodes != [] {
      assert nodes == [nodes[0]] + nodes[1..];
      DistinctOnce(nodes[1..], dso);
    }
  }

  lemma NextNumber(created: seq<Dso>, serial: dword, dso: Dso)
    requires Numbered(created, serial) && dso.serial == serial
    ensures Numbered(created + [dso], (serial + 1) % 0x1_0000_0000)
  {
  }

  /** The globals of dso.c.  `live` and `doomed` are the lists, `finalised` the connections finalised so far, and
      `created` all connections in the order in which they were created. */
  class Connections {
    var connections: Dso?
    var needingCleanup: Dso?
    var serial: dword
    ghost var live: seq<Dso>
    ghost var doomed: seq<Dso>
    ghost var finalised: seq<Dso>
    ghost var created: seq<Dso>

    constructor ()
      ensures Valid() && created == [] && live == [] && doomed == [] && finalised == []
    {
      connections, needingCleanup, serial := null, null, 0;
      live, doomed, finalised, created := [], [], [], [];
    }

    /** Both lists end, and every connection created is on one of them or finalised, and counted once there. */
    ghost predicate Valid()
      reads this, live, doomed
    {
      && Chain(connections, live) && Chain(needingCleanup, doomed)
      && Accounted(created, live, doomed, finalised) && Numbered(created, serial)
    }

    /** `dso_create`, when memory is to be had. */
    method Create() returns (dso: Dso)
      requires Valid()
      modifies this
      ensures Valid() && fresh(dso) && dso.serial == old(serial)
      ensures live == [dso] + old(live) && created == old(created) + [dso]
      ensures doomed == old(doomed) && finalised == old(finalised)
    {
      hide Accounted, Numbered, Chain;
      dso := new Dso(serial);
      CreateAccounted(created, live, doomed, finalised, dso);
      NextNumber(created, serial, dso);
      serial := (serial + 1) % 0x1_0000_0000;
      dso.next := connections;
      Pushed(dso, connections, live);
      connections := dso;
      live, created := [dso] + live, created + [dso];
    }

    /** `dso_find_by_serial`. */
    method FindBySerial(serial: dword) returns (found: Dso?)
      requires Valid()
      ensures found != null ==> found in live && found.serial == serial
      ensures found == null ==> forall k | 0 <= k < |live| :: live[k].serial != serial
    {
      found := connections;
      ghost var i := 0;
      while found != null
        invariant i <= |live| && found == At(live, i)
        invariant forall k | 0 <= k < i :: live[k].serial != serial
        decreases |live| - i
      {
        if found.serial == serial {
          return;
        }
        found := found.next;
        i := i + 1;
      }
    }

    /** The loop of `dso_idle` that finalises dropped connections, with callbacks that leave the lists alone. */
    method FinaliseDropped()
      requires Valid()
      modifies this
      ensures Valid() && doomed == [] && finalised == old(finalised) + old(doomed)
      ensures live == old(live) && created == old(created)
    {
      hide Accounted, Numbered, Chain;
      FinaliseAccounted(created, live, doomed, finalised);
      FirstOf(needingCleanup, doomed);
      NoneLeft();
      var dso := needingCleanup;
      ghost var i, gone := 0, finalised;
      while dso != null
        invariant i <= |doomed| && dso == At(doomed, i) && gone == finalised + doomed[..i]
        decreases |doomed| - i
        modifies {}
      {
        NextOf(needingCleanup, doomed, i);
        var dnext := dso.next;
        assert doomed[..i + 1] == doomed[..i] + [dso];
        gone := gone + [dso];
        dso := dnext;
        i := i + 1;
      }
      assert doomed[..i] == doomed;
      needingCleanup := null;
      doomed, finalised := [], gone;
    }

    /** The search of `dso_drop`: the node before the connection, when it is on the list behind its head. */
    method FindBefore(dso: Dso) returns (dsop: Dso?, ghost i: nat)
      requires Valid() && connections != dso
      ensures dsop == null ==> dso !in live
      ensures dsop != null ==> i + 1 < |live| && live[i] == dsop && live[i + 1] == dso
    {
      hide Accounted, Numbered;
      dsop, i := connections, 0;
      while dsop != null && dsop.next != dso
        invariant i <= |live| && dsop == At(live, i)
        invariant forall k | 0 <= k <= i && k < |live| :: live[k] != dso
        decreases |live| - i
      {
        dsop := dsop.next;
        i := i + 1;
      }
    }

    /** The first half of `dso_drop`: the connection is taken off the list of those in use. */
    method Unlink(dso: Dso) returns (found: bool, ghost i: nat)
      requires Valid()
      modifies this`connections, live
      ensures found <==> dso in live
      ensures found ==> i < |live| && live[i] == dso && Chain(connections, Without(live, i))
      ensures found ==> Chain(needingCleanup, doomed) && dso.next == old(dso.next)
      ensures !found ==> Valid() && unchanged(this) && forall k | 0 <= k < |live| :: unchanged(live[k])
    {
      hide Accounted, Numbered;
      DistinctLists(created, live, doomed, finalised);
      if connections == dso {
        Headless(live);
        connections := dso.next;
        return true, 0;
      }
      var dsop;
      dsop, i := FindBefore(dso);
      if dsop == null {
        return false, 0;
      }
      ghost var before := i;
      i := i + 1;
      Neighbours(live, doomed, before);
      dsop.next := dso.next;
      Bypassed(connections, live, before);
      found := true;
    }

    /** `dso_drop`: a connection in use moves to the other list; one that was dropped before stays where it is. */
    method Drop(dso: Dso)
      requires Valid()
      modifies this, live, dso
      ensures Valid() && created == old(created) && finalised == old(finalised)
      ensures dso !in old(live) ==> live == old(live) && doomed == old(doomed)
      ensures dso in old(live) ==>
                && doomed == [dso] + old(doomed)
                && exists i | 0 <= i < |old(live)| :: old(live)[i] == dso && live == Without(old(live), i)
    {
      hide Accounted, Numbered, Chain, Without;
      var found;
      ghost var i;
      found, i := Unlink(dso);
      if found {
        Elsewhere(created, live, doomed, finalised, i);
        DropAccounted(created, live, doomed, finalised, i);
        dso.next := needingCleanup;
        Pushed(dso, needingCleanup, doomed);
        needingCleanup := dso;
        live, doomed := Without(live, i), [dso] + doomed;
      }
    }
  }

  lemma FirstOf(head: Dso?, nodes: seq<Dso>)
    requires Chain(head, nodes)
    ensures head == At(nodes, 0)
  {
  }

  lemma NextOf(head: Dso?, nodes: seq<Dso>, i: nat)
    requires Chain(head, nodes) && i < |nodes|
    ensures nodes[i].next == At(nodes, i + 1)
  {
  }

  lemma NoneLeft()
    ensures Chain(null, [])
  {
  }

  lemma Headless(nodes: seq<Dso>)
    requires nodes != [] && Chain(nodes[0], nodes)
    ensures Chain(nodes[0].next, Without(nodes, 0))
  {
    var rest := Without(nodes, 0);
    forall k | 0 <= k < |rest|
      ensures rest[k].next == At(rest, k + 1)
    {
      assert rest[k] == nodes[k + 1];
    }
  }

  /** Distinct nodes: changing one leaves the others alone. */
  lemma Neighbours(live: seq<Dso>, doomed: seq<Dso>, i: nat)
    requires Distinct(live + doomed) && i < |live|
    ensures forall k | 0 <= k < |live| && k != i :: live[k] != live[i]
    ensures live[i] !in doomed
  {
    var all := live + doomed;
    assert forall k | 0 <= k < |live| :: all[k] == live[k];
    assert forall k | 0 <= k < |doomed| :: all[|live| + k] == doomed[k];
  }

  /** A chain in which node `i` has been led past its successor. */
  lemma Bypassed(head: Dso?, nodes: seq<Dso>, i: nat)
    requires i + 1 < |nodes| && head == At(nodes, 0) && nodes[i].next == At(nodes, i + 2)
    requires forall k | 0 <= k < |nodes| && k != i :: nodes[k].next == At(nodes, k + 1)
    ensures Chain(head, Without(nodes, i + 1))
  {
    var rest := Without(nodes, i + 1);
    forall k | 0 <= k < |rest|
      ensures rest[k].next == At(rest, k + 1)
    {
      assert rest[k] == if k <= i then nodes[k] else nodes[k + 1];
    }
  }

  /** A live connection is neither doomed nor live a second time. */
  lemma Elsewhere(created: seq<Dso>, live: seq<Dso>, doomed: seq<Dso>, finalised: seq<Dso>, i: nat)
    requires Accounted(created, live, doomed, finalised) && i < |live|
    ensures live[i] !in doomed && live[i] !in Without(live, i)
  {
    DistinctLists(created, live, doomed, finalised);
    Neighbours(live, doomed, i);
  }

  lemma Pushed(dso: Dso, head: Dso?, nodes: seq<Dso>)
    requires Chain(head, nodes) && dso.next == head
    ensures Chain(dso, [dso] + nodes)
  {
  }

  /** The two lists share no connection and hold none twice. */
  lemma DistinctLists(created: seq<Dso>, live: seq<Dso>, doomed: seq<Dso>, finalised: seq<Dso>)
    requires Accounted(created, live, doomed, finalised)
    ensures Distinct(live + doomed)
  {
    var all := live + doomed;
    forall i, j | 0 <= i < j < |all|
      ensures all[i] != all[j]
    {
      if all[i] == all[j] {
        TwiceAtLeast(all, i, j);
        assert multiset(all) == multiset(live) + multiset(doomed);
        assert all[i] in multiset(created) && all[i] in created;
        OnExactlyOne(created, live, doomed, finalised, all[i]);
      }
    }
  }

  lemma TwiceAtLeast(nodes: seq<Dso>, i: nat, j: nat)
    requires i < j < |nodes| && nodes[i] == nodes[j]
    ensures multiset(nodes)[nodes[i]] >= 2
  {
    assert nodes == nodes[..i] + [nodes[i]] + nodes[i + 1..j] + [nodes[j]] + nodes[j + 1..];
  }

  /** Until 2^32 connections have been created, a search for the serial number of one of them finds it exactly
      when it has not been dropped, and finds nothing else. */
  lemma SerialFindsLive(created: seq<Dso>, live: seq<Dso>, doomed: seq<Dso>, finalised: seq<Dso>, serial: dword,
                        dso: Dso, found: Dso?)
    requires Accounted(created, live, doomed, finalised) && Numbered(created, serial)
    requires |created| <= 0x1_0000_0000 && dso in created
    requires found != null ==> found in live && found.serial == dso.serial
    requires found == null ==> forall k | 0 <= k < |live| :: live[k].serial != dso.serial
    ensures found == if dso in live then dso else null
  {
    if found != null {
      Among(created, live, doomed, finalised, found);
      var i, j :| 0 <= i < |created| && created[i] == dso && 0 <= j < |created| && created[j] == found;
      assert i == j;
    }
  }
}
