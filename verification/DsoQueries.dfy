/** The outstanding queries of a DSO connection: slots for the identifiers of requests that await a response,
    seen as a map from identifier to the context given with the request.  Context 0 stands for NULL. */
module DsoQueries {
  import opened Bytes

  const NULL_CONTEXT := 0
  const MAX_TRIES := 1001

  type Table = map<word, nat>

  /** The nonzero identifiers are distinct, and they and their contexts are the map. */
  ghost predicate Represents(ids: seq<word>, contexts: seq<nat>, table: Table) {
    && |ids| == |contexts|
    && (forall i, j | 0 <= i < j < |ids| && ids[i] != 0 :: ids[i] != ids[j])
    && (forall i | 0 <= i < |ids| && ids[i] != 0 :: ids[i] in table && table[ids[i]] == contexts[i])
    && (forall id | id in table :: id != 0 && id in ids)
  }

  function Nonzero(ids: seq<word>): (n: nat)
    ensures n <= |ids|
  {
    if ids == [] then 0 else (if ids[0] != 0 then 1 else 0) + Nonzero(ids[1..])
  }

  /** The map has as many entries as there are nonzero identifiers. */
  lemma {:induction false} SizeIsNonzero(ids: seq<word>, contexts: seq<nat>, table: Table)
    requires Represents(ids, contexts, table)
    ensures |table| == Nonzero(ids)
    decreases |ids|
  {
    if ids == [] {
      assert table.Keys == {};
    } else {
      var rest := table - {ids[0]};
      WithoutFirst(ids, contexts, table);
      hide Represents;
      SizeIsNonzero(ids[1..], contexts[1..], rest);
      SizeWithout(table, ids[0]);
    }
  }

  lemma SizeWithout(table: Table, id: word)
    ensures |table - {id}| == |table| - if id in table then 1 else 0
  {
    var rest := table - {id};
    if id in table {
      assert table.Keys == rest.Keys + {id};
    } else {
      assert rest.Keys == table.Keys;
    }
  }

  lemma WithoutFirst(ids: seq<word>, contexts: seq<nat>, table: Table)
    requires Represents(ids, contexts, table) && ids != []
    ensures |contexts| == |ids| && Represents(ids[1..], contexts[1..], table - {ids[0]})
    ensures ids[0] in table <==> ids[0] != 0
  {
    var ids', rest := ids[1..], table - {ids[0]};
    forall id | id in rest
      ensures id != 0 && id in ids'
    {
      var i :| 0 <= i < |ids| && ids[i] == id;
      assert ids'[i - 1] == id;
    }
    forall i | 0 <= i < |ids'| && ids'[i] != 0
      ensures ids'[i] in rest && rest[ids'[i]] == contexts[1..][i]
    {
      assert ids[i + 1] == ids'[i];
    }
  }

  lemma {:induction false} ZeroExists(ids: seq<word>)
    requires Nonzero(ids) < |ids|
    ensures exists i :: 0 <= i < |ids| && ids[i] == 0
  {
    if ids[0] == 0 {
      assert ids[0] == 0;
    } else {
      ZeroExists(ids[1..]);
      var i :| 0 <= i < |ids[1..]| && ids[1..][i] == 0;
      assert ids[i + 1] == 0;
    }
  }

  lemma Filled(ids: seq<word>, contexts: seq<nat>, table: Table, at: nat, id: word, context: nat)
    requires Represents(ids, contexts, table) && at < |ids| && ids[at] == 0 && id != 0 && id !in ids
    ensures Represents(ids[at := id], contexts[at := context], table[id := context]) && id !in table
  {
    var ids', table' := ids[at := id], table[id := context];
    forall k | k in table'
      ensures k != 0 && k in ids'
    {
      if k == id {
        assert ids'[at] == id;
      } else {
        var i :| 0 <= i < |ids| && ids[i] == k;
        assert ids'[i] == k;
      }
    }
  }

  lemma Freed(ids: seq<word>, contexts: seq<nat>, table: Table, at: nat)
    requires Represents(ids, contexts, table) && at < |ids| && ids[at] != 0
    ensures Represents(ids[at := 0], contexts[at := NULL_CONTEXT], table - {ids[at]})
    ensures ids[at] in table && |table - {ids[at]}| == |table| - 1
  {
    var ids', table' := ids[at := 0], table - {ids[at]};
    forall k | k in table'
      ensures k != 0 && k in ids'
    {
      var i :| 0 <= i < |ids| && ids[i] == k;
      assert ids'[i] == k;
    }
    assert table.Keys == table'.Keys + {ids[at]};
  }

  lemma NotHeld(ids: seq<word>, contexts: seq<nat>, table: Table, id: word)
    requires Represents(ids, contexts, table) && id !in ids
    ensures id !in table
  {
  }

  function Forgotten(table: Table, context: nat): Table {
    map id | id in table :: if table[id] == context then NULL_CONTEXT else table[id]
  }

  lemma Forgets(ids: seq<word>, contexts: seq<nat>, contexts': seq<nat>, table: Table, context: nat)
    requires Represents(ids, contexts, table) && |contexts'| == |contexts|
    requires forall k | 0 <= k < |contexts| ::
               contexts'[k] == if contexts[k] == context then NULL_CONTEXT else contexts[k]
    ensures Represents(ids, contexts', Forgotten(table, context)) && Forgotten(table, context).Keys == table.Keys
  {
  }

  // ---------------------------------------------------------------------------------------------
  // Whole runs

  /** What the owner of the connection does; `Make` carries the identifier drawn. */
  datatype Op = Make(id: word, context: nat) | Respond(id: word) | Ignore(context: nat)

  function Apply(max: nat, table: Table, op: Op): Table {
    match op
    case Make(id, context) => if id == 0 || id in table || |table| >= max then table else table[id := context]
    case Respond(id) => table - {id}
    case Ignore(context) => Forgotten(table, context)
  }

  function Run(max: nat, table: Table, ops: seq<Op>): Table
    decreases |ops|
  {
    if ops == [] then table else Run(max, Apply(max, table, ops[0]), ops[1..])
  }

  /** Over every interleaving the table keeps within its slots. */
  lemma {:induction false} RunFits(max: nat, table: Table, ops: seq<Op>)
    requires |table| <= max
    ensures |Run(max, table, ops)| <= max
    decreases |ops|
  {
    if ops != [] {
      var table' := Apply(max, table, ops[0]);
      assert |table'| <= max by {
        match ops[0] {
          case Make(id, context) =>
            if table' != table {
              assert table'.Keys == table.Keys + {id};
            }
          case Respond(id) =>
            SubsetSize(table'.Keys, table.Keys);
          case Ignore(context) =>
            assert table'.Keys == table.Keys;
        }
      }
      RunFits(max, table', ops[1..]);
    }
  }

  lemma {:induction false} SubsetSize(a: set<word>, b: set<word>)
    requires a <= b
    ensures |a| <= |b|
  {
    assert b == a + (b - a);
  }

  /** Until its response comes, an identifier keeps the context it was made with, unless that context is ignored,
      whatever else is made, answered and ignored in between. */
  lemma {:induction false} ContextKept(max: nat, table: Table, id: word, ops: seq<Op>)
    requires id in table && Respond(id) !in ops
    ensures id in Run(max, table, ops)
    ensures Run(max, table, ops)[id] == if Ignore(table[id]) in ops then 0 else table[id]
    decreases |ops|
  {
    if ops != [] {
      var table' := Apply(max, table, ops[0]);
      ContextKept(max, table', id, ops[1..]);
      if ops[0] == Ignore(table[id]) {
        assert table'[id] == NULL_CONTEXT;
      } else {
        assert table'[id] == table[id];
        assert Ignore(table[id]) in ops <==> Ignore(table[id]) in ops[1..];
      }
    }
  }

  /** The table that a run leaves is the one its parts leave one after the other. */
  lemma {:induction false} RunSplit(max: nat, table: Table, ops: seq<Op>, i: nat)
    requires i <= |ops|
    ensures Run(max, table, ops) == Run(max, Run(max, table, ops[..i]), ops[i..])
    decreases i
  {
    if i == 0 {
      assert ops[0..] == ops;
    } else {
      RunSplit(max, Apply(max, table, ops[0]), ops[1..], i - 1);
      assert ops[..i][1..] == ops[1..][..i - 1] && ops[1..][i - 1..] == ops[i..];
    }
  }

  lemma RunOneMore(max: nat, table: Table, ops: seq<Op>, op: Op)
    ensures Run(max, table, ops + [op]) == Apply(max, Run(max, table, ops), op)
  {
    RunSplit(max, table, ops + [op], |ops|);
    assert (ops + [op])[..|ops|] == ops && (ops + [op])[|ops|..] == [op];
    assert [op][1..] == [];
  }

  /** A query can be made under an identifier that is not in use, while there is a slot for it. */
  predicate Free(max: nat, table: Table, id: word) {
    id != 0 && id !in table && |table| < max
  }

  /** Draw `k` is the first of 1001 that is not among the identifiers in the slots, free slots counting as zero. */
  predicate FirstIn(ids: seq<word>, random: seq<word>, k: nat) {
    k < |random| && random[k] !in ids && forall i | 0 <= i < k :: random[i] in ids
  }

  /** There is a slot, and some draw is nonzero and not in use. */
  predicate Available(max: nat, table: Table, random: seq<word>) {
    |table| < max && exists i | 0 <= i < |random| :: random[i] != 0 && random[i] !in table
  }

  /** `id` is the first draw that is nonzero and not in use. */
  predicate FirstFree(table: Table, random: seq<word>, id: word) {
    && id != 0 && id !in table
    && exists k | 0 <= k < |random| ::
         random[k] == id && forall i | 0 <= i < k :: random[i] == 0 || random[i] in table
  }

  lemma InUse(ids: seq<word>, contexts: seq<nat>, table: Table)
    requires Represents(ids, contexts, table) && 0 in ids
    ensures forall id: word :: id in ids <==> id == 0 || id in table
  {
  }

  /** The operations that a table records since it was empty: every `Make` among them took effect. */
  ghost predicate Recorded(max: nat, table: Table, history: seq<Op>) {
    && table == Run(max, map[], history)
    && forall i | 0 <= i < |history| && history[i].Make? :: Free(max, Run(max, map[], history[..i]), history[i].id)
  }

  lemma RecordedOneMore(max: nat, table: Table, history: seq<Op>, op: Op)
    requires Recorded(max, table, history) && (op.Make? ==> Free(max, table, op.id))
    ensures Recorded(max, Apply(max, table, op), history + [op])
  {
    hide Run, Apply;
    RunOneMore(max, map[], history, op);
    var history' := history + [op];
    assert history'[..|history|] == history;
    assert forall i | 0 <= i < |history| :: history'[..i] == history[..i];
  }

  lemma Answered(max: nat, table: Table, history: seq<Op>, id: word)
    requires Recorded(max, table, history)
    ensures Recorded(max, table - {id}, history + [Respond(id)])
    ensures id !in table ==> table - {id} == table
  {
    hide Recorded;
    RecordedOneMore(max, table, history, Respond(id));
  }

  /** Operation `i` makes a query under `id` that no later operation answers. */
  predicate Unanswered(history: seq<Op>, i: nat, id: word) {
    i < |history| && history[i].Make? && history[i].id == id && Respond(id) !in history[i + 1..]
  }

  /** A query that was made and not yet answered is in the table, with the context it was made with, unless that was
      ignored in the meantime. */
  lemma UnansweredIsHeld(max: nat, table: Table, history: seq<Op>, i: nat, id: word)
    requires Recorded(max, table, history) && Unanswered(history, i, id)
    ensures id in table
    ensures var context := history[i].context;
            table[id] == if Ignore(context) in history[i + 1..] then NULL_CONTEXT else context
  {
    hide Run;
    RunSplit(max, map[], history, i + 1);
    var before := Run(max, map[], history[..i]);
    RunOneMore(max, map[], history[..i], history[i]);
    assert history[..i + 1] == history[..i] + [history[i]];
    ContextKept(max, before[id := history[i].context], id, history[i + 1..]);
  }

  /** And nothing else is in the table. */
  lemma {:induction false} HeldIsUnanswered(max: nat, table: Table, history: seq<Op>, id: word)
    requires Recorded(max, table, history) && id in table
    ensures exists i :: Unanswered(history, i, id)
    decreases |history|
  {
    if history != [] {
      var n := |history| - 1;
      var earlier, op := history[..n], history[n];
      var table' := Run(max, map[], earlier);
      assert history == earlier + [op];
      RunOneMore(max, map[], earlier, op);
      hide Run;
      if op.Make? && op.id == id {
        assert Unanswered(history, n, id);
      } else {
        assert forall i | 0 <= i < n :: earlier[..i] == history[..i];
        HeldIsUnanswered(max, table', earlier, id);
        var i :| Unanswered(earlier, i, id);
        assert history[i + 1..] == earlier[i + 1..] + [op];
        assert Unanswered(history, i, id);
      }
    }
  }

  // ---------------------------------------------------------------------------------------------
  // The slots

  /** `dso_outstanding_query_state_t`. */
  class Queries {
    const ids: array<word>
    const contexts: array<nat>
    var count: int
    ghost var table: Table
    ghost var history: seq<Op>

    /** The part of `dso_create` that clears the slots. */
    constructor (max: nat)
      ensures Valid() && table == map[] && history == []
      ensures ids.Length == max && fresh(ids) && fresh(contexts)
    {
      ids := new word[max](_ => 0);
      contexts := new nat[max](_ => NULL_CONTEXT);
      count := 0;
      table, history := map[], [];
    }

    ghost predicate Valid()
      reads this, ids, contexts
    {
      && Represents(ids[..], contexts[..], table) && count == |table|
      && Recorded(ids.Length, table, history)
    }

    /** The count is the number of nonzero identifiers and never leaves 0..max. */
    lemma CountIsNonzero()
      requires Valid()
      ensures count == Nonzero(ids[..]) && 0 <= count <= ids.Length
    {
      SizeIsNonzero(ids[..], contexts[..], table);
    }

    /** After any run of the operations below, the identifiers in use are those of the queries made and not answered
        since, and each has the context of its query, or null when that was ignored in the meantime. */
    lemma OutstandingIff(id: word)
      requires Valid()
      ensures id in table <==> exists i :: Unanswered(history, i, id)
      ensures forall i: nat | Unanswered(history, i, id) ::
                table[id] == if Ignore(history[i].context) in history[i + 1..] then 0 else history[i].context
    {
      hide Recorded, Represents;
      forall i: nat | Unanswered(history, i, id)
        ensures id in table
        ensures table[id]
                == if Ignore(history[i].context) in history[i + 1..] then NULL_CONTEXT else history[i].context
      {
        UnansweredIsHeld(ids.Length, table, history, i, id);
      }
      if id in table {
        HeldIsUnanswered(ids.Length, table, history, id);
      }
    }

    /** The inner loop of `dso_make_message`. */
    method Scan(messageId: word, avail: int) returns (avail': int, idOk: bool)
      requires messageId != 0 && -1 <= avail < ids.Length
      ensures idOk <==> messageId !in ids[..]
      ensures avail != -1 ==> avail' == avail
      ensures avail == -1 && 0 in ids[..] ==> 0 <= avail' < ids.Length && ids[avail'] == 0
      ensures avail == -1 && 0 !in ids[..] ==> avail' == -1
    {
      avail', idOk := avail, true;
      for i := 0 to ids.Length
        invariant idOk <==> messageId !in ids[..i]
        invariant avail != -1 ==> avail' == avail
        invariant avail == -1 && 0 in ids[..i] ==> 0 <= avail' < ids.Length && ids[avail'] == 0
        invariant avail == -1 && 0 !in ids[..i] ==> avail' == -1
      {
        assert ids[..i + 1] == ids[..i] + [ids[i]];
        if ids[i] == 0 && avail' == -1 {
          avail' := i;
        } else if ids[i] == messageId {
          idOk := false;
        }
      }
      assert ids[..ids.Length] == ids[..];
    }

    /** The outer loop of `dso_make_message`: a random identifier, drawn again while it is zero or in use, and given
        up after 1001 draws; `random` is what the draws come to. */
    method DrawId(random: seq<word>) returns (drawn: bool, messageId: word, avail: int, ghost k: nat)
      requires 0 in ids[..] && |random| == 1001
      ensures drawn <==> exists i | 0 <= i < 1001 :: random[i] !in ids[..]
      ensures drawn ==>
                && FirstIn(ids[..], random, k) && messageId == random[k]
                && 0 <= avail < ids.Length && ids[avail] == 0
    {
      var looping, idOk := 0, false;
      drawn, messageId, avail, k := false, 0, -1, 0;
      while !idOk
        invariant looping <= MAX_TRIES
        invariant avail == -1 || (0 <= avail < ids.Length && ids[avail] == 0)
        invariant idOk ==> 0 < looping && avail != -1 && messageId == random[looping - 1] && messageId !in ids[..]
        invariant forall i | 0 <= i < looping - (if idOk then 1 else 0) :: random[i] in ids[..]
        decreases MAX_TRIES - looping, !idOk
      {
        if looping > 1000 {
          return;
        }
        messageId := random[looping];
        looping := looping + 1;
        if messageId != 0 {
          avail, idOk := Scan(messageId, avail);
        }
      }
      drawn, k := true, looping - 1;
    }

    /** The part of `dso_make_message` that takes a slot, unless all are taken or none of 1001 draws is an identifier
        not in use. */
    method MakeQuery(callbackState: nat, random: seq<word>) returns (made: bool, messageId: word, number: int)
      requires Valid() && |random| == 1001
      modifies this, ids, contexts
      ensures Valid()
      ensures made <==> Available(ids.Length, old(table), random)
      ensures made ==>
                && FirstFree(old(table), random, messageId) && table == old(table)[messageId := callbackState]
                && 0 <= number < ids.Length && old(ids[number]) == 0
                && ids[..] == old(ids[..])[number := messageId]
      ensures made ==> history == old(history) + [Make(messageId, callbackState)]
      ensures !made ==> table == old(table) && history == old(history)
      ensures !made ==> ids[..] == old(ids[..]) && contexts[..] == old(contexts[..])
    {
      made, messageId, number := false, 0, -1;
      if count == ids.Length {
        return;
      }
      SizeIsNonzero(ids[..], contexts[..], table);
      ZeroExists(ids[..]);
      InUse(ids[..], contexts[..], table);
      hide Represents, Nonzero, Recorded;
      var drawn, avail;
      ghost var k;
      drawn, messageId, avail, k := DrawId(random);
      if !drawn {
        return;
      }
      Filled(ids[..], contexts[..], table, avail, messageId, callbackState);
      RecordedOneMore(ids.Length, table, history, Make(messageId, callbackState));
      ids[avail] := messageId;
      contexts[avail] := callbackState;
      count := count + 1;
      table, history := table[messageId := callbackState], history + [Make(messageId, callbackState)];
      made, number := true, avail;
    }

    /** The part of `dso_message_received` that looks for the query a response answers. */
    method TakeResponse(id: word) returns (expected: bool, context: nat)
      requires Valid() && id != 0
      modifies this, ids, contexts
      ensures Valid()
      ensures expected <==> id in old(table)
      ensures expected ==> context == old(table)[id] && table == old(table) - {id}
      ensures expected ==> exists k | 0 <= k < ids.Length :: old(ids[k]) == id && ids[..] == old(ids[..])[k := 0]
      ensures !expected ==> table == old(table) && ids[..] == old(ids[..])
      ensures history == old(history) + [Respond(id)]
    {
      expected, context := false, NULL_CONTEXT;
      Answered(ids.Length, table, history, id);
      hide Recorded, Represents;
      var i := 0;
      while i < ids.Length
        invariant i <= ids.Length && forall k | 0 <= k < i :: ids[k] != id
      {
        if ids[i] == id {
          Freed(ids[..], contexts[..], table, i);
          context := contexts[i];
          ids[i] := 0;
          contexts[i] := NULL_CONTEXT;
          count := count - 1;
          table, history := table - {id}, history + [Respond(id)];
          return true, context;
        }
        i := i + 1;
      }
      NotHeld(ids[..], contexts[..], table, id);
      history := history + [Respond(id)];
    }

    /** `dso_ignore_response`. */
    method IgnoreResponse(context: nat)
      requires Valid()
      modifies this`table, this`history, contexts
      ensures Valid() && table == Forgotten(old(table), context) && table.Keys == old(table).Keys
      ensures history == old(history) + [Ignore(context)]
    {
      ghost var was := contexts[..];
      for i := 0 to ids.Length
        invariant table == old(table) && history == old(history) && ids[..] == old(ids[..])
        invariant contexts.Length == ids.Length
        invariant forall k | 0 <= k < i :: contexts[k] == if was[k] == context then NULL_CONTEXT else was[k]
        invariant forall k | i <= k < ids.Length :: contexts[k] == was[k]
      {
        hide Represents;
        if contexts[i] == context {
          contexts[i] := NULL_CONTEXT;
        }
      }
      Forgets(ids[..], was, contexts[..], table, context);
      RecordedOneMore(ids.Length, table, history, Ignore(context));
      hide Represents, Forgotten, Recorded;
      table, history := Forgotten(table, context), history + [Ignore(context)];
    }
  }
}
