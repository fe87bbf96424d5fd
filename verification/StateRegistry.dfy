/**
  The list of registered states of state_machine, on values.  Each entry carries the ID stored in the
  list node and the state itself; the list head has an ID of its own and is never searched.
 */
module StateRegistry {
  import opened CTypes

  datatype Entry<S> = Entry(id: UInt, state: S)

  /** The position of the first entry with the ID, or the length of the list. */
  function FindIndex<S>(entries: seq<Entry<S>>, id: UInt): (k: nat)
    ensures k <= |entries|
    ensures forall i :: 0 <= i < k ==> entries[i].id != id
    ensures k < |entries| ==> entries[k].id == id
  {
    if entries == [] || entries[0].id == id then 0 else 1 + FindIndex(entries[1..], id)
  }

  datatype Registry<S> = Registry(count: UInt, headId: UInt, entries: seq<Entry<S>>) {
    /** addState: the new ID is stored in the node before the new one; the new node's stays 0. */
    function Add(s: S): Registry<S> {
      var id := Increment(count);
      if entries == [] then Registry(id, id, [Entry(0, s)])
      else
        var last := |entries| - 1;
        Registry(id, headId, entries[last := entries[last].(id := id)] + [Entry(0, s)])
    }

    function Find(id: UInt): nat {
      FindIndex(entries, id)
    }

    predicate Has(id: UInt) {
      Find(id) < |entries|
    }

    /** deleteState: nodes with ID 0 are not deleted. */
    function Delete(id: UInt): Registry<S> {
      var k := Find(id);
      if k < |entries| && id != 0 then this.(entries := entries[..k] + entries[k + 1..]) else this
    }
  }

  datatype Op<S> = Add(state: S) | Delete(id: UInt)

  function Apply<S>(r: Registry<S>, op: Op<S>): Registry<S> {
    match op
    case Add(s) => r.Add(s)
    case Delete(id) => r.Delete(id)
  }

  /** The registry after a history of calls on the zero-initialised machine. */
  function Run<S>(ops: seq<Op<S>>): Registry<S> {
    if ops == [] then Registry(0, 0, []) else Apply(Run(ops[..|ops| - 1]), ops[|ops| - 1])
  }

  /** The states added by a history, in order. */
  function Added<S>(ops: seq<Op<S>>): seq<S> {
    if ops == [] then []
    else
      var last := ops[|ops| - 1];
      Added(ops[..|ops| - 1]) + (if last.Add? then [last.state] else [])
  }

  // ---------------------------------------------------------------- invariant

  /** The last node carries 0; the others carry strictly increasing IDs between 2 and the counter, and the
      one with ID k is the state added by the call before the one that returned k. */
  predicate Labelled<S(==)>(r: Registry<S>, added: seq<S>) {
    var n := |r.entries|;
    && r.count == |added|
    && r.headId == (if added == [] then 0 else 1)
    && (n == 0 <==> added == [])
    && (n > 0 ==> r.entries[n - 1] == Entry(0, added[|added| - 1]))
    && (forall i :: 0 <= i < n - 1 ==>
          2 <= r.entries[i].id <= r.count && r.entries[i].state == added[r.entries[i].id - 2])
    && (forall i, j :: 0 <= i < j < n - 1 ==> r.entries[i].id < r.entries[j].id)
  }

  lemma AddKeepsLabelled<S>(r: Registry<S>, added: seq<S>, s: S)
    requires Labelled(r, added) && |added| + 1 < UINT_RANGE
    ensures Labelled(r.Add(s), added + [s])
  {}

  lemma DeletedEntry<S>(r: Registry<S>, id: UInt, i: nat)
    requires r.Has(id) && id != 0 && i + 1 < |r.entries|
    ensures |r.Delete(id).entries| == |r.entries| - 1
    ensures r.Delete(id).entries[i] == r.entries[if i < r.Find(id) then i else i + 1]
  {}

  lemma DeleteKeepsLabelled<S>(r: Registry<S>, added: seq<S>, id: UInt)
    requires Labelled(r, added)
    ensures Labelled(r.Delete(id), added)
  {
    var k, n := r.Find(id), |r.entries|;
    if k < n && id != 0 {
      assert k < n - 1;
      var es := r.Delete(id).entries;
      forall i | 0 <= i < n - 2
        ensures 2 <= es[i].id <= r.count && es[i].state == added[es[i].id - 2]
      {
        DeletedEntry(r, id, i);
      }
      forall i, j | 0 <= i < j < n - 2 ensures es[i].id < es[j].id {
        DeletedEntry(r, id, i);
        DeletedEntry(r, id, j);
      }
      DeletedEntry(r, id, n - 2);
    }
  }

  /** IDs over every history that does not wrap the counter. */
  lemma {:induction false} RunLabelled<S>(ops: seq<Op<S>>)
    requires |Added(ops)| < UINT_RANGE
    ensures Labelled(Run(ops), Added(ops))
    decreases |ops|
  {
    if ops != [] {
      var before, last := ops[..|ops| - 1], ops[|ops| - 1];
      RunLabelled(before);
      match last {
        case Add(s) =>
          assert Run(ops) == Run(before).Add(s) && Added(ops) == Added(before) + [s];
          AddKeepsLabelled(Run(before), Added(before), s);
        case Delete(id) =>
          assert Run(ops) == Run(before).Delete(id) && Added(ops) == Added(before);
          DeleteKeepsLabelled(Run(before), Added(before), id);
      }
    }
  }

  // -------------------------------------------------------------- which ID finds

  /** The k-th addState call has been made, and no deleteState(k) since.  (The first call labels the
      list head, so its ID never names a state.) */
  predicate Live<S>(ops: seq<Op<S>>, k: nat) {
    if ops == [] then false
    else
      var before, last := ops[..|ops| - 1], ops[|ops| - 1];
      match last
      case Add(_) => if |Added(ops)| == k then k >= 2 else Live(before, k)
      case Delete(id) => id != k && Live(before, k)
  }

  lemma HasWitness<S>(r: Registry<S>, id: UInt, i: nat)
    requires i < |r.entries| && r.entries[i].id == id
    ensures r.Has(id)
  {}

  /** No two nodes share an ID. */
  lemma IdsUnique<S>(r: Registry<S>, added: seq<S>, i: nat, j: nat)
    requires Labelled(r, added) && i < j < |r.entries|
    ensures r.entries[i].id != r.entries[j].id
  {}

  lemma AddHas<S>(r: Registry<S>, added: seq<S>, s: S, k: UInt)
    requires Labelled(r, added) && |added| + 1 < UINT_RANGE && k >= 1
    ensures r.Add(s).Has(k) <==> (if k == |added| + 1 then k >= 2 else r.Has(k))
  {
    var r', n := r.Add(s), |r.entries|;
    if n > 0 {
      HasWitness(r', (|added| + 1) as UInt, n - 1);
      if r.Has(k) { HasWitness(r', k, r.Find(k)); }
      if r'.Has(k) && k != |added| + 1 { HasWitness(r, k, r'.Find(k)); }
    }
  }

  lemma DeleteLosesOnlyId<S>(r: Registry<S>, id: UInt, k: UInt)
    requires r.Has(k) && k != id
    ensures r.Delete(id).Has(k)
  {
    var d, j := r.Find(id), r.Find(k);
    if d < |r.entries| && id != 0 {
      var i := if j < d then j else j - 1;
      DeletedEntry(r, id, i);
      HasWitness(r.Delete(id), k, i);
    }
  }

  lemma DeleteGainsNothing<S>(r: Registry<S>, added: seq<S>, id: UInt, k: UInt)
    requires Labelled(r, added) && k >= 1 && r.Delete(id).Has(k)
    ensures r.Has(k) && k != id
  {
    var d, i := r.Find(id), r.Delete(id).Find(k);
    if d < |r.entries| && id != 0 {
      DeletedEntry(r, id, i);
      if i < d {
        HasWitness(r, k, i);
        IdsUnique(r, added, i, d);
      } else {
        HasWitness(r, k, i + 1);
        IdsUnique(r, added, d, i + 1);
      }
    }
  }

  lemma DeleteHas<S>(r: Registry<S>, added: seq<S>, id: UInt, k: UInt)
    requires Labelled(r, added) && k >= 1
    ensures r.Delete(id).Has(k) <==> id != k && r.Has(k)
  {
    if r.Has(k) && k != id { DeleteLosesOnlyId(r, id, k); }
    if r.Delete(id).Has(k) { DeleteGainsNothing(r, added, id, k); }
  }

  lemma FoundState<S>(r: Registry<S>, added: seq<S>, k: UInt)
    requires Labelled(r, added) && k >= 1 && r.Has(k)
    ensures 2 <= k <= |added| && r.entries[r.Find(k)].state == added[k - 2]
  {
    assert r.Find(k) < |r.entries| - 1;
  }

  /** Lookup, exactly: after any history findState(k) finds a state if and only if the k-th addState call has
      been made, is not the first, and deleteState(k) has not been called since; and the state it finds is the
      one added by the call before the one that returned k. */
  lemma {:induction false} FoundIffLive<S>(ops: seq<Op<S>>, k: UInt)
    requires |Added(ops)| < UINT_RANGE && k >= 1
    ensures Run(ops).Has(k) <==> Live(ops, k)
    ensures Run(ops).Has(k) ==>
      && 2 <= k <= |Added(ops)|
      && Run(ops).entries[Run(ops).Find(k)].state == Added(ops)[k - 2]
    decreases |ops|
  {
    RunLabelled(ops);
    if Run(ops).Has(k) { FoundState(Run(ops), Added(ops), k); }
    if ops != [] {
      var before, last := ops[..|ops| - 1], ops[|ops| - 1];
      RunLabelled(before);
      FoundIffLive(before, k);
      match last {
        case Add(s) => AddHas(Run(before), Added(before), s, k);
        case Delete(id) => DeleteHas(Run(before), Added(before), id, k);
      }
    }
  }

  lemma ZeroIsLast<S>(r: Registry<S>, added: seq<S>)
    requires Labelled(r, added) && added != []
    ensures r.Has(0) && r.entries[r.Find(0)].state == added[|added| - 1]
  {
    HasWitness(r, 0, |r.entries| - 1);
    assert r.Find(0) == |r.entries| - 1;
  }

  /** ID 0 always names the newest state, which can therefore not be deleted: over every history it is found if
      and only if anything was ever added. */
  lemma ZeroIsNewest<S>(ops: seq<Op<S>>)
    requires |Added(ops)| < UINT_RANGE
    ensures Run(ops).Has(0) <==> Added(ops) != []
    ensures Run(ops).Has(0) ==> Run(ops).entries[Run(ops).Find(0)].state == Added(ops)[|Added(ops)| - 1]
  {
    RunLabelled(ops);
    if Added(ops) != [] { ZeroIsLast(Run(ops), Added(ops)); }
  }

  lemma {:induction false} AddedExtends<S>(ops: seq<Op<S>>, more: seq<Op<S>>)
    ensures Added(ops) <= Added(ops + more)
    decreases |more|
  {
    if more == [] {
      assert ops + more == ops;
    } else {
      var all := ops + more;
      assert all[..|all| - 1] == ops + more[..|more| - 1];
      AddedExtends(ops, more[..|more| - 1]);
    }
  }

  lemma {:induction false} DeadStaysDead<S>(ops: seq<Op<S>>, more: seq<Op<S>>, k: nat)
    requires |Added(ops)| >= k && !Live(ops, k)
    ensures !Live(ops + more, k)
    decreases |more|
  {
    if more == [] {
      assert ops + more == ops;
    } else {
      var all, less := ops + more, more[..|more| - 1];
      assert all[..|all| - 1] == ops + less;
      DeadStaysDead(ops, less, k);
      AddedExtends(ops, less);
    }
  }

  /** IDs are never reused: an ID that was found and then deleted is not found again, whatever follows. */
  lemma DeletedIdNeverReturns<S>(ops: seq<Op<S>>, k: UInt, more: seq<Op<S>>)
    requires k >= 1 && Run(ops).Has(k)
    requires |Added(ops + [Op<S>.Delete(k)] + more)| < UINT_RANGE
    ensures !Run(ops + [Op<S>.Delete(k)] + more).Has(k)
  {
    var deleted := ops + [Op<S>.Delete(k)];
    assert deleted[..|deleted| - 1] == ops;
    AddedExtends(deleted, more);
    AddedExtends(ops, [Op<S>.Delete(k)]);
    FoundIffLive(ops, k);
    DeadStaysDead(deleted, more, k);
    FoundIffLive(deleted + more, k);
  }

  function Adds<S>(states: seq<S>): seq<Op<S>> {
    seq(|states|, i requires 0 <= i < |states| => Op.Add(states[i]))
  }

  lemma {:induction false} AddsLive<S>(states: seq<S>, k: nat)
    ensures Added(Adds(states)) == states
    ensures Live(Adds(states), k) <==> 2 <= k <= |states|
    decreases |states|
  {
    if states != [] {
      var before := states[..|states| - 1];
      assert Adds(states)[..|states| - 1] == Adds(before);
      AddsLive(before, k);
      assert states == before + [states[|states| - 1]];
    }
  }

  /** After n additions and no deletion, ID k names the (k-1)-th state added and not the k-th: ID 1 names
      nothing and the last state added answers to ID 0 only. */
  lemma OffByOne<S>(states: seq<S>, k: UInt)
    requires |states| < UINT_RANGE
    ensures var r := Run(Adds(states));
      && (k >= 1 ==> (r.Has(k) <==> 2 <= k <= |states|))
      && (2 <= k <= |states| ==> r.entries[r.Find(k)].state == states[k - 2])
      && (states != [] ==> r.Has(0) && r.entries[r.Find(0)].state == states[|states| - 1])
  {
    AddsLive(states, k);
    if k >= 1 { FoundIffLive(Adds(states), k); }
    ZeroIsNewest(Adds(states));
  }

  /** The ID addState returns names the state added before, or nothing at the first call. */
  lemma ReturnedIdNamesPredecessor<S>(ops: seq<Op<S>>, s: S)
    requires |Added(ops)| + 1 < UINT_RANGE
    ensures var r := Run(ops).Add(s);
      if Added(ops) == [] then !r.Has(r.count)
      else r.Has(r.count) && r.entries[r.Find(r.count)].state == Added(ops)[|Added(ops)| - 1]
  {
    var all := ops + [Op.Add(s)];
    assert all[..|all| - 1] == ops;
    RunLabelled(ops);
    assert Run(all) == Run(ops).Add(s) && Added(all) == Added(ops) + [s];
    assert Run(all).count == |Added(all)|;
    FoundIffLive(all, |Added(all)|);
  }
}
