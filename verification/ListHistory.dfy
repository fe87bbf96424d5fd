/**
  linked_list_advanced over whole histories of calls.  The order that the callers mean the list to have is a
  matter of the calls alone; so is, as it turns out, which members are damaged, and with that the histories
  over which the links follow the order.
 */
module ListHistory {
  import opened IntrusiveList

  datatype Op =
    | AddAfter(item: Node, at: Node)    // ll_add(item, at)
    | AddBefore(item: Node, at: Node)   // ll_add_tail(item, at)
    | Delete(item: Node)                // ll_del(item)

  function Index(r: seq<Node>, x: Node): (i: nat)
    requires x in r
    ensures i < |r| && r[i] == x
  {
    if r[0] == x then 0 else 1 + Index(r[1..], x)
  }

  /** What the list demands of its callers: anchors and deleted members are in the list, new ones are not. */
  predicate Allowed(r: seq<Node>, op: Op) {
    match op
    case AddAfter(x, p) => x !in r && p in r
    case AddBefore(x, p) => x !in r && p in r
    case Delete(x) => x in r
  }

  /** The order that the call is meant to give. */
  function Effect(r: seq<Node>, op: Op): seq<Node>
    requires Allowed(r, op)
  {
    match op
    case AddAfter(x, p) => InsertAfter(r, Index(r, p), x)
    case AddBefore(x, p) => InsertBefore(r, Index(r, p), x)
    case Delete(x) => RemoveAt(r, Index(r, x))
  }

  predicate Proper(head: Node, ops: seq<Op>)
    decreases |ops|, 0
  {
    ops == [] ||
    (Proper(head, ops[..|ops| - 1]) && Allowed(Order(head, ops[..|ops| - 1]), ops[|ops| - 1]))
  }

  /** The order meant after a history of calls on a list of its head alone. */
  function Order(head: Node, ops: seq<Op>): seq<Node>
    requires Proper(head, ops)
    decreases |ops|, 1
  {
    if ops == [] then [head] else Effect(Order(head, ops[..|ops| - 1]), ops[|ops| - 1])
  }

  function Before(r: seq<Node>, y: Node): Node
    requires y in r
  {
    r[Pred(Index(r, y), |r|)]
  }

  /** y got the neighbour before it, in the order meant, by a deletion and not by an addition. */
  predicate Orphaned(head: Node, ops: seq<Op>, y: Node)
    requires Proper(head, ops)
  {
    ops != [] &&
    var before, op := ops[..|ops| - 1], ops[|ops| - 1];
    var r, r' := Order(head, before), Order(head, ops);
    y in r && y in r' && if Before(r', y) == Before(r, y) then Orphaned(head, before, y) else op.Delete?
  }

  /** The members at which the next call goes wrong. */
  predicate Spoilt(head: Node, ops: seq<Op>, y: Node)
    requires Proper(head, ops)
  {
    |Order(head, ops)| > 1 && Orphaned(head, ops, y)
  }

  /** The member whose back link the call relies on; ll_add relies on none. */
  function Target(op: Op): Node {
    if op.Delete? then op.item else op.at
  }

  /** No call relies on the back link of a member that is spoilt at the time. */
  predicate Sound(head: Node, ops: seq<Op>)
    requires Proper(head, ops)
  {
    ops == [] ||
    var before, op := ops[..|ops| - 1], ops[|ops| - 1];
    Sound(head, before) && (op.AddAfter? || !Spoilt(head, before, Target(op)))
  }

  // -------------------------------------------------------------- neighbours

  lemma IndexAt(r: seq<Node>, i: nat)
    requires Distinct(r) && i < |r|
    ensures Index(r, r[i]) == i
  {}

  lemma BeforeAt(r: seq<Node>, i: nat)
    requires Distinct(r) && i < |r|
    ensures Before(r, r[i]) == r[Pred(i, |r|)]
  {
    IndexAt(r, i);
  }

  /** An insertion changes the neighbour before one member alone. */
  lemma BeforeInserted(r: seq<Node>, i: nat, x: Node, y: Node)
    requires Distinct(r) && i < |r| && x !in r && y in r
    ensures var r' := InsertAfter(r, i, x);
      y in r' && Before(r', y) == if y == r[Succ(i, |r|)] then x else Before(r, y)
  {
    var r', j := InsertAfter(r, i, x), Index(r, y);
    var j' := if j <= i then j else j + 1;
    InsertAfterDistinct(r, i, x);
    assert r'[j'] == y;
    BeforeAt(r', j');
    assert y == r[Succ(i, |r|)] <==> j == Succ(i, |r|) by { IndexAt(r, Succ(i, |r|)); }
  }

  lemma RemovedMembers(r: seq<Node>, i: nat)
    requires Distinct(r) && i < |r|
    ensures Distinct(RemoveAt(r, i))
    ensures forall y :: y in RemoveAt(r, i) <==> y in r && y != r[i]
  {
    var r' := RemoveAt(r, i);
    forall y | y in r && y != r[i] ensures y in r' {
      var j := Index(r, y);
      assert r'[if j < i then j else j - 1] == y;
    }
  }

  /** So does a deletion. */
  lemma BeforeRemoved(r: seq<Node>, i: nat, y: Node)
    requires Distinct(r) && i < |r| && y in r && y != r[i]
    ensures var r' := RemoveAt(r, i);
      y in r' && Before(r', y) == if y == r[Succ(i, |r|)] then r[Pred(i, |r|)] else Before(r, y)
  {
    var r', j := RemoveAt(r, i), Index(r, y);
    var j' := if j < i then j else j - 1;
    RemovedMembers(r, i);
    assert r'[j'] == y;
    BeforeAt(r', j');
    assert y == r[Succ(i, |r|)] <==> j == Succ(i, |r|) by { IndexAt(r, Succ(i, |r|)); }
  }

  lemma {:induction false} OrderDistinct(head: Node, ops: seq<Op>)
    requires Proper(head, ops)
    ensures Distinct(Order(head, ops))
    decreases |ops|
  {
    if ops != [] {
      var r, op := Order(head, ops[..|ops| - 1]), ops[|ops| - 1];
      OrderDistinct(head, ops[..|ops| - 1]);
      match op {
        case AddAfter(x, p) => InsertAfterDistinct(r, Index(r, p), x);
        case AddBefore(x, p) => InsertAfterDistinct(r, Pred(Index(r, p), |r|), x);
        case Delete(x) => RemovedMembers(r, Index(r, x));
      }
    }
  }

  // ------------------------------------------------- damage, from the history

  function Damage(head: Node, ops: seq<Op>): set<Node>
    requires Proper(head, ops)
  {
    set y | y in Order(head, ops) && Spoilt(head, ops, y)
  }

  /** What a call does to the set of damaged members, as the operations' own contracts have it. */
  function DamagedBy(r: seq<Node>, damaged: set<Node>, op: Op): set<Node>
    requires Allowed(r, op)
  {
    match op
    case AddAfter(_, p) => damaged - {r[Succ(Index(r, p), |r|)]}
    case AddBefore(_, _) => damaged
    case Delete(x) => DamagedAfter(r, damaged, Index(r, x))
  }

  /** Behind position i, x has been inserted by the last call. */
  lemma InsertedDamage(head: Node, ops: seq<Op>, i: nat, x: Node, y: Node)
    requires ops != [] && Proper(head, ops) && !ops[|ops| - 1].Delete?
    requires var r := Order(head, ops[..|ops| - 1]);
      i < |r| && x !in r && Distinct(r) && Order(head, ops) == InsertAfter(r, i, x)
    ensures var r := Order(head, ops[..|ops| - 1]);
      y in Damage(head, ops) <==> y in Damage(head, ops[..|ops| - 1]) && y != r[Succ(i, |r|)]
  {
    var r := Order(head, ops[..|ops| - 1]);
    if y in r {
      BeforeInserted(r, i, x, y);
      assert Before(r, y) in r;
    }
  }

  lemma RemovedDamage(head: Node, ops: seq<Op>, i: nat, y: Node)
    requires ops != [] && Proper(head, ops) && ops[|ops| - 1].Delete?
    requires var r := Order(head, ops[..|ops| - 1]);
      i < |r| && r[i] == ops[|ops| - 1].item && Distinct(r) && Order(head, ops) == RemoveAt(r, i)
    requires ops[|ops| - 1].item !in Damage(head, ops[..|ops| - 1])
    ensures var r := Order(head, ops[..|ops| - 1]);
      y in Damage(head, ops) <==> y in DamagedAfter(r, Damage(head, ops[..|ops| - 1]), i)
  {
    var r := Order(head, ops[..|ops| - 1]);
    RemovedMembers(r, i);
    if |r| > 2 && y in r && y != r[i] {
      BeforeRemoved(r, i, y);
      BeforeAt(r, Succ(i, |r|));
      assert r[Pred(i, |r|)] != r[i];
    }
  }

  lemma DamageStepAt(head: Node, ops: seq<Op>, y: Node)
    requires ops != [] && Proper(head, ops) && Sound(head, ops)
    ensures var r, op := Order(head, ops[..|ops| - 1]), ops[|ops| - 1];
      y in Damage(head, ops) <==> y in DamagedBy(r, Damage(head, ops[..|ops| - 1]), op)
  {
    var r, op := Order(head, ops[..|ops| - 1]), ops[|ops| - 1];
    OrderDistinct(head, ops[..|ops| - 1]);
    match op {
      case AddAfter(x, p) =>
        InsertedDamage(head, ops, Index(r, p), x, y);
      case AddBefore(x, p) =>
        InsertedDamage(head, ops, Pred(Index(r, p), |r|), x, y);
      case Delete(x) =>
        RemovedDamage(head, ops, Index(r, x), y);
    }
  }

  /** The damage can be told from the history of calls alone. */
  lemma DamageStep(head: Node, ops: seq<Op>)
    requires ops != [] && Proper(head, ops) && Sound(head, ops)
    ensures var r, op := Order(head, ops[..|ops| - 1]), ops[|ops| - 1];
      Damage(head, ops) == DamagedBy(r, Damage(head, ops[..|ops| - 1]), op)
  {
    var before := ops[..|ops| - 1];
    var d, d' := DamagedBy(Order(head, before), Damage(head, before), ops[|ops| - 1]), Damage(head, ops);
    forall y ensures y in d' <==> y in d {
      DamageStepAt(head, ops, y);
    }
  }

  // ------------------------------------------------------- histories as code

  /** One call: the links follow the order meant if and only if the call does not rely on a damaged member. */
  method Do(op: Op, ghost r: seq<Node>, ghost damaged: set<Node>)
    requires Ring(r, damaged) && Allowed(r, op)
    modifies op.item, set x | x in r
    ensures Forward(Effect(r, op)) <==> op.AddAfter? || Target(op) !in damaged
    ensures op.AddAfter? || Target(op) !in damaged ==> Ring(Effect(r, op), DamagedBy(r, damaged, op))
  {
    match op {
      case AddAfter(x, p) => Add(x, p, r, damaged, Index(r, p));
      case AddBefore(x, p) => AddTail(x, p, r, damaged, Index(r, p));
      case Delete(x) => Del(x, r, damaged, Index(r, x));
    }
  }

  ghost function Members(head: Node, ops: seq<Op>): set<Node> {
    {head} + set op | op in ops :: op.item
  }

  lemma EffectMembers(r: seq<Node>, op: Op, x: Node)
    requires Allowed(r, op) && x in Effect(r, op)
    ensures x in r || x == op.item
  {}

  lemma {:induction false} OrderMembers(head: Node, ops: seq<Op>, x: Node)
    requires Proper(head, ops) && x in Order(head, ops)
    ensures x in Members(head, ops)
    decreases |ops|
  {
    if ops != [] {
      var before, op := ops[..|ops| - 1], ops[|ops| - 1];
      EffectMembers(Order(head, before), op, x);
      assert op in ops;
      if x in Order(head, before) { OrderMembers(head, before, x); }
    }
  }

  lemma {:induction false} PrefixProper(head: Node, ops: seq<Op>, k: nat)
    requires Proper(head, ops) && k <= |ops|
    ensures Proper(head, ops[..k])
    ensures k < |ops| ==> ops[..k + 1][..k] == ops[..k] && Allowed(Order(head, ops[..k]), ops[k])
    decreases |ops|
  {
    if k < |ops| {
      assert ops[..|ops| - 1][..k] == ops[..k];
      PrefixProper(head, ops[..|ops| - 1], k);
    } else {
      assert ops[..k] == ops;
    }
  }

  /** The members of the list after the first k calls are among all that the history names. */
  lemma PrefixMembers(head: Node, ops: seq<Op>, k: nat)
    requires k <= |ops| && Proper(head, ops[..k])
    ensures forall x :: x in Order(head, ops[..k]) ==> x in Members(head, ops)
  {
    assert forall op :: op in ops[..k] ==> op in ops;
    forall x | x in Order(head, ops[..k]) ensures x in Members(head, ops) {
      OrderMembers(head, ops[..k], x);
    }
  }

  /** The test a caller can make before a call. */
  predicate LooksDamaged(op: Op)
    reads Target(op)
  {
    !op.AddAfter? && Target(op).prev == Target(op) && Target(op).next != Target(op)
  }

  lemma LooksDamagedIff(op: Op, r: seq<Node>, damaged: set<Node>)
    requires Ring(r, damaged) && Allowed(r, op)
    ensures LooksDamaged(op) <==> !op.AddAfter? && Target(op) in damaged
  {
    if !op.AddAfter? { DamageIsVisible(r, damaged, Index(r, Target(op))); }
  }

  /** One more call. */
  lemma Extended(head: Node, before: seq<Op>, op: Op)
    requires Proper(head, before) && Allowed(Order(head, before), op)
    ensures Proper(head, before + [op]) && Order(head, before + [op]) == Effect(Order(head, before), op)
    ensures Sound(head, before + [op]) <==>
            Sound(head, before) && (op.AddAfter? || Target(op) !in Damage(head, before))
    ensures Sound(head, before + [op]) ==>
            Damage(head, before + [op]) == DamagedBy(Order(head, before), Damage(head, before), op)
  {
    var ops := before + [op];
    assert ops[..|ops| - 1] == before;
    assert Target(op) in Order(head, before);
    if Sound(head, ops) { DamageStep(head, ops); }
  }

  /** The links follow the order meant, up to the back links of spoilt members. */
  ghost predicate Follows(head: Node, ops: seq<Op>)
    requires Proper(head, ops)
    reads set x | x in Order(head, ops)
  {
    Sound(head, ops) && Ring(Order(head, ops), Damage(head, ops))
  }

  /** The next call of a history over which the links have followed the order so far. */
  method DoNext(head: Node, op: Op, ghost before: seq<Op>, ghost after: seq<Op>, ghost members: set<Node>)
    returns (ok: bool)
    requires Proper(head, before) && Allowed(Order(head, before), op) && after == before + [op]
    requires Follows(head, before)
    requires op.item in members && forall x :: x in Order(head, before) ==> x in members
    modifies members
    ensures Proper(head, after)
    ensures ok <==> Sound(head, after)
    ensures ok <==> Forward(Order(head, after))
    ensures ok ==> Follows(head, after)
  {
    ghost var r, damaged := Order(head, before), Damage(head, before);
    LooksDamagedIff(op, r, damaged);
    ok := !LooksDamaged(op);
    Do(op, r, damaged);
    Extended(head, before, op);
  }

  /** Any proper history, performed on a fresh list up to the first call after which the links do not follow the
      order meant: they follow it throughout if and only if the history is sound, and the first call to rely on a
      spoilt member is the one that breaks them. */
  method Perform(head: Node, ops: seq<Op>) returns (done: nat)
    requires Proper(head, ops)
    modifies Members(head, ops)
    ensures done <= |ops| && Proper(head, ops[..done]) && Sound(head, ops[..done])
    ensures done == |ops| <==> Sound(head, ops)
    ensures done == |ops| ==> Follows(head, ops)
    ensures done < |ops| ==>
      && Proper(head, ops[..done + 1])
      && !Sound(head, ops[..done + 1])
      && !Forward(Order(head, ops[..done + 1]))
  {
    InitList(head);
    done := 0;
    assert ops[..0] == [];
    while done < |ops|
      invariant done <= |ops| && Proper(head, ops[..done]) && Follows(head, ops[..done])
    {
      PrefixProper(head, ops, done);
      PrefixMembers(head, ops, done);
      var ok := DoNext(head, ops[done], ops[..done], ops[..done + 1], Members(head, ops));
      if !ok {
        if Sound(head, ops) { SoundPrefix(head, ops, done + 1); }
        return;
      }
      done := done + 1;
    }
    assert ops[..done] == ops;
  }

  lemma {:induction false} SoundPrefix(head: Node, ops: seq<Op>, k: nat)
    requires Proper(head, ops) && Sound(head, ops) && k <= |ops|
    ensures Proper(head, ops[..k]) && Sound(head, ops[..k])
    decreases |ops|
  {
    if k < |ops| {
      assert ops[..|ops| - 1][..k] == ops[..k];
      SoundPrefix(head, ops[..|ops| - 1], k);
    } else {
      assert ops[..k] == ops;
    }
  }
}
