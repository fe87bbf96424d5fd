/**
  linked_list_advanced: an intrusive circular doubly linked list, as its code is written.

  Deletion stores the successor's own address in the successor's `prev`.  A ring is therefore
  described by the cyclic order of its members together with the set of members whose back link
  has been damaged in this way; everything the operations do is expressed on that pair.
 */
module IntrusiveList {

  class Node {
    var next: Node?
    var prev: Node?

    constructor () {
      next, prev := null, null;
    }
  }

  function Succ(i: nat, n: nat): nat
    requires i < n
  {
    if i + 1 == n then 0 else i + 1
  }

  function Pred(i: nat, n: nat): (r: nat)
    requires i < n
    ensures r < n && Succ(r, n) == i
  {
    if i == 0 then n - 1 else i - 1
  }

  predicate Distinct(r: seq<Node>) {
    forall i, j :: 0 <= i < j < |r| ==> r[i] != r[j]
  }

  /** The `next` links run through r in order and return to its first member. */
  predicate Forward(r: seq<Node>)
    reads set x | x in r
  {
    forall i: nat {:trigger r[i].next} :: i < |r| ==> r[i].next == r[Succ(i, |r|)]
  }

  /** The `prev` links are the inverse of the `next` links, except that damaged members
      point to themselves. */
  predicate Back(r: seq<Node>, damaged: set<Node>)
    reads set x | x in r
  {
    forall i: nat {:trigger r[i].prev} :: i < |r| ==> r[i].prev == if r[i] in damaged then r[i] else r[Pred(i, |r|)]
  }

  predicate Ring(r: seq<Node>, damaged: set<Node>)
    reads set x | x in r
  {
    && Distinct(r)
    && Forward(r)
    && Back(r, damaged)
    && (|r| == 1 ==> damaged == {})
    && (forall x :: x in damaged ==> x in r)
  }

  /** Damage can be seen at the member itself: it points back to itself although it is not alone. */
  lemma DamageIsVisible(r: seq<Node>, damaged: set<Node>, i: nat)
    requires Ring(r, damaged) && i < |r|
    ensures r[i] in damaged <==> r[i].prev == r[i] && r[i].next != r[i]
  {
    assert |r| > 1 ==> r[i] != r[Pred(i, |r|)] && r[i] != r[Succ(i, |r|)];
  }

  // ---------------------------------------------------------------- operations

  method InitList(list: Node)
    modifies list
    ensures Ring([list], {})
  {
    list.next := list;
    list.prev := list;
  }

  function InsertAfter(r: seq<Node>, i: nat, x: Node): seq<Node>
    requires i < |r|
  {
    seq(|r| + 1, j requires 0 <= j <= |r| => if j <= i then r[j] else if j == i + 1 then x else r[j - 1])
  }

  /** __ll_add */
  method LinkBetween(newItem: Node, prev: Node, next: Node)
    requires newItem != prev && newItem != next
    modifies newItem, prev`next, next`prev
    ensures newItem.next == next && newItem.prev == prev
    ensures prev.next == newItem && next.prev == newItem
  {
    newItem.next := next;
    newItem.prev := prev;
    prev.next := newItem;
    next.prev := newItem;
  }

  /** The links of a ring after x has been spliced in behind position i. */
  ghost predicate SplicedAfter(r: seq<Node>, damaged: set<Node>, i: nat, x: Node)
    requires i < |r|
    reads x, set y | y in r
  {
    var n := |r|;
    && x.next == r[Succ(i, n)]
    && x.prev == r[i]
    && (forall k: nat {:trigger r[k].next} :: k < n ==> r[k].next == if k == i then x else r[Succ(k, n)])
    && (forall k: nat {:trigger r[k].prev} :: k < n ==>
          r[k].prev == if k == Succ(i, n) then x else if r[k] in damaged then r[k] else r[Pred(k, n)])
  }

  lemma InsertAfterDistinct(r: seq<Node>, i: nat, x: Node)
    requires Distinct(r) && i < |r| && x !in r
    ensures Distinct(InsertAfter(r, i, x))
    ensures forall y :: y in r ==> y in InsertAfter(r, i, x)
  {
    var r' := InsertAfter(r, i, x);
    assert forall j: nat :: j < |r| ==> r[j] == r'[if j <= i then j else j + 1];
  }

  lemma SplicedNext(r: seq<Node>, damaged: set<Node>, i: nat, x: Node, j: nat)
    requires i < |r| && x !in r && j <= |r| && SplicedAfter(r, damaged, i, x)
    ensures var r' := InsertAfter(r, i, x); |r'| == |r| + 1 && r'[j].next == r'[Succ(j, |r'|)]
  {}

  lemma SplicedPrev(r: seq<Node>, damaged: set<Node>, i: nat, x: Node, j: nat)
    requires Distinct(r) && i < |r| && x !in r && j <= |r| && SplicedAfter(r, damaged, i, x)
    requires x !in damaged
    ensures var r' := InsertAfter(r, i, x);
      && |r'| == |r| + 1
      && r'[j].prev == if r'[j] in damaged - {r[Succ(i, |r|)]} then r'[j] else r'[Pred(j, |r'|)]
  {}

  lemma SplicedIsRing(r: seq<Node>, damaged: set<Node>, i: nat, x: Node)
    requires Distinct(r) && i < |r| && x !in r
    requires forall y :: y in damaged ==> y in r
    requires SplicedAfter(r, damaged, i, x)
    ensures Ring(InsertAfter(r, i, x), damaged - {r[Succ(i, |r|)]})
  {
    var r', n := InsertAfter(r, i, x), |r|;
    InsertAfterDistinct(r, i, x);
    forall j: nat | j < |r'| ensures r'[j].next == r'[Succ(j, |r'|)] {
      SplicedNext(r, damaged, i, x, j);
    }
    forall j: nat | j < |r'|
      ensures r'[j].prev == if r'[j] in damaged - {r[Succ(i, n)]} then r'[j] else r'[Pred(j, |r'|)]
    {
      SplicedPrev(r, damaged, i, x, j);
    }
  }

  /** ll_add: the new member lands right after its anchor, and a damaged back link of the
      anchor's successor is repaired on the way. */
  method Add(newItem: Node, prev: Node, ghost r: seq<Node>, ghost damaged: set<Node>, ghost i: nat)
    requires Ring(r, damaged) && i < |r| && r[i] == prev && newItem !in r
    modifies newItem, prev`next, prev.next`prev
    ensures Ring(InsertAfter(r, i, newItem), damaged - {r[Succ(i, |r|)]})
    ensures newItem.prev == prev && newItem.next == r[Succ(i, |r|)]
  {
    LinkBetween(newItem, prev, prev.next);
    SplicedIsRing(r, damaged, i, newItem);
  }

  /** Where a new member goes when it is put in front of position i: the ring's first member stays
      first, so in front of it means at the end. */
  function InsertBefore(r: seq<Node>, i: nat, x: Node): (r': seq<Node>)
    requires i < |r|
    ensures r' == InsertAfter(r, Pred(i, |r|), x)
  {
    if i == 0 then r + [x] else r[..i] + [x] + r[i..]
  }

  /** Members that form a ring of their own are in no larger one. */
  lemma PairIsInNoOtherRing(a: Node, b: Node, r: seq<Node>)
    requires Ring([a, b], {}) && Distinct(r) && a in r && |r| > 2
    ensures !Forward(r)
  {
    var pair := [a, b];
    assert pair[0].next == pair[1] && pair[1].next == pair[0];
    var i: nat :| i < |r| && r[i] == a;
    var j := Succ(i, |r|);
    assert Succ(j, |r|) != i;
    assert r[i].next != r[j] || r[j].next != r[Succ(j, |r|)];
  }

  /** ll_add_tail: the new member lands right before its anchor if and only if the anchor's back link
      is intact; at a damaged anchor the two are cut off as a ring of their own. */
  method AddTail(newItem: Node, next: Node, ghost r: seq<Node>, ghost damaged: set<Node>, ghost i: nat)
    requires Ring(r, damaged) && i < |r| && r[i] == next && newItem !in r
    modifies newItem, next.prev`next, next`prev
    ensures next !in damaged ==> Ring(InsertBefore(r, i, newItem), damaged)
    ensures next in damaged ==> Ring([next, newItem], {})
    ensures Forward(InsertBefore(r, i, newItem)) <==> next !in damaged
  {
    LinkBetween(newItem, next.prev, next);
    if next !in damaged {
      SplicedIsRing(r, damaged, Pred(i, |r|), newItem);
      assert damaged - {next} == damaged;
    } else {
      InsertAfterDistinct(r, Pred(i, |r|), newItem);
      PairIsInNoOtherRing(next, newItem, InsertBefore(r, i, newItem));
    }
  }

  // ------------------------------------------------------------------- deletion

  function RemoveAt(r: seq<Node>, i: nat): seq<Node>
    requires i < |r|
  {
    seq(|r| - 1, j requires 0 <= j < |r| - 1 => if j < i then r[j] else r[j + 1])
  }

  /** __ll_del */
  method UnlinkBetween(prev: Node, next: Node)
    modifies prev`next, next`prev
    ensures prev.next == next && next.prev == next
  {
    prev.next := next;
    next.prev := next;
  }

  /** The members whose back link is damaged once the member at i has been taken out. */
  function DamagedAfter(r: seq<Node>, damaged: set<Node>, i: nat): set<Node>
    requires i < |r|
  {
    if |r| <= 2 then {} else damaged + {r[Succ(i, |r|)]}
  }

  /** The links of a ring after its member at i, itself undamaged, has been unlinked. */
  ghost predicate Unlinked(r: seq<Node>, damaged: set<Node>, i: nat)
    requires i < |r|
    reads set y | y in r
  {
    var n := |r|;
    && (forall k: nat {:trigger r[k].next} :: k < n && k != i ==>
          r[k].next == if k == Pred(i, n) then r[Succ(i, n)] else r[Succ(k, n)])
    && (forall k: nat {:trigger r[k].prev} :: k < n && k != i ==>
          r[k].prev == if k == Succ(i, n) || r[k] in damaged then r[k] else r[Pred(k, n)])
  }

  lemma UnlinkedNext(r: seq<Node>, damaged: set<Node>, i: nat, j: nat)
    requires i < |r| && j + 1 < |r| && Unlinked(r, damaged, i)
    ensures var r' := RemoveAt(r, i); |r'| == |r| - 1 && r'[j].next == r'[Succ(j, |r'|)]
  {}

  lemma UnlinkedPrev(r: seq<Node>, damaged: set<Node>, i: nat, j: nat)
    requires Distinct(r) && i < |r| && j + 1 < |r| && Unlinked(r, damaged, i)
    ensures var r' := RemoveAt(r, i);
      && |r'| == |r| - 1
      && r'[j].prev == if r'[j] in DamagedAfter(r, damaged, i) then r'[j] else r'[Pred(j, |r'|)]
  {
    var k := if j < i then j else j + 1;
    assert r[k] == r[Succ(i, |r|)] <==> k == Succ(i, |r|);
  }

  lemma UnlinkedIsRing(r: seq<Node>, damaged: set<Node>, i: nat)
    requires Distinct(r) && i < |r| && r[i] !in damaged
    requires forall y :: y in damaged ==> y in r
    requires Unlinked(r, damaged, i)
    ensures Ring(RemoveAt(r, i), DamagedAfter(r, damaged, i))
  {
    var r' := RemoveAt(r, i);
    forall j: nat | j < |r'|
      ensures r'[j].next == r'[Succ(j, |r'|)]
      ensures r'[j].prev == if r'[j] in DamagedAfter(r, damaged, i) then r'[j] else r'[Pred(j, |r'|)]
    {
      UnlinkedNext(r, damaged, i, j);
      UnlinkedPrev(r, damaged, i, j);
    }
    assert forall j: nat :: j < |r| && j != i ==> r[j] == r'[if j < i then j else j - 1];
  }

  /** A member that points outside is in no ring of the others. */
  lemma PointsOutside(r: seq<Node>, x: Node)
    requires x in r && x.next !in r
    ensures !Forward(r)
  {
    assert forall i: nat :: i < |r| ==> r[Succ(i, |r|)] in r;
  }

  /** ll_del on the fields alone. */
  method Detach(del: Node)
    requires del.prev != null && del.next != null
    modifies del, del.prev`next, del.next`prev
    ensures del.next == null && del.prev == null
    ensures old(del.prev) != del ==> old(del.prev).next == old(del.next)
    ensures old(del.next) != del ==> old(del.next).prev == old(del.next)
  {
    UnlinkBetween(del.prev, del.next);
    del.next := null;
    del.prev := null;
  }

  lemma BackIntactIff(r: seq<Node>, i: nat)
    requires Distinct(r) && i < |r| && Ring(RemoveAt(r, i), DamagedAfter(r, {}, i))
    ensures Back(RemoveAt(r, i), {}) <==> r[Pred(i, |r|)] == r[Succ(i, |r|)]
  {
    if |r| > 2 {
      var k := if i + 1 == |r| then 0 else i;
      var rest := RemoveAt(r, i);
      assert rest[k] == r[Succ(i, |r|)] && rest[k].prev == rest[k] != rest[Pred(k, |rest|)];
    }
  }

  /** ll_del as written.  The deleted member's links are nulled.  If its back link was intact, exactly it
      leaves the forward ring and its successor's back link becomes damaged, unless that successor is also
      its predecessor.  If its back link was damaged, its predecessor keeps pointing to it, so there is no
      forward ring of the others. */
  method Del(del: Node, ghost r: seq<Node>, ghost damaged: set<Node>, ghost i: nat)
    requires Ring(r, damaged) && i < |r| && r[i] == del
    modifies del, del.prev`next, del.next`prev
    ensures del.next == null && del.prev == null
    ensures old(del.next) != del ==> old(del.next).prev == old(del.next)
    ensures del !in damaged ==> Ring(RemoveAt(r, i), DamagedAfter(r, damaged, i))
    ensures del in damaged ==> r[Pred(i, |r|)].next == del && r[Pred(i, |r|)] != del
    ensures Forward(RemoveAt(r, i)) <==> del !in damaged
    ensures damaged == {} ==> (Back(RemoveAt(r, i), {}) <==> old(del.prev) == old(del.next))
  {
    Detach(del);
    if del !in damaged {
      UnlinkedIsRing(r, damaged, i);
      if damaged == {} { BackIntactIff(r, i); }
    } else {
      RemovedIsOut(r, i);
      PointsOutside(RemoveAt(r, i), r[Pred(i, |r|)]);
    }
  }

  lemma RemovedIsOut(r: seq<Node>, i: nat)
    requires Distinct(r) && i < |r| && |r| > 1
    ensures r[i] !in RemoveAt(r, i) && r[Pred(i, |r|)] in RemoveAt(r, i)
  {
    var p := Pred(i, |r|);
    assert RemoveAt(r, i)[if p < i then p else p - 1] == r[p];
  }

  /** ll_is_empty on a ring that starts at its head. */
  method IsEmpty(head: Node, ghost r: seq<Node>, ghost damaged: set<Node>) returns (empty: bool)
    requires Ring(r, damaged) && r != [] && r[0] == head
    ensures empty <==> r == [head]
  {
    empty := head.next == head;
  }

  // ---------------------------------------------------------- two calls in a row

  lemma InsertThenRemove(r: seq<Node>, i: nat, x: Node)
    requires i < |r|
    ensures var r' := InsertAfter(r, i, x);
      && |r'| == |r| + 1
      && r'[i + 1] == x
      && r'[Succ(i + 1, |r'|)] == r[Succ(i, |r|)]
      && RemoveAt(r', i + 1) == r
  {}

  /** Adding a member and deleting it again restores the forward ring; of the back links only that
      of the anchor's successor is lost. */
  method AddThenDel(newItem: Node, prev: Node, ghost r: seq<Node>, ghost damaged: set<Node>, ghost i: nat)
    requires Ring(r, damaged) && i < |r| && r[i] == prev && newItem !in r
    modifies newItem, prev`next, prev.next`prev
    ensures Ring(r, if |r| == 1 then {} else damaged + {r[Succ(i, |r|)]})
    ensures newItem.next == null && newItem.prev == null
  {
    ghost var next := r[Succ(i, |r|)];
    ghost var more, left := InsertAfter(r, i, newItem), damaged - {next};
    InsertThenRemove(r, i, newItem);
    assert newItem !in left && left + {next} == damaged + {next};
    Add(newItem, prev, r, damaged, i);
    Del(newItem, more, left, i + 1);
  }

  lemma NeighbourAfterRemoval(r: seq<Node>, i: nat, k: nat)
    requires |r| >= 3 && i < |r| && k == if i + 1 == |r| then 0 else i
    ensures var rest := RemoveAt(r, i);
      && |rest| == |r| - 1
      && rest[k] == r[Succ(i, |r|)]
      && rest[Pred(k, |rest|)] == r[Pred(i, |r|)]
      && (forall x :: x in rest ==> x in r)
  {}

  /** The shortest failing use: after two neighbours have been deleted in turn, the member before them points
      to the second one, whose links are null, so the others form no forward ring (PointsOutside). */
  method DelNeighbours(a: Node, b: Node, ghost r: seq<Node>, ghost i: nat)
    requires Ring(r, {}) && |r| >= 3 && i < |r| && r[i] == a && r[Succ(i, |r|)] == b
    modifies set x | x in r
    ensures r[Pred(i, |r|)].next == b && b.next == null
  {
    ghost var rest := RemoveAt(r, i);
    ghost var k := if i + 1 == |r| then 0 else i;
    NeighbourAfterRemoval(r, i, k);
    Del(a, r, {}, i);
    Del(b, rest, {b}, k);
  }
}
