/**
  What the tick loop of state_machine is meant to produce: the sequence of callbacks, given the state
  each tick is to run.
 */
module TickTrace {

  datatype Event<S> = Exit(state: S) | Enter(state: S) | Run(state: S)

  /** One pass of the loop: leave the current state and enter the next one if they differ, then run. */
  function TickEvents<S(==)>(current: S, next: S): seq<Event<S>> {
    if current == next then [Run(current)] else [Exit(current), Enter(next), Run(next)]
  }

  /** The state current after the ticks, starting in s. */
  function Final<S>(s: S, targets: seq<S>): S {
    if targets == [] then s else targets[|targets| - 1]
  }

  function Trace<S(==)>(s: S, targets: seq<S>): seq<Event<S>> {
    if targets == [] then []
    else
      var before := targets[..|targets| - 1];
      Trace(s, before) + TickEvents(Final(s, before), targets[|targets| - 1])
  }

  /** The shape of a proper trace from s: blocks of runs of one state, where a block of another state is
      opened by the exit of the old one immediately followed by the enter and a run of the new one. */
  predicate Blocks<S(==)>(s: S, t: seq<Event<S>>)
    decreases |t|
  {
    || t == []
    || (t[0] == Run(s) && Blocks(s, t[1..]))
    || (|t| >= 3 && t[0] == Exit(s) && t[1].Enter? && t[1].state != s && t[2] == Run(t[1].state)
        && Blocks(t[1].state, t[3..]))
  }

  /** The states run, in order. */
  function Runs<S>(t: seq<Event<S>>): seq<S> {
    if t == [] then [] else (if t[0].Run? then [t[0].state] else []) + Runs(t[1..])
  }

  lemma {:induction false} RunsAppend<S>(t: seq<Event<S>>, u: seq<Event<S>>)
    ensures Runs(t + u) == Runs(t) + Runs(u)
    decreases |t|
  {
    if t == [] {
      assert t + u == u;
    } else {
      var first := if t[0].Run? then [t[0].state] else [];
      assert (t + u)[1..] == t[1..] + u && (t + u)[0] == t[0];
      RunsAppend(t[1..], u);
      assert first + (Runs(t[1..]) + Runs(u)) == (first + Runs(t[1..])) + Runs(u);
    }
  }

  lemma RunsOfTick<S>(a: S, b: S)
    ensures Runs(TickEvents(a, b)) == [b]
  {
    var one := [Run(b)];
    assert one[1..] == [] && Runs(one) == [b];
    var two := [Enter(b)] + one;
    assert two[1..] == one && Runs(two) == [b];
    var three := [Exit(a)] + two;
    assert three[1..] == two && Runs(three) == [b];
    assert TickEvents(a, b) == if a == b then one else three;
  }

  lemma {:induction false} RunsOfTrace<S>(s: S, targets: seq<S>)
    ensures Runs(Trace(s, targets)) == targets
    decreases |targets|
  {
    if targets != [] {
      var before, last := targets[..|targets| - 1], targets[|targets| - 1];
      RunsOfTrace(s, before);
      RunsAppend(Trace(s, before), TickEvents(Final(s, before), last));
      RunsOfTick(Final(s, before), last);
      assert before + [last] == targets;
    }
  }

  /** Traces can equally be built from the front. */
  lemma {:induction false} TraceFromFront<S>(s: S, targets: seq<S>)
    requires targets != []
    ensures Trace(s, targets) == TickEvents(s, targets[0]) + Trace(targets[0], targets[1..])
    decreases |targets|
  {
    var before, rest := targets[..|targets| - 1], targets[1..];
    var first, last := TickEvents(s, targets[0]), TickEvents(Final(s, before), targets[|targets| - 1]);
    if before == [] {
      assert Trace(s, targets) == [] + last;
      assert first + Trace(targets[0], rest) == first + [];
    } else {
      TraceFromFront(s, before);
      assert rest[..|rest| - 1] == before[1..];
      assert Final(targets[0], before[1..]) == Final(s, before);
      assert Trace(targets[0], rest) == Trace(targets[0], before[1..]) + last;
      assert (first + Trace(targets[0], before[1..])) + last == first + (Trace(targets[0], before[1..]) + last);
    }
  }

  lemma {:induction false} TraceHasBlocks<S>(s: S, targets: seq<S>)
    ensures Blocks(s, Trace(s, targets))
    decreases |targets|
  {
    if targets != [] {
      var b, rest := targets[0], Trace(targets[0], targets[1..]);
      TraceFromFront(s, targets);
      TraceHasBlocks(b, targets[1..]);
      if b == s {
        assert ([Run(s)] + rest)[1..] == rest;
      } else {
        assert ([Exit(s), Enter(b), Run(b)] + rest)[3..] == rest;
      }
    }
  }

  lemma {:induction false} BlocksDetermineTrace<S>(s: S, t: seq<Event<S>>)
    requires Blocks(s, t)
    ensures t == Trace(s, Runs(t))
    decreases |t|
  {
    if t != [] {
      if t[0] == Run(s) {
        BlocksDetermineTrace(s, t[1..]);
        assert Runs(t)[1..] == Runs(t[1..]);
        TraceFromFront(s, Runs(t));
        assert t == [t[0]] + t[1..];
      } else {
        var b := t[1].state;
        assert t == [Exit(s), Enter(b), Run(b)] + t[3..];
        RunsAppend(TickEvents(s, b), t[3..]);
        RunsOfTick(s, b);
        BlocksDetermineTrace(b, t[3..]);
        assert Runs(t)[1..] == Runs(t[3..]);
        TraceFromFront(s, Runs(t));
      }
    }
  }

  /** The trace of a run of ticks is the one and only properly blocked sequence of events in which each tick
      runs its target: no exit or enter without a change of state, none missing at a change. */
  lemma TraceIsTheBlockedTrace<S>(s: S, targets: seq<S>, t: seq<Event<S>>)
    ensures t == Trace(s, targets) <==> Blocks(s, t) && Runs(t) == targets
  {
    RunsOfTrace(s, targets);
    TraceHasBlocks(s, targets);
    if Blocks(s, t) { BlocksDetermineTrace(s, t); }
  }
}

/**
  state_machine: the registry as a singly linked list with a head node, and the tick loop.
 */
module StateMachine {
  import opened CTypes
  import opened StateRegistry
  import opened TickTrace

  datatype Option<T> = None | Some(value: T)

  /** system_state_t; of the optional callbacks only their presence matters. */
  class Node {
    var id: UInt
    const hasEnter: bool
    const hasRun: bool
    const hasExit: bool
    var next: Node?
    var freed: bool   // the memory has been given back

    constructor (hasEnter: bool, hasRun: bool, hasExit: bool)
      ensures id == 0 && next == null && !freed
      ensures this.hasEnter == hasEnter && this.hasRun == hasRun && this.hasExit == hasExit
    {
      id, next, freed := 0, null, false;
      this.hasEnter, this.hasRun, this.hasExit := hasEnter, hasRun, hasExit;
    }
  }

  /** Nothing may be read through the pointer. */
  predicate Dangling(n: Node?)
    reads n
  {
    n == null || n.freed
  }

  predicate HasCallback(e: Event<Node>) {
    match e
    case Exit(s) => s.hasExit
    case Enter(s) => s.hasEnter
    case Run(s) => s.hasRun
  }

  /** The events for which a callback is actually made. */
  function Called(t: seq<Event<Node>>): seq<Event<Node>> {
    if t == [] then []
    else Called(t[..|t| - 1]) + Call(t[|t| - 1])
  }

  /** At most the one call that an event stands for. */
  function Call(e: Event<Node>): seq<Event<Node>> {
    if HasCallback(e) then [e] else []
  }

  lemma CalledOne(t: seq<Event<Node>>, e: Event<Node>)
    ensures Called(t + [e]) == Called(t) + Call(e)
  {
    assert (t + [e])[..|t|] == t;
  }

  /** The calls one pass of the loop makes. */
  function TickCalls(current: Node, next: Node): seq<Event<Node>> {
    if current == next then Call(Run(next)) else Call(Exit(current)) + Call(Enter(next)) + Call(Run(next))
  }

  lemma Regroup<T>(a: seq<T>, b: seq<T>, c: seq<T>, d: seq<T>)
    ensures a + b + c + d == a + (b + c + d)
  {}

  /** In the states' own callback pointers. */
  lemma TickCallsInFields(from: Node, to: Node)
    ensures TickCalls(from, to) ==
      (if from != to && from.hasExit then [Exit(from)] else [])
      + (if from != to && to.hasEnter then [Enter(to)] else [])
      + (if to.hasRun then [Run(to)] else [])
  {}

  lemma CalledMore(s: Node, targets: seq<Node>, x: Node)
    ensures Called(Trace(s, targets + [x])) == Called(Trace(s, targets)) + TickCalls(Final(s, targets), x)
  {
    var was, cur, all := Trace(s, targets), Final(s, targets), targets + [x];
    assert all[..|all| - 1] == targets;
    if cur == x {
      CalledOne(was, Run(x));
    } else {
      var left := was + [Exit(cur)];
      var entered := left + [Enter(x)];
      assert Trace(s, all) == entered + [Run(x)];
      CalledOne(was, Exit(cur));
      CalledOne(left, Enter(x));
      CalledOne(entered, Run(x));
      Regroup(Called(was), Call(Exit(cur)), Call(Enter(x)), Call(Run(x)));
    }
  }

  /** The calls of one more tick. */
  lemma CalledTick(s: Node, targets: seq<Node>, x: Node)
    ensures var from := Final(s, targets);
      && Called(Trace(s, targets + [x])) == Called(Trace(s, targets)) + TickCalls(from, x)
      && TickCalls(from, x) ==
         (if from != x && from.hasExit then [Exit(from)] else [])
         + (if from != x && x.hasEnter then [Enter(x)] else [])
         + (if x.hasRun then [Run(x)] else [])
  {
    CalledMore(s, targets, x);
    TickCallsInFields(Final(s, targets), x);
  }

  ghost function EntriesOf(nodes: seq<Node>): (r: seq<Entry<Node>>)
    reads nodes
    ensures |r| == |nodes|
  {
    seq(|nodes|, i requires 0 <= i < |nodes| reads nodes => Entry(nodes[i].id, nodes[i]))
  }

  /** The entries after `count` has been stored in the last node and n has been linked behind it. */
  lemma AppendedEntries(nodes: seq<Node>, n: Node, r: Registry<Node>)
    requires |r.entries| == |nodes| && n.id == 0
    requires forall i: nat :: i < |nodes| ==> r.entries[i].state == nodes[i]
    requires forall i: nat :: i + 1 < |nodes| ==> r.entries[i].id == nodes[i].id
    requires nodes != [] ==> nodes[|nodes| - 1].id == Increment(r.count)
    ensures EntriesOf(nodes + [n]) == r.Add(n).entries
  {
    var es, r' := EntriesOf(nodes + [n]), r.Add(n);
    assert forall i: nat :: i < |es| ==> es[i] == r'.entries[i];
  }

  // ----------------------------------------------------------------- the list

  /** The i-th node of the list, counting the head as the 0-th. */
  ghost function NodeAt(head: Node, nodes: seq<Node>, i: nat): Node
    requires i <= |nodes|
  {
    if i == 0 then head else nodes[i - 1]
  }

  ghost predicate AllDifferent(head: Node, nodes: seq<Node>) {
    head !in nodes && forall i, j :: 0 <= i < j < |nodes| ==> nodes[i] != nodes[j]
  }

  /** What the i-th node's `next` is in the list head, nodes, NULL. */
  ghost function NextOf(nodes: seq<Node>, i: nat): Node?
    requires i <= |nodes|
  {
    if i < |nodes| then nodes[i] else null
  }

  ghost predicate List(head: Node, nodes: seq<Node>)
    reads head, nodes
  {
    && AllDifferent(head, nodes)
    && forall i: nat :: i <= |nodes| ==> NodeAt(head, nodes, i).next == NextOf(nodes, i)
  }

  lemma NodesAtDiffer(head: Node, nodes: seq<Node>, i: nat, j: nat)
    requires AllDifferent(head, nodes) && i < j <= |nodes|
    ensures NodeAt(head, nodes, i) != NodeAt(head, nodes, j)
  {}

  lemma Removed(head: Node, nodes: seq<Node>, k: nat)
    requires k < |nodes| && AllDifferent(head, nodes)
    ensures var rest := nodes[..k] + nodes[k + 1..];
      && AllDifferent(head, rest)
      && (forall i: nat :: i < |nodes| ==> NodeAt(head, rest, i) == NodeAt(head, nodes, if i <= k then i else i + 1))
      && (forall i: nat :: i < |nodes| ==> NextOf(rest, i) == NextOf(nodes, if i < k then i else i + 1))
  {
    var rest := nodes[..k] + nodes[k + 1..];
    forall i, j | 0 <= i < j < |rest| ensures rest[i] != rest[j] {
      assert rest[i] == nodes[if i < k then i else i + 1] && rest[j] == nodes[if j < k then j else j + 1];
    }
  }

  /** The removed node, and no other, is no longer in the list. */
  lemma RemovedIsOut(head: Node, nodes: seq<Node>, k: nat)
    requires k < |nodes| && AllDifferent(head, nodes)
    ensures forall n :: n in nodes ==> (n == nodes[k] <==> n !in nodes[..k] + nodes[k + 1..])
  {
    forall n | n in nodes ensures n == nodes[k] <==> n !in nodes[..k] + nodes[k + 1..] {
      var i :| 0 <= i < |nodes| && nodes[i] == n;
      if i != k { assert n in nodes[..k] || n in nodes[k + 1..]; }
    }
  }

  lemma RemovedEntries(nodes: seq<Node>, k: nat)
    requires k < |nodes|
    ensures EntriesOf(nodes[..k] + nodes[k + 1..]) == EntriesOf(nodes)[..k] + EntriesOf(nodes)[k + 1..]
  {}

  /** Bypassing the node after the k-th takes it out of the list. */
  method Unlink(it: Node, ghost head: Node, ghost nodes: seq<Node>, ghost k: nat)
    requires List(head, nodes) && k < |nodes| && it == NodeAt(head, nodes, k)
    modifies it`next
    ensures List(head, nodes[..k] + nodes[k + 1..])
  {
    var del := it.next;
    assert del == nodes[k] == NodeAt(head, nodes, k + 1);
    if it.next.next == null {
      it.next := null;
    } else {
      it.next := del.next;
    }
    ghost var rest := nodes[..k] + nodes[k + 1..];
    Removed(head, nodes, k);
    forall i: nat | i <= |rest| ensures NodeAt(head, rest, i).next == NextOf(rest, i) {
      if i < k { NodesAtDiffer(head, nodes, i, k); }
      if k < i { NodesAtDiffer(head, nodes, k, i + 1); }
    }
  }

  /** Hanging n behind the last node extends the list. */
  method LinkAfter(it: Node, n: Node, ghost head: Node, ghost nodes: seq<Node>)
    requires List(head, nodes) && it == NodeAt(head, nodes, |nodes|)
    requires n != head && n !in nodes && n.next == null
    modifies it`next
    ensures List(head, nodes + [n])
  {
    it.next := n;
    ghost var more := nodes + [n];
    forall i: nat | i <= |more| ensures NodeAt(head, more, i).next == NextOf(more, i) {
      if i < |nodes| {
        assert NodeAt(head, more, i) == NodeAt(head, nodes, i);
        NodesAtDiffer(head, nodes, i, |nodes|);
      }
    }
  }

  class Machine {
    const head: Node
    var count: UInt
    var current: Node?
    var next: Node?
    var calls: seq<Event<Node>>       // the callbacks made so far

    ghost var nodes: seq<Node>        // the registered states, in list order
    ghost var start: Node?            // the state the task started in
    ghost var targets: seq<Node>      // the state each tick so far was to run

    ghost predicate Linked()
      reads this`nodes, head, nodes
    {
      List(head, nodes) && forall n :: n in nodes ==> !n.freed
    }

    ghost function Reg(): Registry<Node>
      reads this`count, this`nodes, head, nodes
    {
      Registry(count, head.id, EntriesOf(nodes))
    }

    /** The callbacks made are those of the trace that the targets call for. */
    ghost predicate Ticking()
      reads this
    {
      && start != null
      && current == next == Final<Node>(start, targets)
      && calls == Called(Trace<Node>(start, targets))
    }

    constructor ()
      ensures Linked() && Reg() == Registry(0, 0, [])
      ensures current == null && next == null && calls == []
      ensures fresh(head)
    {
      head := new Node(false, false, false);
      count, current, next, calls := 0, null, null, [];
      nodes, start, targets := [], null, [];
    }

    /** The loop at the start of addState. */
    method LastNode() returns (it: Node)
      requires Linked()
      ensures it == NodeAt(head, nodes, |nodes|)
    {
      it := head;
      ghost var k: nat := 0;
      while it.next != null
        invariant k <= |nodes| && it == NodeAt(head, nodes, k)
        decreases |nodes| - k
      {
        it := it.next;
        k := k + 1;
      }
    }

    method AddState(hasEnter: bool, hasRun: bool, hasExit: bool) returns (id: UInt, ghost node: Node)
      requires Linked()
      modifies this`count, this`nodes, head, nodes
      ensures Linked() && fresh(node) && nodes == old(nodes) + [node]
      ensures id == if old(count) == 0xFFFF_FFFF then 0 else old(count) + 1
      ensures node.hasEnter == hasEnter && node.hasRun == hasRun && node.hasExit == hasExit
      ensures Reg() == old(Reg()).Add(node)
      ensures id == count
    {
      var it := LastNode();
      var n := new Node(hasEnter, hasRun, hasExit);
      id := Append(it, n);
      node := n;
    }

    /** The rest of addState, at the last node of the list. */
    method Append(it: Node, n: Node) returns (id: UInt)
      requires Linked() && it == NodeAt(head, nodes, |nodes|)
      requires n != head && n !in nodes && n.next == null && n.id == 0 && !n.freed
      modifies this`count, this`nodes, it`next, it`id
      ensures Linked() && nodes == old(nodes) + [n]
      ensures Reg() == old(Reg()).Add(n)
      ensures id == count
    {
      ghost var r, before := Reg(), nodes;
      assert forall i: nat :: i < |nodes| ==> r.entries[i] == Entry(nodes[i].id, nodes[i]);
      assert it == if nodes == [] then head else nodes[|nodes| - 1];
      LinkAfter(it, n, head, nodes);
      nodes := nodes + [n];
      id := Label(it);
      assert forall i: nat :: i + 1 < |before| ==> before[i] != it && before[i].id == r.entries[i].id;
      assert head.id == if before == [] then count else r.headId;
      assert before != [] ==> before[|before| - 1].id == Increment(r.count);
      AppendedEntries(before, n, r);
    }

    /** Store the next ID in a node. */
    method Label(it: Node) returns (id: UInt)
      requires Linked()
      modifies this`count, it`id
      ensures Linked() && id == count == it.id == Increment(old(count))
    {
      count := Increment(count);
      it.id := count;
      id := count;
    }

    /** The loop shared by findState and deleteState: stop before the first node with the ID. */
    method Before(id: UInt) returns (it: Node)
      requires Linked()
      ensures it == NodeAt(head, nodes, Reg().Find(id))
    {
      it := head;
      ghost var k: nat := 0;
      while it.next != null && it.next.id != id
        invariant k <= |nodes| && it == NodeAt(head, nodes, k)
        invariant forall i :: 0 <= i < k ==> nodes[i].id != id
        decreases |nodes| - k
      {
        it := it.next;
        k := k + 1;
      }
      assert k < |nodes| ==> EntriesOf(nodes)[k].id == id;
      assert forall i :: 0 <= i < k ==> EntriesOf(nodes)[i].id != id;
      assert Reg().Find(id) == k;
    }

    method FindState(id: UInt) returns (found: Node?)
      requires Linked()
      ensures found == if Reg().Has(id) then nodes[Reg().Find(id)] else null
    {
      var it := Before(id);
      found := it.next;
    }

    /** Unlinks and frees; the nodes freed are those no longer in the list. */
    method DeleteState(id: UInt)
      requires Linked()
      modifies this`nodes, head, nodes
      ensures Linked() && Reg() == old(Reg()).Delete(id)
      ensures forall n :: n in old(nodes) ==> (n.freed <==> n !in nodes)
    {
      var it := Before(id);
      if it.next != null {
        if it.next.id != 0 {
          Remove(it, Reg().Find(id));
        }
      }
    }

    /** Take out and free the node after the k-th. */
    method Remove(it: Node, ghost k: nat)
      requires Linked() && k < |nodes| && it == NodeAt(head, nodes, k)
      modifies this`nodes, it`next, nodes[k]
      ensures Linked() && nodes == old(nodes)[..k] + old(nodes)[k + 1..]
      ensures EntriesOf(nodes) == old(EntriesOf(nodes))[..k] + old(EntriesOf(nodes))[k + 1..]
      ensures forall n :: n in old(nodes) ==> (n.freed <==> n !in nodes)
    {
      ghost var before, entries := nodes, EntriesOf(nodes);
      var del := it.next;
      assert del == NextOf(nodes, k);
      Unlink(it, head, nodes, k);
      nodes := nodes[..k] + nodes[k + 1..];
      RemovedIsOut(head, before, k);
      del.freed := true;
      assert EntriesOf(before) == entries;
      RemovedEntries(before, k);
    }

    /** What the task does before its loop, given the value of the operand `smInit`.  By the evident intent this
        is the 0 that a call of the function returns, and the task starts in the first state; as written it is
        the function's address, and nothing is assigned. */
    method Start(smInit: nat) returns (ok: bool)
      requires Linked() && current == null && next == null && calls == []
      modifies this`current, this`next, this`start, this`targets
      ensures ok <==> smInit != 0 || nodes != []
      ensures smInit == 0 && ok ==> Ticking() && current == nodes[0] && targets == []
      ensures smInit != 0 ==> current == null && next == null
    {
      ok := true;
      if smInit == 0 {
        assert NodeAt(head, nodes, 0) == head;
        current := head.next;
        next := head.next;
        ok := current != null;
        start, targets := head.next, [];
      }
    }

    /** As written, where the operand is an address and not 0, the task dies in its first pass, whatever is
        registered and whatever is requested. */
    method FirstPass(smInit: nat, request: Option<Byte>) returns (crashed: bool)
      requires Linked() && current == null && next == null && calls == [] && smInit != 0
      modifies this`current, this`next, this`calls, this`start, this`targets
      ensures crashed
    {
      var _ := Start(smInit);
      crashed := Tick(request);
    }

    /** One pass of the task's loop.  `crashed` reports that it follows a pointer that is NULL or to a state that
        has been deleted. */
    method Tick(request: Option<Byte>) returns (crashed: bool)
      requires Linked() && (current == null || Ticking())
      modifies this`current, this`next, this`calls, this`targets
      ensures crashed <==> old(current) == null || old(current).freed || (request.Some? && !Reg().Has(request.value))
      ensures !crashed ==> Linked() && Ticking()
      ensures !crashed ==>
        targets == old(targets) + [if request.Some? then nodes[Reg().Find(request.value)] else old(next)]
      ensures !crashed ==>
        var from: Node, to: Node := old(current), next;
        calls == old(calls) + ((if from != to && from.hasExit then [Exit(from)] else [])
                               + (if from != to && to.hasEnter then [Enter(to)] else [])
                               + (if to.hasRun then [Run(to)] else []))
      ensures Reg() == old(Reg())
    {
      if request.Some? {
        next := FindState(request.value);
      }
      crashed := Pass();
    }

    /** The rest of the pass, with the record of what it was to run. */
    method Pass() returns (crashed: bool)
      requires current == null || (start != null && current == Final<Node>(start, targets) &&
                                   calls == Called(Trace<Node>(start, targets)))
      modifies this`current, this`calls, this`targets
      ensures crashed <==> Dangling(old(current)) || Dangling(next)
      ensures !crashed ==> Ticking() && targets == old(targets) + [next]
      ensures !crashed ==>
        var from: Node, to: Node := old(current), next;
        calls == old(calls) + ((if from != to && from.hasExit then [Exit(from)] else [])
                               + (if from != to && to.hasEnter then [Enter(to)] else [])
                               + (if to.hasRun then [Run(to)] else []))
    {
      crashed := Dispatch();
      if !crashed {
        ghost var s: Node, x: Node := start, current;
        ghost var before := targets;
        CalledTick(s, before, x);
        targets := before + [x];
        assert calls == Called(Trace(s, before)) + TickCalls(Final(s, before), x);
      }
    }

    /** A callback that may be NULL is called if it is there. */
    method Invoke(e: Event<Node>)
      modifies this`calls
      ensures calls == old(calls) + Call(e)
      ensures calls == old(calls) +
        if (e.Exit? && e.state.hasExit) || (e.Enter? && e.state.hasEnter) || (e.Run? && e.state.hasRun) then [e] else []
    {
      if HasCallback(e) {
        calls := calls + [e];
      }
    }

    /** The rest of the pass: switch to `next` if it is another state, then run. */
    method Dispatch() returns (crashed: bool)
      modifies this`current, this`calls
      ensures crashed <==> old(current) == null || old(current).freed || next == null || next.freed
      ensures !crashed ==> current == next && calls == old(calls) + TickCalls(old(current), next)
      ensures !crashed ==>
        var from: Node, to: Node := old(current), next;
        calls == old(calls) + ((if from != to && from.hasExit then [Exit(from)] else [])
                               + (if from != to && to.hasEnter then [Enter(to)] else [])
                               + (if to.hasRun then [Run(to)] else []))
    {
      if Dangling(current) {
        return true;
      }
      if current != next {
        Invoke(Exit(current));
        if Dangling(next) {
          return true;
        }
        Invoke(Enter(next));
        current := next;
      }
      Invoke(Run(current));
      crashed := false;
    }
  }
}
