/**
  What the callbacks of async_UDP_multithread get when any number of handlers drain the connections
  concurrently, and how complete runs end.
 */
module SocketOrder {
  import opened CTypes
  import opened UdpDrain
  import opened LockCoupling

  // ------------------------------------------------------- what callbacks get

  /** The handler holding position i has received a datagram that it has not handed over yet. */
  predicate InCallback(s: State, i: nat)
    requires i < |s.owner|
  {
    && s.owner[i].Held? && s.owner[i].agent < |s.pc|
    && s.pc[s.owner[i].agent].ToCallback?
  }

  /** Position i is locked by a handler in its receive loop. */
  predicate BeingDrained(s: State, i: nat)
    requires i < |s.owner|
  {
    && s.owner[i].Held? && s.owner[i].agent < |s.pc|
    && (s.pc[s.owner[i].agent].ToCallback? || s.pc[s.owner[i].agent].ToRecv?)
  }

  /** The channel's buffer and callbacks are those of the datagrams taken so far, in order. */
  predicate ChannelOk(c: Config, s: State, i: nat)
    requires i < |s.owner| == |s.channel|
  {
    var ch, size := s.channel[i], c.Size(i);
    && ch.taken <= |ch.arrived|
    && c.Queued(i) <= ch.arrived
    && if InCallback(s, i) then
         var p := s.pc[s.owner[i].agent];
         && p.pos == i && ch.taken > 0
         && !Stops(ch.arrived[ch.taken - 1], size)
         && p.n == Min(|ch.arrived[ch.taken - 1]|, size)
         && ch.buffer == Filled(BufferAfter(c.Buffer(i), ch.arrived[..ch.taken - 1]), ch.arrived[ch.taken - 1])
         && ch.calls == CallsFor(ch.arrived[..ch.taken - 1], size)
       else
         && ch.buffer == BufferAfter(c.Buffer(i), ch.arrived[..ch.taken])
         && ch.calls == CallsFor(ch.arrived[..ch.taken], size)
  }

  predicate ChannelsOk(c: Config, s: State) {
    |s.owner| == |s.channel| && forall i: nat :: i < |s.channel| ==> ChannelOk(c, s, i)
  }

  lemma ArriveKeepsChannel(c: Config, s: State, j: nat, d: Datagram, i: nat)
    requires Inv(c, s) && Enabled(c, s, Arrive(j, d)) && i < |s.channel| && ChannelOk(c, s, i)
    ensures var s' := Step(c, s, Arrive(j, d)); |s'.owner| == |s'.channel| == |s.channel| && ChannelOk(c, s', i)
  {
    var ch := s.channel[i];
    assert (ch.arrived + [d])[..ch.taken] == ch.arrived[..ch.taken];
    if ch.taken > 0 {
      assert (ch.arrived + [d])[..ch.taken - 1] == ch.arrived[..ch.taken - 1];
    }
  }

  lemma RecvKeepsChannel(c: Config, s: State, a: nat)
    requires Inv(c, s) && Enabled(c, s, Move(a)) && s.pc[a].ToRecv? && ChannelOk(c, s, s.pc[a].pos)
    ensures ChannelOk(c, Step(c, s, Move(a)), s.pc[a].pos)
  {
    var i := s.pc[a].pos;
    var ch, s' := s.channel[i], Step(c, s, Move(a));
    assert LockOk(s, i);
    assert s.owner[i] == Held(a) && s'.pc[a] == AfterRecv(i, ch, c.Size(i));
    if ch.taken < |ch.arrived| {
      var more := ch.arrived[..ch.taken + 1];
      assert more[..|more| - 1] == ch.arrived[..ch.taken] && more[|more| - 1] == ch.arrived[ch.taken];
    }
  }

  lemma CallbackKeepsChannel(c: Config, s: State, a: nat)
    requires Inv(c, s) && Enabled(c, s, Move(a)) && s.pc[a].ToCallback? && ChannelOk(c, s, s.pc[a].pos)
    ensures ChannelOk(c, Step(c, s, Move(a)), s.pc[a].pos)
  {
    var i := s.pc[a].pos;
    var ch := s.channel[i];
    assert LockOk(s, i);
    var done := ch.arrived[..ch.taken];
    assert done[..|done| - 1] == ch.arrived[..ch.taken - 1] && done[|done| - 1] == ch.arrived[ch.taken - 1];
    DeliveredFromBuffer(BufferAfter(c.Buffer(i), ch.arrived[..ch.taken - 1]), ch.arrived[ch.taken - 1]);
  }

  /** A move that is neither a recv nor a callback at position i leaves the channel there as it is. */
  lemma ChannelStays(c: Config, s: State, a: nat, i: nat)
    requires WellFormed(c, s) && Enabled(c, s, Move(a)) && i < |s.channel|
    requires s.pc[a].ToRecv? || s.pc[a].ToCallback? ==> s.pc[a].pos != i
    ensures var s' := Step(c, s, Move(a));
      |s'.owner| == |s'.channel| == |s.channel| && s'.channel[i] == s.channel[i]
  {}

  /** A handler in the receive loop of position i is not disturbed by the moves of others. */
  lemma DrainerStays(c: Config, s: State, a: nat, i: nat)
    requires Inv(c, s) && Enabled(c, s, Move(a)) && i < |s.owner| && BeingDrained(s, i) && s.owner[i] != Held(a)
    ensures var s' := Step(c, s, Move(a));
      && |s'.owner| == |s.owner| && s'.owner[i] == s.owner[i]
      && |s'.pc| == |s.pc| && s'.pc[s.owner[i].agent] == s.pc[s.owner[i].agent]
  {
    assert LockOk(s, i);
    assert !Holds(s.pc[a], i) && s.owner[i] != Free;
  }

  /** Only the handler that locks position i after its search starts a receive loop there. */
  lemma NoDrainerAppears(c: Config, s: State, a: nat, i: nat)
    requires Inv(c, s) && Enabled(c, s, Move(a)) && i < |s.owner| && !BeingDrained(s, i)
    ensures |Step(c, s, Move(a)).owner| == |s.owner|
    ensures BeingDrained(Step(c, s, Move(a)), i) <==> s.pc[a] == Found(i)
    ensures !InCallback(Step(c, s, Move(a)), i)
  {
    assert LockOk(s, i);
  }

  lemma OtherMoveKeepsChannel(c: Config, s: State, a: nat, i: nat)
    requires Inv(c, s) && Enabled(c, s, Move(a)) && i < |s.channel| && ChannelOk(c, s, i)
    requires s.pc[a].ToRecv? || s.pc[a].ToCallback? ==> s.pc[a].pos != i
    ensures var s' := Step(c, s, Move(a)); |s'.owner| == |s'.channel| == |s.channel| && ChannelOk(c, s', i)
  {
    ChannelStays(c, s, a, i);
    if BeingDrained(s, i) {
      assert LockOk(s, i);
      DrainerStays(c, s, a, i);
    } else {
      NoDrainerAppears(c, s, a, i);
    }
  }

  lemma MoveKeepsChannel(c: Config, s: State, a: nat, i: nat)
    requires Inv(c, s) && Enabled(c, s, Move(a)) && i < |s.channel| && ChannelOk(c, s, i)
    ensures var s' := Step(c, s, Move(a)); |s'.owner| == |s'.channel| == |s.channel| && ChannelOk(c, s', i)
  {
    var p := s.pc[a];
    if p.ToRecv? && p.pos == i {
      RecvKeepsChannel(c, s, a);
    } else if p.ToCallback? && p.pos == i {
      CallbackKeepsChannel(c, s, a);
    } else {
      OtherMoveKeepsChannel(c, s, a, i);
    }
  }

  lemma {:induction false} RunKeepsChannels(c: Config, s: State, run: seq<Label>)
    requires Inv(c, s) && ChannelsOk(c, s) && IsRun(c, s, run)
    ensures Inv(c, After(c, s, run)) && ChannelsOk(c, After(c, s, run))
    decreases |run|
  {
    if run != [] {
      var s' := Step(c, s, run[0]);
      StepKeepsInv(c, s, run[0]);
      forall i: nat | i < |s'.channel| ensures ChannelOk(c, s', i) {
        match run[0] {
          case Move(a) => MoveKeepsChannel(c, s, a, i);
          case Arrive(j, d) => ArriveKeepsChannel(c, s, j, d, i);
        }
      }
      RunKeepsChannels(c, s', run[1..]);
    }
  }

  lemma InitChannels(c: Config)
    ensures ChannelsOk(c, Init(c))
  {}

  /** The datagram that a label brings to position i, if any. */
  function Brought(l: Label, i: nat): seq<Datagram> {
    if l.Arrive? && l.pos == i then [l.datagram] else []
  }

  /** The datagrams that a run brings to position i, in the order in which they arrive. */
  function ArrivedAt(run: seq<Label>, i: nat): seq<Datagram> {
    if run == [] then [] else Brought(run[0], i) + ArrivedAt(run[1..], i)
  }

  lemma StepArrived(c: Config, s: State, l: Label, i: nat)
    requires Enabled(c, s, l) && i < |s.channel|
    ensures |Step(c, s, l).channel| == |s.channel|
    ensures Step(c, s, l).channel[i].arrived == s.channel[i].arrived + Brought(l, i)
  {}

  lemma ArrivedAtFirst(was: seq<Datagram>, run: seq<Label>, i: nat)
    requires run != []
    ensures was + Brought(run[0], i) + ArrivedAt(run[1..], i) == was + ArrivedAt(run, i)
  {}

  /** A socket holds its datagrams in the order of their arrival; nothing else adds to them or takes any away. */
  lemma {:induction false} ArrivedInOrder(c: Config, s: State, run: seq<Label>, i: nat)
    requires IsRun(c, s, run) && i < |s.channel|
    ensures |After(c, s, run).channel| == |s.channel|
    ensures After(c, s, run).channel[i].arrived == s.channel[i].arrived + ArrivedAt(run, i)
    decreases |run|
  {
    if run == [] {
      assert s.channel[i].arrived + [] == s.channel[i].arrived;
    } else {
      StepArrived(c, s, run[0], i);
      ArrivedInOrder(c, Step(c, s, run[0]), run[1..], i);
      ArrivedAtFirst(s.channel[i].arrived, run, i);
    }
  }

  /** Any number of handlers may drain one socket, in any interleaving and with datagrams arriving meanwhile:
      the callbacks of a connection get its datagrams once each, in socket order, each as Delivered says; only
      the datagram in the hands of the handler that holds the connection's lock may still be owed its call. */
  lemma CallbacksInSocketOrder(c: Config, run: seq<Label>, i: nat)
    requires IsRun(c, Init(c), run) && 1 <= i <= c.Last()
    ensures var s := After(c, Init(c), run);
      && |s.owner| == |s.channel| == c.Last() + 1
      && var ch, size := s.channel[i], c.Size(i);
         && ch.arrived == c.Queued(i) + ArrivedAt(run, i)
         && ch.taken <= |ch.arrived|
         && var done := if InCallback(s, i) then ch.taken - 1 else ch.taken;
            0 <= done && ch.calls == CallsFor(ch.arrived[..done], size)
  {
    InitInv(c);
    InitChannels(c);
    RunKeepsChannels(c, Init(c), run);
    ArrivedInOrder(c, Init(c), run, i);
    assert ChannelOk(c, After(c, Init(c), run), i);
  }

  /** In every run the k-th callback of a connection is for the k-th datagram, in the order of arrival, that recv
      does not return 0 for.  It gets what fits of that datagram with the last byte overwritten by zero, so it sees
      it unaltered if and only if the datagram fits the buffer and already ends in a zero byte. */
  lemma CallIntactIff(c: Config, run: seq<Label>, i: nat, k: nat)
    requires IsRun(c, Init(c), run) && 1 <= i <= c.Last() && i < |After(c, Init(c), run).channel|
    requires k < |After(c, Init(c), run).channel[i].calls|
    ensures var call, size := After(c, Init(c), run).channel[i].calls[k], c.Size(i);
      var handed := Handed(c.Queued(i) + ArrivedAt(run, i), size);
      && k < |handed|
      && IsDelivery(call, handed[k], size)
      && (call.text == handed[k] <==> |handed[k]| <= size && handed[k][|handed[k]| - 1] == 0)
  {
    CallbacksInSocketOrder(c, run, i);
    var s := After(c, Init(c), run);
    var ch, size := s.channel[i], c.Size(i);
    var done := if InCallback(s, i) then ch.taken - 1 else ch.taken;
    var part := ch.arrived[..done];
    CallsAreForHanded(part, size, k);
    HandedPrefix(ch.arrived, done, size);
    DeliveredIsDelivery(Handed(part, size)[k], size);
    DeliveredIntactIff(Handed(part, size)[k], size);
  }

  // ---------------------------------------------------------------- outcome

  /** How an agent must end, read off the list alone. */
  predicate IsOutcome(c: Config, g: Agent, p: Pc) {
    match p
    case NotFound => g.Finder? && c.NoMatchUpTo(g, c.Last())
    case Found(q) => g.Finder? && c.FirstMatch(g, q)
    case Drained(q) => g.Handler? && c.FirstMatch(g, q)
    case _ => false
  }

  /** Whenever every agent asks for TCP or UDP and every handler's descriptor is registered, a complete run
      has every agent at the outcome that the list prescribes and every lock free. */
  lemma MaximalRunOutcome(c: Config, run: seq<Label>)
    requires c.AllSockets() && c.Registered()
    requires IsRun(c, Init(c), run) && Stuck(c, After(c, Init(c), run))
    ensures var s := After(c, Init(c), run);
      && !s.crashed
      && |s.pc| == |c.agents| && |s.owner| == c.Last() + 1
      && (forall a: nat :: a < |c.agents| ==> IsOutcome(c, c.agents[a], s.pc[a]))
      && (forall i: nat :: i <= c.Last() ==> s.owner[i] == Free)
  {
    SafeNeverDeadlocks(c);
    InitInv(c);
    RunKeepsInv(c, Init(c), run);
    var s := After(c, Init(c), run);
    assert AllFinished(c, s);
    forall a: nat | a < |c.agents| ensures IsOutcome(c, c.agents[a], s.pc[a]) {
      assert Searched(c, c.agents[a], s.pc[a]) && c.agents[a].IsSocket();
    }
    forall i: nat | i <= c.Last() ensures s.owner[i] == Free {
      assert LockOk(s, i);
    }
  }

  /** From wherever TCP and UDP agents with registered handlers have got to, they can complete without further
      datagrams. */
  lemma {:induction false} CanComplete(c: Config, s: State) returns (run: seq<Label>)
    requires c.AllSockets() && c.Registered() && Inv(c, s)
    ensures IsRun(c, s, run) && Arrivals(run) == 0 && Stuck(c, After(c, s, run))
    decreases Potential(c, s)
  {
    run := [];
    if !AllFinished(c, s) {
      assert forall a: nat :: a < |s.pc| ==> Searched(c, c.agents[a], s.pc[a]) && c.agents[a].IsSocket();
      var b := FindMover(c, s);
      StepKeepsInv(c, s, Move(b));
      MoveLowersPotential(c, s, b);
      var rest := CanComplete(c, Step(c, s, Move(b)));
      run := [Move(b)] + rest;
      assert run[1..] == rest;
    }
  }

  lemma OutcomeIsUnique(c: Config, g: Agent, p: Pc, q: Pc)
    requires IsOutcome(c, g, p) && IsOutcome(c, g, q)
    ensures p == q
  {
    if p != NotFound && q != NotFound {
      assert c.Matches(g, p.pos) && c.Matches(g, q.pos);
    }
  }

  /** All complete interleavings leave the agents and the locks in the same positions. */
  lemma PositionsAgree(c: Config, run: seq<Label>, run': seq<Label>)
    requires c.AllSockets() && c.Registered()
    requires IsRun(c, Init(c), run) && Stuck(c, After(c, Init(c), run))
    requires IsRun(c, Init(c), run') && Stuck(c, After(c, Init(c), run'))
    ensures After(c, Init(c), run).pc == After(c, Init(c), run').pc
    ensures After(c, Init(c), run).owner == After(c, Init(c), run').owner
  {
    MaximalRunOutcome(c, run);
    MaximalRunOutcome(c, run');
    var s, s' := After(c, Init(c), run), After(c, Init(c), run');
    forall a: nat | a < |c.agents| ensures s.pc[a] == s'.pc[a] {
      OutcomeIsUnique(c, c.agents[a], s.pc[a], s'.pc[a]);
    }
    assert s.pc == s'.pc && s.owner == s'.owner;
  }

  // ---------------------------------------------- determinacy of the channels

  /** How far a handler that starts at the k-th datagram gets: behind the next one that stops it. */
  function Next(ds: seq<Datagram>, k: nat, size: nat): (r: nat)
    requires k <= |ds|
    ensures k <= r <= |ds|
    decreases |ds| - k
  {
    if k == |ds| then k else if Stops(ds[k], size) then k + 1 else Next(ds, k + 1, size)
  }

  /** How far n handlers get, one after the other. */
  function NextN(ds: seq<Datagram>, n: nat, size: nat): (r: nat)
    ensures r <= |ds|
  {
    if n == 0 then 0 else Next(ds, NextN(ds, n - 1, size), size)
  }

  /** The handler has left the receive loop of position i. */
  predicate HasStopped(p: Pc, i: nat) {
    p == Releasing(i) || p == Drained(i)
  }

  function Stopped(pc: seq<Pc>, i: nat): nat {
    if pc == [] then 0 else (if HasStopped(pc[0], i) then 1 else 0) + Stopped(pc[1..], i)
  }

  lemma {:induction false} StoppedUpdate(pc: seq<Pc>, a: nat, p: Pc, i: nat)
    requires a < |pc|
    ensures Stopped(pc[a := p], i) ==
            Stopped(pc, i) - (if HasStopped(pc[a], i) then 1 else 0) + (if HasStopped(p, i) then 1 else 0)
    decreases |pc|
  {
    if a == 0 {
      assert pc[a := p][1..] == pc[1..];
    } else {
      assert pc[a := p][1..] == pc[1..][a - 1 := p];
      StoppedUpdate(pc[1..], a - 1, p, i);
    }
  }

  lemma {:induction false} StoppedAtStart(n: nat, i: nat)
    ensures Stopped(seq(n, _ => Start), i) == 0
  {
    if n > 0 {
      assert seq(n, _ => Start)[1..] == seq(n - 1, _ => Start);
      StoppedAtStart(n - 1, i);
    }
  }

  /** Without arrivals, what has been taken depends only on how many handlers have been through. */
  predicate ProgressOk(c: Config, s: State, i: nat)
    requires i < |s.owner| == |s.channel|
  {
    var ch, size, k := s.channel[i], c.Size(i), Stopped(s.pc, i);
    && ch.arrived == c.Queued(i)
    && ch.taken <= |ch.arrived|
    && if BeingDrained(s, i) then Next(ch.arrived, ch.taken, size) == NextN(ch.arrived, k + 1, size)
       else ch.taken == NextN(ch.arrived, k, size)
  }

  lemma RecvKeepsProgress(c: Config, s: State, a: nat)
    requires Inv(c, s) && Enabled(c, s, Move(a)) && s.pc[a].ToRecv? && ProgressOk(c, s, s.pc[a].pos)
    ensures ProgressOk(c, Step(c, s, Move(a)), s.pc[a].pos)
  {
    var i := s.pc[a].pos;
    var s' := Step(c, s, Move(a));
    assert LockOk(s, i);
    assert s.owner[i] == Held(a) && s'.owner[i] == Held(a);
    StoppedUpdate(s.pc, a, s'.pc[a], i);
  }

  /** A move other than a recv at i leaves the number of handlers gone through. */
  lemma StoppedStays(c: Config, s: State, a: nat, i: nat)
    requires Inv(c, s) && Enabled(c, s, Move(a)) && i < |s.channel| && s.pc[a] != ToRecv(i)
    ensures Stopped(Step(c, s, Move(a)).pc, i) == Stopped(s.pc, i)
  {
    var p' := Step(c, s, Move(a)).pc[a];
    StepKeepsSearch(c, s, a);
    StoppedUpdate(s.pc, a, p', i);
    assert HasStopped(p', i) <==> HasStopped(s.pc[a], i);
  }

  lemma CallbackKeepsProgress(c: Config, s: State, a: nat)
    requires Inv(c, s) && Enabled(c, s, Move(a)) && s.pc[a].ToCallback? && ProgressOk(c, s, s.pc[a].pos)
    ensures ProgressOk(c, Step(c, s, Move(a)), s.pc[a].pos)
  {
    var i := s.pc[a].pos;
    assert LockOk(s, i);
    assert s.owner[i] == Held(a) && Step(c, s, Move(a)).owner[i] == Held(a);
    StoppedStays(c, s, a, i);
  }

  lemma OtherMoveKeepsProgress(c: Config, s: State, a: nat, i: nat)
    requires Inv(c, s) && Enabled(c, s, Move(a)) && i < |s.channel| && ProgressOk(c, s, i)
    requires s.pc[a].ToRecv? || s.pc[a].ToCallback? ==> s.pc[a].pos != i
    ensures var s' := Step(c, s, Move(a)); |s'.owner| == |s'.channel| == |s.channel| && ProgressOk(c, s', i)
  {
    ChannelStays(c, s, a, i);
    StoppedStays(c, s, a, i);
    if BeingDrained(s, i) {
      assert LockOk(s, i);
      DrainerStays(c, s, a, i);
    } else {
      NoDrainerAppears(c, s, a, i);
    }
  }

  lemma MoveKeepsProgress(c: Config, s: State, a: nat, i: nat)
    requires Inv(c, s) && Enabled(c, s, Move(a)) && i < |s.channel| && ProgressOk(c, s, i)
    ensures var s' := Step(c, s, Move(a)); |s'.owner| == |s'.channel| == |s.channel| && ProgressOk(c, s', i)
  {
    var p := s.pc[a];
    if p.ToRecv? && p.pos == i {
      RecvKeepsProgress(c, s, a);
    } else if p.ToCallback? && p.pos == i {
      CallbackKeepsProgress(c, s, a);
    } else {
      OtherMoveKeepsProgress(c, s, a, i);
    }
  }

  lemma {:induction false} RunKeepsProgress(c: Config, s: State, run: seq<Label>, i: nat)
    requires Inv(c, s) && i < |s.channel| && ProgressOk(c, s, i)
    requires IsRun(c, s, run) && Arrivals(run) == 0
    ensures var s' := After(c, s, run); |s'.owner| == |s'.channel| == |s.channel| && ProgressOk(c, s', i)
    decreases |run|
  {
    if run != [] {
      StepKeepsInv(c, s, run[0]);
      MoveKeepsProgress(c, s, run[0].agent, i);
      RunKeepsProgress(c, Step(c, s, run[0]), run[1..], i);
    }
  }

  /** How many of the agents are handlers of the connection at position i. */
  function HandlersOf(c: Config, gs: seq<Agent>, i: nat): nat {
    if gs == [] then 0
    else (if gs[0].Handler? && c.FirstMatch(gs[0], i) then 1 else 0) + HandlersOf(c, gs[1..], i)
  }

  lemma StoppedIffHandler(c: Config, g: Agent, p: Pc, i: nat)
    requires IsOutcome(c, g, p)
    ensures HasStopped(p, i) <==> g.Handler? && c.FirstMatch(g, i)
  {
    if g.Handler? && c.FirstMatch(g, i) { OutcomeIsUnique(c, g, p, Drained(i)); }
  }

  /** At the end exactly a connection's handlers have been through its receive loop. */
  lemma {:induction false} StoppedAreHandlers(c: Config, gs: seq<Agent>, pc: seq<Pc>, i: nat)
    requires |gs| == |pc| && forall a: nat :: a < |gs| ==> IsOutcome(c, gs[a], pc[a])
    ensures Stopped(pc, i) == HandlersOf(c, gs, i)
    decreases |gs|
  {
    if gs != [] {
      StoppedIffHandler(c, gs[0], pc[0], i);
      StoppedAreHandlers(c, gs[1..], pc[1..], i);
    }
  }

  /** Without arrivals, a complete run leaves each socket drained as far as its handlers, one after the other,
      get, with the buffer and the callbacks that follow from that: all of it read off the configuration. */
  lemma FinalChannel(c: Config, run: seq<Label>, i: nat)
    requires c.AllSockets() && c.Registered() && i <= c.Last()
    requires IsRun(c, Init(c), run) && Stuck(c, After(c, Init(c), run)) && Arrivals(run) == 0
    ensures var s, ds, size := After(c, Init(c), run), c.Queued(i), c.Size(i);
      && |s.channel| == c.Last() + 1
      && var k := NextN(ds, HandlersOf(c, c.agents, i), size);
         s.channel[i] == Channel(ds, k, BufferAfter(c.Buffer(i), ds[..k]), CallsFor(ds[..k], size))
  {
    InitInv(c);
    InitChannels(c);
    StoppedAtStart(|c.agents|, i);
    RunKeepsChannels(c, Init(c), run);
    RunKeepsProgress(c, Init(c), run, i);
    MaximalRunOutcome(c, run);
    var s := After(c, Init(c), run);
    StoppedAreHandlers(c, c.agents, s.pc, i);
    assert ChannelOk(c, s, i);
  }

  /** A failing run for any datagram that does not end in a zero byte, or does not fit: one handler of one
      connection hands it over altered. */
  lemma DatagramAltered(d: Datagram, buffer: seq<Byte>, fd: int) returns (run: seq<Label>)
    requires d != [] && buffer != [] && !(|d| <= |buffer| && d[|d| - 1] == 0)
    ensures var c := Config([Conn(Udp, fd, buffer)], [Handler(fd)], [[], [d]]);
      && IsRun(c, Init(c), run) && |After(c, Init(c), run).channel| == 2
      && var calls := After(c, Init(c), run).channel[1].calls;
         |calls| == 1 && calls[0] == Delivered(d, |buffer|) && calls[0].text != d
  {
    var c := Config([Conn(Udp, fd, buffer)], [Handler(fd)], [[], [d]]);
    assert c.FirstMatch(c.agents[0], 1);
    InitInv(c);
    run := CanComplete(c, Init(c));
    FinalChannel(c, run, 1);
    assert c.agents[1..] == [] && HandlersOf(c, c.agents, 1) == 1;
    assert c.Queued(1) == [d] && NextN([d], 0, |buffer|) == 0;
    assert Next([d], 0, |buffer|) == 1 && NextN([d], 1, |buffer|) == 1;
    assert [d][..1] == [d] && [d][..0] == [];
    assert CallsFor([d], |buffer|) == [Delivered(d, |buffer|)];
    DeliveredIntactIff(d, |buffer|);
  }

  /** Determinacy: without further arrivals all complete interleavings of TCP and UDP agents whose handlers are
      registered end in the same state, down to buffers, callbacks and datagrams left over. */
  lemma AllSchedulesAgree(c: Config, run: seq<Label>, run': seq<Label>)
    requires c.AllSockets() && c.Registered()
    requires IsRun(c, Init(c), run) && Stuck(c, After(c, Init(c), run)) && Arrivals(run) == 0
    requires IsRun(c, Init(c), run') && Stuck(c, After(c, Init(c), run')) && Arrivals(run') == 0
    ensures After(c, Init(c), run) == After(c, Init(c), run')
  {
    PositionsAgree(c, run, run');
    MaximalRunOutcome(c, run);
    MaximalRunOutcome(c, run');
    var s, s' := After(c, Init(c), run), After(c, Init(c), run');
    FinalChannel(c, run, 0);
    FinalChannel(c, run', 0);
    forall i: nat | i <= c.Last() ensures s.channel[i] == s'.channel[i] {
      FinalChannel(c, run, i);
      FinalChannel(c, run', i);
    }
    assert s.channel == s'.channel;
  }
}
