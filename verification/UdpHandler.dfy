/**
  `aIOUDPSigHandler` of async_UDP_multithread as code, run by one thread: search, lock, drain, unlock.
 */
module UdpHandler {
  import opened CTypes
  import opened UdpDrain
  import opened LockCoupling
  import opened SocketOrder
  import opened FindConnection

  /** One round of the receive loop leads back to its head, with one datagram more taken. */
  lemma Round(c: Config, s: State, a: nat) returns (s': State)
    requires Inv(c, s) && Enabled(c, s, Move(a)) && s.pc[a].ToRecv?
    requires Step(c, s, Move(a)).pc[a].ToCallback?
    ensures var s1 := Step(c, s, Move(a)); Enabled(c, s1, Move(a)) && s' == Step(c, s1, Move(a))
    ensures Inv(c, s')
    ensures var i := s.pc[a].pos;
      && |s'.channel| == |s.channel|
      && s' == s.(channel := s.channel[i := s'.channel[i]])
      && s'.channel[i].arrived == s.channel[i].arrived
      && s'.channel[i].taken == s.channel[i].taken + 1
  {
    var s1 := Step(c, s, Move(a));
    StepKeepsInv(c, s, Move(a));
    s' := Step(c, s1, Move(a));
    StepKeepsInv(c, s1, Move(a));
    assert s'.pc == s.pc;
  }

  /** The receive loop of agent a, which holds the lock, up to its end. */
  lemma {:induction false} DrainRun(c: Config, s: State, a: nat) returns (run: seq<Label>)
    requires Inv(c, s) && !s.crashed && a < |s.pc| && s.pc[a].ToRecv?
    requires s.channel[s.pc[a].pos].taken <= |s.channel[s.pc[a].pos].arrived|
    ensures IsRun(c, s, run) && forall k :: 0 <= k < |run| ==> run[k] == Move(a)
    ensures var i, s' := s.pc[a].pos, After(c, s, run);
      && |s'.channel| == |s.channel|
      && s' == s.(pc := s.pc[a := Releasing(i)], channel := s.channel[i := s'.channel[i]])
      && s'.channel[i].arrived == s.channel[i].arrived
      && s'.channel[i].taken == Next(s.channel[i].arrived, s.channel[i].taken, c.Size(i))
    decreases |s.channel[s.pc[a].pos].arrived| - s.channel[s.pc[a].pos].taken
  {
    var i := s.pc[a].pos;
    run := [Move(a)];
    assert run[1..] == [];
    if Step(c, s, Move(a)).pc[a].ToCallback? {
      var s2 := Round(c, s, a);
      var rest := DrainRun(c, s2, a);
      run := [Move(a), Move(a)] + rest;
      assert run[1..] == [Move(a)] + rest && run[1..][1..] == rest;
      var s' := After(c, s2, rest);
      assert s'.channel == s.channel[i := s'.channel[i]];
    }
  }

  /** Behind the next datagram that stops the loop, seen from the start of the socket. */
  lemma {:induction false} NextIsTaken(ds: seq<Datagram>, k: nat, size: nat)
    requires k <= |ds|
    ensures Next(ds, k, size) == k + Taken(ds[k..], size)
    decreases |ds| - k
  {
    if k < |ds| {
      assert ds[k..][1..] == ds[k + 1..] && ds[k..][0] == ds[k];
      if !Stops(ds[k], size) { NextIsTaken(ds, k + 1, size); }
    }
  }

  /** The channel at position i after its only handler. */
  function DrainedChannel(c: Config, i: nat): Channel {
    var ds, size := c.Queued(i), c.Size(i);
    var t := Taken(ds, size);
    Channel(ds, t, BufferAfter(c.Buffer(i), ds[..t]), CallsFor(ds[..t], size))
  }

  /** The run, in which the only agent moves, has led to p with the channel at position i drained. */
  ghost predicate ReachedDrained(c: Config, run: seq<Label>, locked: seq<bool>, p: Pc, i: nat) {
    && i <= c.Last()
    && IsRun(c, Init(c), run)
    && After(c, Init(c), run) == State(Owners(locked), [p], Init(c).channel[i := DrainedChannel(c, i)], false)
    && forall k :: 0 <= k < |run| ==> run[k] == Move(0)
  }

  lemma LockFound(c: Config, locked: seq<bool>, i: nat)
    requires |c.agents| == 1 && c.agents[0].Handler?
    requires |locked| == c.Last() + 1 && 1 <= i <= c.Last() && !locked[i]
    ensures IsStep(c, locked, Found(i), i, true, ToRecv(i))
  {
    OwnersUpdate(locked, i, true);
  }

  lemma ReachDrained(c: Config, run: seq<Label>, locked: seq<bool>, i: nat) returns (run': seq<Label>)
    requires Reached(c, run, locked, ToRecv(i)) && 1 <= i <= c.Last()
    ensures ReachedDrained(c, run', locked, Releasing(i), i)
  {
    var s := Alone(c, locked, ToRecv(i));
    InitInv(c);
    InitChannels(c);
    RunKeepsInv(c, Init(c), run);
    var more := DrainRun(c, s, 0);
    RunsConcatenate(c, Init(c), run, more);
    run' := run + more;
    RunKeepsChannels(c, Init(c), run');
    var s' := After(c, Init(c), run');
    assert ChannelOk(c, s', i);
    NextIsTaken(c.Queued(i), 0, c.Size(i));
    assert c.Queued(i)[0..] == c.Queued(i);
    assert s'.channel[i] == DrainedChannel(c, i);
  }

  lemma ReachUnlocked(c: Config, run: seq<Label>, locked: seq<bool>, i: nat)
    requires ReachedDrained(c, run, locked, Releasing(i), i)
    requires |c.agents| == 1 && |locked| == c.Last() + 1 && 1 <= i
    ensures ReachedDrained(c, run + [Move(0)], locked[i := false], Drained(i), i)
  {
    InitInv(c);
    RunKeepsInv(c, Init(c), run);
    OwnersUpdate(locked, i, false);
    RunExtends(c, Init(c), run, Move(0));
  }

  lemma ReachCrash(c: Config, run: seq<Label>, locked: seq<bool>)
    requires Reached(c, run, locked, NotFound) && c.agents[0].Handler?
    ensures IsRun(c, Init(c), run + [Move(0)])
    ensures After(c, Init(c), run + [Move(0)]) == State(Owners(locked), [Crashed], Init(c).channel, true)
  {
    InitInv(c);
    RunKeepsInv(c, Init(c), run);
    RunExtends(c, Init(c), run, Move(0));
  }

  /** The list of connections with their sockets and buffers, those of the i-th at i - 1. */
  class Server {
    const list: Connections
    const sockets: seq<Socket>
    const buffers: seq<array<Byte>>

    constructor (list: Connections, sockets: seq<Socket>, buffers: seq<array<Byte>>)
      ensures this.list == list && this.sockets == sockets && this.buffers == buffers
    {
      this.list, this.sockets, this.buffers := list, sockets, buffers;
    }

    /** No lock is held, and c describes the connections and one handler for fd. */
    ghost predicate Idle(c: Config, fd: int)
      reads list.locked, sockets, buffers
    {
      && list.locked.Length == |list.conns| + 1 && OnlyLocked(list.locked[..], {})
      && |sockets| == |buffers| == |list.conns|
      && c.conns == list.conns && c.agents == [Handler(fd)]
      && forall i: nat :: i < |sockets| ==>
           c.Queued(i + 1) == sockets[i].pending && c.Buffer(i + 1) == buffers[i][..]
    }

    /** The handler is a run of the step relation by one agent, whose last state is the one left behind.  It
        crashes if and only if its descriptor is not registered; otherwise it drains the first connection with
        that descriptor, and touches no other. */
    method Handle(fd: int, ghost c: Config)
      returns (crashed: bool, found: nat, calls: seq<Call>, ghost run: seq<Label>)
      requires Idle(c, fd)
      modifies list.locked, sockets, buffers
      ensures IsRun(c, Init(c), run) && forall k :: 0 <= k < |run| ==> run[k] == Move(0)
      ensures crashed <==> !c.Registered()
      ensures crashed ==> forall j: nat :: j < |list.conns| ==> list.conns[j].kind != Udp || list.conns[j].fd != fd
      ensures !crashed ==>
        && 1 <= found <= |list.conns| && list.conns[found - 1].kind == Udp && list.conns[found - 1].fd == fd
        && forall j: nat :: j < found - 1 ==> list.conns[j].kind != Udp || list.conns[j].fd != fd
      ensures OnlyLocked(list.locked[..], {})
      ensures crashed ==>
        && After(c, Init(c), run) == State(Owners(list.locked[..]), [Crashed], Init(c).channel, true)
        && unchanged(sockets) && unchanged(buffers)
      ensures !crashed ==>
        && 1 <= found <= |sockets| == |buffers| == c.Last()
        && c.FirstMatch(c.agents[0], found)
        && var ds, t := c.Queued(found), Taken(c.Queued(found), c.Size(found));
           && After(c, Init(c), run) ==
              State(Owners(list.locked[..]), [Drained(found)],
                    Init(c).channel[found := Channel(ds, t, buffers[found - 1][..], calls)], false)
           && sockets[found - 1].pending == ds[t..]
      ensures !crashed ==>
        && (forall o :: o in sockets && o != sockets[found - 1] ==> o.pending == old(o.pending))
        && (forall b :: b in buffers && b != buffers[found - 1] ==> b[..] == old(b[..]))
    {
      found, run := list.FindConnection(Udp, fd, c);
      calls := [];
      if found == 0 {                               // line 177 reads through NULL
        ReachCrash(c, run, list.locked[..]);
        run := run + [Move(0)];
        crashed := true;
        return;
      }
      crashed := false;
      LockFound(c, list.locked[..], found);
      run := list.Set(found, true, c, run, Found(found), ToRecv(found));
      run := ReachDrained(c, run, list.locked[..], found);
      calls := Drain(sockets[found - 1], buffers[found - 1]);
      ReachUnlocked(c, run, list.locked[..], found);
      list.locked[found] := false;
      run := run + [Move(0)];
    }
  }
}
