/**
  `findConnection` of async_UDP_multithread as code, run by one thread.
 */
module FindConnection {
  import opened LockCoupling

  /** Exactly the locks at the given positions are held. */
  ghost predicate OnlyLocked(locked: seq<bool>, held: set<nat>) {
    forall i: nat :: i < |locked| ==> (locked[i] <==> i in held)
  }

  /** How the comparison of one connection ends. */
  datatype Verdict = Hit | Miss | Leak

  function Owners(locked: seq<bool>): seq<Owner> {
    seq(|locked|, i requires 0 <= i < |locked| => if locked[i] then Held(0) else Free)
  }

  /** The state in which the only agent is at p and holds the given locks. */
  function Alone(c: Config, locked: seq<bool>, p: Pc): State {
    State(Owners(locked), [p], Init(c).channel, false)
  }

  /** The run, in which the only agent moves, has led to p and the given locks. */
  ghost predicate Reached(c: Config, run: seq<Label>, locked: seq<bool>, p: Pc) {
    && |c.agents| == 1 && |locked| == c.Last() + 1
    && IsRun(c, Init(c), run) && After(c, Init(c), run) == Alone(c, locked, p)
    && forall i :: 0 <= i < |run| ==> run[i] == Move(0)
  }

  lemma ReachStart(c: Config, locked: seq<bool>)
    requires |c.agents| == 1 && |locked| == c.Last() + 1
    requires OnlyLocked(locked, {})
    ensures Reached(c, [], locked, Start)
  {
    assert Owners(locked) == Init(c).owner;
    assert [Start] == Init(c).pc;
  }

  /** From p, the only agent's next step sets lock i to v and leads to p'. */
  ghost predicate IsStep(c: Config, locked: seq<bool>, p: Pc, i: nat, v: bool, p': Pc) {
    && |c.agents| == 1 && i < |locked| == c.Last() + 1
    && Enabled(c, Alone(c, locked, p), Move(0))
    && Step(c, Alone(c, locked, p), Move(0)) == Alone(c, locked[i := v], p')
  }

  lemma OwnersUpdate(locked: seq<bool>, i: nat, v: bool)
    requires i < |locked|
    ensures Owners(locked[i := v]) == Owners(locked)[i := if v then Held(0) else Free]
  {}

  lemma LockHead(c: Config, locked: seq<bool>)
    requires |c.agents| == 1 && |locked| == c.Last() + 1 && !locked[0]
    ensures IsStep(c, locked, Start, 0, true, Holding(0))
  {
    OwnersUpdate(locked, 0, true);
  }

  lemma LockNext(c: Config, locked: seq<bool>, i: nat)
    requires |c.agents| == 1 && |locked| == c.Last() + 1 && i < c.Last() && !locked[i + 1]
    ensures IsStep(c, locked, Holding(i), i + 1, true, Both(i))
  {
    OwnersUpdate(locked, i + 1, true);
  }

  lemma UnlockPrev(c: Config, locked: seq<bool>, i: nat)
    requires |c.agents| == 1 && |locked| == c.Last() + 1 && i < c.Last() && c.agents[0].IsSocket()
    ensures IsStep(c, locked, Both(i), i, false,
                   if c.Matches(c.agents[0], i + 1) then Matched(i + 1) else Holding(i + 1))
  {
    OwnersUpdate(locked, i, false);
  }

  lemma UnlockFound(c: Config, locked: seq<bool>, i: nat)
    requires |c.agents| == 1 && |locked| == c.Last() + 1 && 1 <= i <= c.Last()
    ensures IsStep(c, locked, Matched(i), i, false, Found(i))
  {
    OwnersUpdate(locked, i, false);
  }

  lemma GiveUp(c: Config, locked: seq<bool>)
    requires |c.agents| == 1 && |locked| == c.Last() + 1
    ensures IsStep(c, locked, Holding(c.Last()), c.Last(), false, NotFound)
  {
    OwnersUpdate(locked, c.Last(), false);
  }

  lemma ReachNext(c: Config, run: seq<Label>, locked: seq<bool>, p: Pc, i: nat, v: bool, p': Pc)
    requires Reached(c, run, locked, p) && IsStep(c, locked, p, i, v, p')
    ensures Reached(c, run + [Move(0)], locked[i := v], p')
  {
    RunExtends(c, Init(c), run, Move(0));
  }

  /** A search for another kind returns from inside the switch. */
  lemma ReachLeak(c: Config, run: seq<Label>, locked: seq<bool>, i: nat)
    requires Reached(c, run, locked, Both(i)) && i < c.Last() && !c.agents[0].IsSocket()
    ensures Reached(c, run + [Move(0)], locked, Leaked(i))
  {
    RunExtends(c, Init(c), run, Move(0));
  }

  /** The connection list with its locks, used by one thread. */
  class Connections {
    const conns: seq<Conn>
    const locked: array<bool>   // the head's lock at 0, the i-th connection's at i

    constructor (conns: seq<Conn>)
      ensures this.conns == conns && fresh(locked)
      ensures locked.Length == |conns| + 1 && OnlyLocked(locked[..], {})
    {
      this.conns := conns;
      locked := new bool[|conns| + 1](_ => false);
    }

    /** One lock or unlock, with the step of the agent that it is. */
    method Set(i: nat, v: bool, ghost c: Config, ghost run: seq<Label>, ghost p: Pc, ghost p': Pc)
      returns (ghost run': seq<Label>)
      requires i < locked.Length && Reached(c, run, locked[..], p) && IsStep(c, locked[..], p, i, v, p')
      modifies locked
      ensures Reached(c, run', locked[..], p') && locked[..] == old(locked[..])[i := v]
    {
      ReachNext(c, run, locked[..], p, i, v, p');
      run' := run + [Move(0)];
      locked[i] := v;
    }

    /** c describes this list and one agent that asks for the given connection. */
    ghost predicate Asks(c: Config, kind: Kind, fd: int) {
      c.conns == conns && |c.agents| == 1 && c.agents[0].Wants() == kind && c.agents[0].fd == fd
    }

    /** The switch on the kind: is the connection at position curr the one? */
    method Compare(kind: Kind, fd: int, curr: nat) returns (v: Verdict)
      requires 1 <= curr <= |conns|
      ensures v == if kind !in {Tcp, Udp} then Leak
                   else if conns[curr - 1].kind == kind && conns[curr - 1].fd == fd then Hit
                   else Miss
    {
      match kind {
        case Tcp | Udp =>
          if conns[curr - 1].kind == kind {
            if conns[curr - 1].fd == fd {
              return Hit;
            }
          }
          return Miss;
        case MsgQueue | Serial | NoKind =>
          return Leak;
      }
    }

    /** One pass of the loop: lock the next connection, compare it, and unlock as the comparison says. */
    method Visit(kind: Kind, fd: int, prev: nat, ghost c: Config, ghost run: seq<Label>)
      returns (v: Verdict, ghost run': seq<Label>)
      requires Asks(c, kind, fd) && prev < |conns|
      requires OnlyLocked(locked[..], {prev}) && Reached(c, run, locked[..], Holding(prev))
      modifies locked
      ensures v == if !c.agents[0].IsSocket() then Leak else if c.Matches(c.agents[0], prev + 1) then Hit else Miss
      ensures OnlyLocked(locked[..], match v case Hit => {} case Miss => {prev + 1} case Leak => {prev, prev + 1})
      ensures Reached(c, run', locked[..],
                      match v case Hit => Found(prev + 1) case Miss => Holding(prev + 1) case Leak => Leaked(prev))
    {
      var curr := prev + 1;
      LockNext(c, locked[..], prev);
      run' := Set(curr, true, c, run, Holding(prev), Both(prev));
      v := Compare(kind, fd, curr);
      match v {
        case Hit =>
          UnlockPrev(c, locked[..], prev);
          run' := Set(prev, false, c, run', Both(prev), Matched(curr));
          UnlockFound(c, locked[..], curr);
          run' := Set(curr, false, c, run', Matched(curr), Found(curr));
        case Miss =>
          UnlockPrev(c, locked[..], prev);
          run' := Set(prev, false, c, run', Both(prev), Holding(curr));
        case Leak =>
          ReachLeak(c, run', locked[..], prev);
          run' := run' + [Move(0)];
      }
    }

    /** How a search by the only agent ends. */
    ghost predicate Outcome(c: Config, found: nat, locked: seq<bool>, run: seq<Label>)
      requires |c.agents| == 1
    {
      var g := c.agents[0];
      if g.IsSocket() then
        && OnlyLocked(locked, {})
        && (if found == 0 then c.NoMatchUpTo(g, c.Last()) else c.FirstMatch(g, found))
        && Reached(c, run, locked, if found == 0 then NotFound else Found(found))
      else
        && found == 0
        && OnlyLocked(locked, if c.conns == [] then {} else {0, 1})
        && Reached(c, run, locked, if c.conns == [] then NotFound else Leaked(0))
    }

    method Walk(kind: Kind, fd: int, ghost c: Config) returns (found: nat, ghost run: seq<Label>)
      requires Asks(c, kind, fd)
      requires locked.Length == |conns| + 1 && OnlyLocked(locked[..], {})
      modifies locked
      ensures Outcome(c, found, locked[..], run)
    {
      ghost var g := c.agents[0];
      ReachStart(c, locked[..]);
      LockHead(c, locked[..]);
      var prev := 0;
      run := Set(prev, true, c, [], Start, Holding(0));
      while prev < |conns|
        invariant prev <= |conns| && OnlyLocked(locked[..], {prev})
        invariant c.NoMatchUpTo(g, prev)
        invariant !g.IsSocket() ==> prev == 0
        invariant Reached(c, run, locked[..], Holding(prev))
      {
        var v: Verdict;
        v, run := Visit(kind, fd, prev, c, run);
        match v {
          case Hit => return prev + 1, run;
          case Leak => return 0, run;
          case Miss =>
        }
        prev := prev + 1;
      }
      GiveUp(c, locked[..]);
      run := Set(prev, false, c, run, Holding(prev), NotFound);
      return 0, run;
    }

    /** findConnection: returns the position of the connection, 0 for NULL.  It is a run of the step relation by
        one agent, a plain search or a handler.  A TCP or UDP search gives back every lock; any other kind returns
        with the locks of the head and of the first connection held. */
    method FindConnection(kind: Kind, fd: int, ghost c: Config) returns (found: nat, ghost run: seq<Label>)
      requires Asks(c, kind, fd)
      requires locked.Length == |conns| + 1 && OnlyLocked(locked[..], {})
      modifies locked
      ensures Outcome(c, found, locked[..], run)
      ensures forall i: nat :: i <= |conns| ==>
        (locked[i] <==> kind !in {Tcp, Udp} && conns != [] && i <= 1)
      ensures kind in {Tcp, Udp} && found != 0 ==>
        && found <= |conns| && conns[found - 1].kind == kind && conns[found - 1].fd == fd
        && forall j: nat :: j < found - 1 ==> conns[j].kind != kind || conns[j].fd != fd
      ensures kind in {Tcp, Udp} && found == 0 ==>
        forall j: nat :: j < |conns| ==> conns[j].kind != kind || conns[j].fd != fd
      ensures kind !in {Tcp, Udp} ==> found == 0
    {
      found, run := Walk(kind, fd, c);
      NoMatchInFields(c, c.agents[0]);
      FirstMatchInFields(c, c.agents[0], found);
    }
  }
}
