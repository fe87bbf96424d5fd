/**
  Hand-over-hand locking in async_UDP_multithread: `findConnection` walks the list of
  connections holding each node's lock until it has the next one's, and the UDP handler
  then locks the node it found once more while it drains the socket into the node's buffer.

  The list is fixed during a run.  Position 0 is the list head, which is locked but never
  matched; position i is the i-th connection.  Any number of agents run concurrently, each
  a plain call of `findConnection` or a whole handler; every lock operation, recv and
  callback is one step, and datagrams may arrive at any time.
 */
module LockCoupling {
  import opened CTypes
  import opened UdpDrain

  datatype Kind = NoKind | Tcp | Udp | MsgQueue | Serial

  /** `buffer` is what the connection's buffer holds at first; malloc leaves that open. */
  datatype Conn = Conn(kind: Kind, fd: int, buffer: seq<Byte>)

  datatype Agent =
    | Finder(kind: Kind, fd: int)   // a call findConnection(kind, &fd)
    | Handler(fd: int)              // aIOUDPSigHandler for a signal from fd
  {
    function Wants(): Kind {
      if Finder? then kind else Udp
    }

    /** The two kinds for which the switch in findConnection does not return early. */
    predicate IsSocket() {
      Wants() in {Tcp, Udp}
    }
  }

  /** `queued` holds the datagrams already waiting at each position when the agents start. */
  datatype Config = Config(conns: seq<Conn>, agents: seq<Agent>, queued: seq<seq<Datagram>>) {
    function Last(): nat { |conns| }

    predicate Matches(g: Agent, i: nat) {
      1 <= i <= Last() && conns[i - 1].kind == g.Wants() && conns[i - 1].fd == g.fd
    }

    predicate NoMatchUpTo(g: Agent, p: nat) {
      forall i: nat :: i <= p ==> !Matches(g, i)
    }

    /** q is the first connection in list order that the agent asks for. */
    predicate FirstMatch(g: Agent, q: nat) {
      Matches(g, q) && NoMatchUpTo(g, q - 1)
    }

    function Buffer(i: nat): seq<Byte> {
      if 1 <= i <= Last() then conns[i - 1].buffer else []
    }

    function Size(i: nat): nat {
      |Buffer(i)|
    }

    function Queued(i: nat): seq<Datagram> {
      if i < |queued| then queued[i] else []
    }

    /** Every handler's descriptor belongs to a UDP connection in the list. */
    predicate Registered() {
      forall a: nat :: a < |agents| && agents[a].Handler? ==> !NoMatchUpTo(agents[a], Last())
    }

    predicate AllSockets() {
      forall a: nat :: a < |agents| ==> agents[a].IsSocket()
    }
  }

  datatype Pc =
    | Start                        // about to lock the head
    | Holding(pos: nat)            // holds pos; locks its successor next, or gives up at the end
    | Both(pos: nat)               // holds pos and pos + 1; compares the latter
    | Matched(pos: nat)            // found, predecessor released, pos still held
    | Found(pos: nat)              // findConnection has returned the node at pos
    | NotFound                     // findConnection has returned NULL
    | Leaked(pos: nat)             // returned from inside the switch with pos and pos + 1 held
    | ToRecv(pos: nat)             // in the receive loop, about to call recv
    | ToCallback(pos: nat, n: nat) // n > 0 bytes received; terminates the text and calls back
    | Releasing(pos: nat)          // the loop is over; about to unlock pos
    | Drained(pos: nat)            // the handler has returned
    | Crashed                      // the handler has dereferenced NULL

  datatype Owner = Free | Held(agent: nat)

  /** A connection's socket and buffer: all datagrams that have arrived, how many of them recv has taken,
      the buffer, and the callbacks made. */
  datatype Channel = Channel(arrived: seq<Datagram>, taken: nat, buffer: seq<Byte>, calls: seq<Call>)

  /** `crashed` says that the process has died. */
  datatype State = State(owner: seq<Owner>, pc: seq<Pc>, channel: seq<Channel>, crashed: bool)

  datatype Label = Move(agent: nat) | Arrive(pos: nat, datagram: Datagram)

  function Init(c: Config): State {
    State(seq(c.Last() + 1, _ => Free), seq(|c.agents|, _ => Start),
          seq(c.Last() + 1, i requires 0 <= i => Channel(c.Queued(i), 0, c.Buffer(i), [])),
          false)
  }

  predicate PcInRange(c: Config, p: Pc) {
    match p
    case Holding(i) => i <= c.Last()
    case Both(i) => i < c.Last()
    case Leaked(i) => i < c.Last()
    case Matched(i) => 1 <= i <= c.Last()
    case Found(i) => 1 <= i <= c.Last()
    case ToRecv(i) => 1 <= i <= c.Last()
    case ToCallback(i, n) => 1 <= i <= c.Last() && 0 < n <= c.Size(i)
    case Releasing(i) => 1 <= i <= c.Last()
    case Drained(i) => 1 <= i <= c.Last()
    case _ => true
  }

  predicate WellFormed(c: Config, s: State) {
    && |s.owner| == |s.channel| == c.Last() + 1
    && |s.pc| == |c.agents|
    && (forall a: nat :: a < |s.pc| ==> PcInRange(c, s.pc[a]))
    && (forall i: nat :: i < |s.channel| ==> |s.channel[i].buffer| == c.Size(i))
  }

  predicate Finished(g: Agent, p: Pc) {
    p.Leaked? || p.Drained? || (g.Finder? && (p.Found? || p == NotFound))
  }

  /** The position whose lock the agent's next statement takes, or none. */
  function Requested(c: Config, g: Agent, p: Pc): (r: int)
    requires PcInRange(c, p)
    ensures -1 <= r <= c.Last()
  {
    match p
    case Start => 0
    case Holding(i) => if i < c.Last() then i + 1 else -1
    case Found(i) => if g.Handler? then i else -1
    case _ => -1
  }

  predicate Enabled(c: Config, s: State, l: Label) {
    && WellFormed(c, s)
    && !s.crashed
    && match l
       case Move(a) =>
         && a < |s.pc|
         && !Finished(c.agents[a], s.pc[a])
         && s.pc[a] != Crashed
         && (var r := Requested(c, c.agents[a], s.pc[a]);
             r >= 0 ==> s.owner[r] == Free)
       case Arrive(i, _) => 1 <= i <= c.Last()
  }

  /** What recv does to a channel: the next datagram, if there is one, goes into the buffer. */
  function Recv(ch: Channel): Channel {
    if ch.taken < |ch.arrived| then
      ch.(taken := ch.taken + 1, buffer := Filled(ch.buffer, ch.arrived[ch.taken]))
    else ch
  }

  /** Where the handler goes after recv: to the callback, or out of the loop. */
  function AfterRecv(i: nat, ch: Channel, size: nat): Pc {
    if ch.taken < |ch.arrived| && !Stops(ch.arrived[ch.taken], size) then
      ToCallback(i, Min(|ch.arrived[ch.taken]|, size))
    else Releasing(i)
  }

  /** Terminate the n bytes received and hand them to the callback. */
  function CallBack(ch: Channel, n: nat): Channel
    requires 0 < n <= |ch.buffer|
  {
    var buffer := Terminated(ch.buffer, n);
    ch.(buffer := buffer, calls := ch.calls + [Call(n, buffer[..n])])
  }

  function Step(c: Config, s: State, l: Label): State
    requires Enabled(c, s, l)
  {
    match l
    case Arrive(i, d) =>
      var ch := s.channel[i];
      s.(channel := s.channel[i := ch.(arrived := ch.arrived + [d])])
    case Move(a) =>
      var g := c.agents[a];
      match s.pc[a]
      case Start => s.(owner := s.owner[0 := Held(a)], pc := s.pc[a := Holding(0)])
      case Holding(i) =>
        if i == c.Last() then s.(owner := s.owner[i := Free], pc := s.pc[a := NotFound])
        else s.(owner := s.owner[i + 1 := Held(a)], pc := s.pc[a := Both(i)])
      case Both(i) =>
        if !g.IsSocket() then s.(pc := s.pc[a := Leaked(i)])
        else if c.Matches(g, i + 1) then s.(owner := s.owner[i := Free], pc := s.pc[a := Matched(i + 1)])
        else s.(owner := s.owner[i := Free], pc := s.pc[a := Holding(i + 1)])
      case Matched(i) => s.(owner := s.owner[i := Free], pc := s.pc[a := Found(i)])
      case NotFound => s.(pc := s.pc[a := Crashed], crashed := true)
      case Found(i) => s.(owner := s.owner[i := Held(a)], pc := s.pc[a := ToRecv(i)])
      case ToRecv(i) =>
        s.(channel := s.channel[i := Recv(s.channel[i])],
           pc := s.pc[a := AfterRecv(i, s.channel[i], c.Size(i))])
      case ToCallback(i, n) =>
        s.(channel := s.channel[i := CallBack(s.channel[i], n)], pc := s.pc[a := ToRecv(i)])
      case Releasing(i) => s.(owner := s.owner[i := Free], pc := s.pc[a := Drained(i)])
  }

  /** An executable schedule from s. */
  predicate IsRun(c: Config, s: State, run: seq<Label>)
    decreases |run|
  {
    run == [] || (Enabled(c, s, run[0]) && IsRun(c, Step(c, s, run[0]), run[1..]))
  }

  function After(c: Config, s: State, run: seq<Label>): State
    requires IsRun(c, s, run)
    decreases |run|
  {
    if run == [] then s else After(c, Step(c, s, run[0]), run[1..])
  }

  // ---------------------------------------------------------------- invariant

  predicate Holds(p: Pc, i: nat) {
    match p
    case Holding(j) => i == j
    case Both(j) => i == j || i == j + 1
    case Leaked(j) => i == j || i == j + 1
    case Matched(j) => i == j
    case ToRecv(j) => i == j
    case ToCallback(j, _) => i == j
    case Releasing(j) => i == j
    case _ => false
  }

  /** What an agent has established about the list by the time it is at p. */
  predicate Searched(c: Config, g: Agent, p: Pc) {
    match p
    case Start => true
    case Holding(i) => c.NoMatchUpTo(g, i) && (!g.IsSocket() ==> i == 0)
    case Both(i) => c.NoMatchUpTo(g, i) && (!g.IsSocket() ==> i == 0)
    case NotFound => c.NoMatchUpTo(g, c.Last())
    case Leaked(i) => !g.IsSocket() && i == 0
    case Matched(i) => c.FirstMatch(g, i) && g.IsSocket()
    case Found(i) => c.FirstMatch(g, i) && g.IsSocket()
    case Crashed => c.NoMatchUpTo(g, c.Last()) && g.Handler?
    case _ => c.FirstMatch(g, p.pos) && g.Handler?
  }

  predicate LockOk(s: State, i: nat)
    requires i < |s.owner|
  {
    && (s.owner[i].Held? ==> s.owner[i].agent < |s.pc|)
    && forall a: nat :: a < |s.pc| ==> (s.owner[i] == Held(a) <==> Holds(s.pc[a], i))
  }

  predicate Inv(c: Config, s: State) {
    && WellFormed(c, s)
    && (forall i: nat :: i < |s.owner| ==> LockOk(s, i))
    && (forall a: nat :: a < |s.pc| ==> Searched(c, c.agents[a], s.pc[a]))
    && (forall a: nat :: a < |s.pc| && s.pc[a] == Crashed ==> s.crashed)
    && (s.crashed ==> !c.Registered())
  }

  /** The moving agent owns afterwards what its new position says. */
  lemma MoverOwns(c: Config, s: State, a: nat, i: nat)
    requires Inv(c, s) && Enabled(c, s, Move(a)) && i < |s.owner|
    ensures var s' := Step(c, s, Move(a));
      |s'.owner| == |s.owner| && |s'.pc| == |s.pc| && (s'.owner[i] == Held(a) <==> Holds(s'.pc[a], i))
  {
    assert LockOk(s, i);
  }

  /** The others neither lose nor gain a lock, nor move. */
  lemma OthersOwn(c: Config, s: State, a: nat, i: nat, b: nat)
    requires Inv(c, s) && Enabled(c, s, Move(a)) && i < |s.owner| && b < |s.pc| && b != a
    ensures var s' := Step(c, s, Move(a));
      && |s'.owner| == |s.owner| && |s'.pc| == |s.pc| && s'.pc[b] == s.pc[b]
      && (s'.owner[i] == Held(b) <==> s.owner[i] == Held(b))
      && (s'.owner[i].Held? ==> s'.owner[i].agent < |s.pc|)
  {
    assert LockOk(s, i);
  }

  lemma StepKeepsLock(c: Config, s: State, l: Label, i: nat)
    requires Inv(c, s) && Enabled(c, s, l) && i < |s.owner|
    ensures |Step(c, s, l).owner| == |s.owner| && LockOk(Step(c, s, l), i)
  {
    var s' := Step(c, s, l);
    assert LockOk(s, i);
    if l.Move? {
      MoverOwns(c, s, l.agent, i);
      forall b: nat | b < |s'.pc| ensures s'.owner[i] == Held(b) <==> Holds(s'.pc[b], i) {
        if b != l.agent { OthersOwn(c, s, l.agent, i, b); }
      }
    }
  }

  /** The moving agent's new position; the others stay where they are. */
  lemma StepKeepsSearch(c: Config, s: State, a: nat)
    requires Inv(c, s) && Enabled(c, s, Move(a))
    ensures var s' := Step(c, s, Move(a));
      && s'.pc == s.pc[a := s'.pc[a]]
      && PcInRange(c, s'.pc[a])
      && Searched(c, c.agents[a], s'.pc[a])
      && (s'.pc[a] == Crashed <==> s'.crashed)
      && (s'.crashed ==> !c.Registered())
  {
    assert Searched(c, c.agents[a], s.pc[a]);
  }

  lemma StepKeepsBuffers(c: Config, s: State, l: Label, i: nat)
    requires WellFormed(c, s) && Enabled(c, s, l) && i < |s.channel|
    ensures |Step(c, s, l).channel| == |s.channel| && |Step(c, s, l).channel[i].buffer| == c.Size(i)
  {}

  lemma StepKeepsInv(c: Config, s: State, l: Label)
    requires Inv(c, s) && Enabled(c, s, l)
    ensures Inv(c, Step(c, s, l))
  {
    if l.Move? { StepKeepsSearch(c, s, l.agent); }
    StepKeepsLock(c, s, l, 0);
    StepKeepsBuffers(c, s, l, 0);
    forall i: nat | i < |s.owner| ensures LockOk(Step(c, s, l), i) {
      StepKeepsLock(c, s, l, i);
    }
    forall i: nat | i < |s.channel| ensures |Step(c, s, l).channel[i].buffer| == c.Size(i) {
      StepKeepsBuffers(c, s, l, i);
    }
  }

  lemma {:induction false} RunKeepsInv(c: Config, s: State, run: seq<Label>)
    requires Inv(c, s) && IsRun(c, s, run)
    ensures Inv(c, After(c, s, run))
    decreases |run|
  {
    if run != [] {
      StepKeepsInv(c, s, run[0]);
      RunKeepsInv(c, Step(c, s, run[0]), run[1..]);
    }
  }

  lemma InitInv(c: Config)
    ensures Inv(c, Init(c))
  {
    assert forall i: nat :: i <= c.Last() ==> LockOk(Init(c), i);
  }

  // ------------------------------------------------------------ safety of runs

  /** Locks are exclusive and an agent holds at most two of them, on adjacent positions;
      in particular no two handlers ever use the same connection's buffer. */
  lemma LocksExclusiveAndAdjacent(c: Config, run: seq<Label>, a: nat, b: nat, i: nat, j: nat)
    requires IsRun(c, Init(c), run)
    requires a < |c.agents| && b < |c.agents| && i <= c.Last() && j <= c.Last()
    ensures var s := After(c, Init(c), run);
      && |s.pc| == |c.agents|
      && (Holds(s.pc[a], i) && Holds(s.pc[b], i) ==> a == b)
      && (Holds(s.pc[a], i) && Holds(s.pc[a], j) ==> -1 <= i - j <= 1)
  {
    InitInv(c);
    RunKeepsInv(c, Init(c), run);
    assert LockOk(After(c, Init(c), run), i);
  }

  /** In the fields of the connections: nothing in the list has the kind and the descriptor asked for. */
  lemma NoMatchInFields(c: Config, g: Agent)
    ensures c.NoMatchUpTo(g, c.Last()) <==>
      forall j: nat :: j < |c.conns| ==>
        c.conns[j].kind != (if g.Finder? then g.kind else Udp) || c.conns[j].fd != g.fd
  {
    if c.NoMatchUpTo(g, c.Last()) {
      forall j: nat | j < |c.conns|
        ensures c.conns[j].kind != (if g.Finder? then g.kind else Udp) || c.conns[j].fd != g.fd
      {
        assert !c.Matches(g, j + 1);
      }
    }
  }

  /** In the fields of the connections: q is the first one with the kind and the descriptor asked for. */
  lemma FirstMatchInFields(c: Config, g: Agent, q: nat)
    ensures c.FirstMatch(g, q) <==>
      && 1 <= q <= |c.conns|
      && c.conns[q - 1].kind == (if g.Finder? then g.kind else Udp) && c.conns[q - 1].fd == g.fd
      && forall j: nat :: j < q - 1 ==>
           c.conns[j].kind != (if g.Finder? then g.kind else Udp) || c.conns[j].fd != g.fd
  {
    if c.FirstMatch(g, q) {
      forall j: nat | j < q - 1
        ensures c.conns[j].kind != (if g.Finder? then g.kind else Udp) || c.conns[j].fd != g.fd
      {
        assert !c.Matches(g, j + 1);
      }
    }
  }

  /** What findConnection returns does not depend on the interleaving: a search over
      TCP or UDP ends at the first connection in list order with the asked kind and
      descriptor, and with NULL exactly when there is none. */
  lemma SearchIsCorrect(c: Config, run: seq<Label>, a: nat)
    requires IsRun(c, Init(c), run) && a < |c.agents|
    requires c.agents[a].Handler? || c.agents[a].kind in {Tcp, Udp}
    ensures var s, g := After(c, Init(c), run), c.agents[a];
      var kind := if g.Finder? then g.kind else Udp;
      && |s.pc| == |c.agents|
      && !s.pc[a].Leaked?
      && (s.pc[a] == NotFound || s.pc[a] == Crashed ==>
            forall j: nat :: j < |c.conns| ==> c.conns[j].kind != kind || c.conns[j].fd != g.fd)
      && (s.pc[a].Found? || s.pc[a].Drained? ==>
            var q := s.pc[a].pos;
            && 1 <= q <= |c.conns| && c.conns[q - 1].kind == kind && c.conns[q - 1].fd == g.fd
            && forall j: nat :: j < q - 1 ==> c.conns[j].kind != kind || c.conns[j].fd != g.fd)
  {
    InitInv(c);
    RunKeepsInv(c, Init(c), run);
    var p := After(c, Init(c), run).pc[a];
    assert Searched(c, c.agents[a], p);
    NoMatchInFields(c, c.agents[a]);
    if p.Found? || p.Drained? { FirstMatchInFields(c, c.agents[a], p.pos); }
  }

  // ----------------------------------------------------------- no overtaking

  predicate Active(p: Pc) {
    p.Holding? || p.Both? || p.Matched? || p.Leaked? || p.ToRecv? || p.ToCallback? || p.Releasing?
  }

  /** The furthest position an active agent holds. */
  function Front(p: Pc): nat
    requires Active(p)
  {
    match p
    case Both(i) => i + 1
    case Leaked(i) => i + 1
    case _ => p.pos
  }

  predicate Behind(s: State, a: nat, b: nat) {
    && a < |s.pc| && b < |s.pc|
    && Active(s.pc[a]) && Active(s.pc[b])
    && Front(s.pc[a]) < Front(s.pc[b])
  }

  /** a and b hold at least one lock each in every state of the run. */
  predicate ActiveThroughout(c: Config, s: State, run: seq<Label>, a: nat, b: nat)
    requires IsRun(c, s, run)
    decreases |run|
  {
    && a < |s.pc| && b < |s.pc| && Active(s.pc[a]) && Active(s.pc[b])
    && (run != [] ==> ActiveThroughout(c, Step(c, s, run[0]), run[1..], a, b))
  }

  /** An agent that goes on holding locks moves its front by one at most, and only onto a free position. */
  lemma FrontAdvances(c: Config, s: State, a: nat)
    requires Inv(c, s) && Enabled(c, s, Move(a)) && Active(s.pc[a]) && Active(Step(c, s, Move(a)).pc[a])
    ensures var f, f' := Front(s.pc[a]), Front(Step(c, s, Move(a)).pc[a]);
      f' == f || (f' == f + 1 <= c.Last() && s.owner[f'] == Free)
  {}

  lemma MoveKeepsOrder(c: Config, s: State, m: nat, a: nat, b: nat)
    requires Inv(c, s) && Enabled(c, s, Move(m)) && Behind(s, a, b)
    requires var pc' := Step(c, s, Move(m)).pc; |pc'| == |s.pc| && Active(pc'[a]) && Active(pc'[b])
    ensures Behind(Step(c, s, Move(m)), a, b)
  {
    StepKeepsSearch(c, s, m);
    if m == a || m == b {
      FrontAdvances(c, s, m);
      HeldAtFront(c, s, b);
    }
  }

  lemma HeldAtFront(c: Config, s: State, b: nat)
    requires Inv(c, s) && b < |s.pc| && Active(s.pc[b])
    ensures Front(s.pc[b]) < |s.owner| && s.owner[Front(s.pc[b])] == Held(b)
  {
    assert LockOk(s, Front(s.pc[b]));
  }

  lemma StepKeepsOrder(c: Config, s: State, l: Label, a: nat, b: nat)
    requires Inv(c, s) && Enabled(c, s, l) && Behind(s, a, b)
    requires var pc' := Step(c, s, l).pc; |pc'| == |s.pc| && Active(pc'[a]) && Active(pc'[b])
    ensures Behind(Step(c, s, l), a, b)
  {
    if l.Move? { MoveKeepsOrder(c, s, l.agent, a, b); }
  }

  /** Agents never overtake: as long as both hold a lock, the one behind stays behind. */
  lemma {:induction false} NoOvertaking(c: Config, s: State, run: seq<Label>, a: nat, b: nat)
    requires Inv(c, s) && IsRun(c, s, run) && Behind(s, a, b)
    requires ActiveThroughout(c, s, run, a, b)
    ensures Behind(After(c, s, run), a, b)
    decreases |run|
  {
    if run != [] {
      StepKeepsInv(c, s, run[0]);
      StepKeepsOrder(c, s, run[0], a, b);
      NoOvertaking(c, Step(c, s, run[0]), run[1..], a, b);
    }
  }

  /** Two different active agents are always at different fronts, so one is behind the other. */
  lemma FrontsDiffer(c: Config, run: seq<Label>, a: nat, b: nat)
    requires IsRun(c, Init(c), run) && a < |c.agents| && b < |c.agents| && a != b
    ensures var s := After(c, Init(c), run);
      |s.pc| == |c.agents| &&
      (Active(s.pc[a]) && Active(s.pc[b]) ==> Behind(s, a, b) || Behind(s, b, a))
  {
    InitInv(c);
    RunKeepsInv(c, Init(c), run);
    var s := After(c, Init(c), run);
    if Active(s.pc[a]) { assert LockOk(s, Front(s.pc[a])); }
  }

  // ------------------------------------------------------- deadlock freedom

  predicate AllFinished(c: Config, s: State) {
    |s.pc| == |c.agents| && forall a: nat :: a < |s.pc| ==> Finished(c.agents[a], s.pc[a])
  }

  /** No agent can take its next step (datagrams may still arrive). */
  ghost predicate Stuck(c: Config, s: State) {
    forall a: nat :: !Enabled(c, s, Move(a))
  }

  predicate NoLeak(s: State) {
    forall a: nat :: a < |s.pc| ==> !s.pc[a].Leaked?
  }

  /** Following the chain "waits for the lock held by" always ends at an agent that can move:
      a walker at position i waits only for position i + 1. */
  lemma {:induction false} ChainReachesMover(c: Config, s: State, a: nat) returns (b: nat)
    requires Inv(c, s) && NoLeak(s) && !s.crashed
    requires a < |s.pc| && s.pc[a].Holding?
    ensures Enabled(c, s, Move(b))
    decreases c.Last() - s.pc[a].pos
  {
    var r := Requested(c, c.agents[a], s.pc[a]);
    if r == -1 || s.owner[r] == Free {
      b := a;
    } else {
      b := s.owner[r].agent;
      assert LockOk(s, r) && LockOk(s, s.pc[a].pos);
      if s.pc[b].Holding? {
        b := ChainReachesMover(c, s, b);
      }
    }
  }

  lemma FindMover(c: Config, s: State) returns (b: nat)
    requires Inv(c, s) && NoLeak(s) && !s.crashed && !AllFinished(c, s)
    ensures Enabled(c, s, Move(b))
  {
    var a: nat :| a < |s.pc| && !Finished(c.agents[a], s.pc[a]);
    var r := Requested(c, c.agents[a], s.pc[a]);
    if r == -1 || s.owner[r] == Free {
      b := a;
    } else {
      b := s.owner[r].agent;
      assert LockOk(s, r);
      if s.pc[b].Holding? {
        b := ChainReachesMover(c, s, b);
      }
    }
  }

  /** A single agent never waits for itself. */
  lemma LoneAgentMoves(c: Config, s: State)
    requires Inv(c, s) && |c.agents| == 1 && !s.crashed && !AllFinished(c, s)
    ensures Enabled(c, s, Move(0))
  {
    var r := Requested(c, c.agents[0], s.pc[0]);
    if r >= 0 { assert LockOk(s, r); }
  }

  /** The inputs on which no agent can get in another's way for good. */
  predicate Safe(c: Config) {
    c.conns == [] || |c.agents| <= 1 || c.AllSockets()
  }

  /** Every run in which no agent can move any more has all agents finished, or the process dead. */
  ghost predicate NeverDeadlocks(c: Config) {
    forall run: seq<Label> ::
      IsRun(c, Init(c), run) && Stuck(c, After(c, Init(c), run)) ==>
      After(c, Init(c), run).crashed || AllFinished(c, After(c, Init(c), run))
  }

  /** Deadlock freedom for TCP and UDP searches and handlers, in any number. */
  lemma SafeNeverDeadlocks(c: Config)
    requires Safe(c)
    ensures NeverDeadlocks(c)
  {
    forall run: seq<Label> | IsRun(c, Init(c), run) && Stuck(c, After(c, Init(c), run))
      ensures After(c, Init(c), run).crashed || AllFinished(c, After(c, Init(c), run))
    {
      InitInv(c);
      RunKeepsInv(c, Init(c), run);
      var s := After(c, Init(c), run);
      if !s.crashed && !AllFinished(c, s) {
        if |c.agents| == 1 {
          LoneAgentMoves(c, s);
        } else {
          assert forall a: nat :: a < |s.pc| ==> Searched(c, c.agents[a], s.pc[a]);
          var b := FindMover(c, s);
        }
        assert false;
      }
    }
  }

  /** A search for any other kind keeps the head locked for ever: whoever starts after it is stuck. */
  lemma LeakBlocksEveryone(c: Config, bad: nat)
    requires c.conns != [] && |c.agents| > 1
    requires bad < |c.agents| && !c.agents[bad].IsSocket()
    ensures var run := [Move(bad), Move(bad), Move(bad)];
      && IsRun(c, Init(c), run)
      && Stuck(c, After(c, Init(c), run))
      && !After(c, Init(c), run).crashed
      && !AllFinished(c, After(c, Init(c), run))
  {
    var s0 := Init(c);
    var none: seq<Label> := [];
    RunExtends(c, s0, none, Move(bad));
    RunExtends(c, s0, none + [Move(bad)], Move(bad));
    RunExtends(c, s0, none + [Move(bad)] + [Move(bad)], Move(bad));
    assert none + [Move(bad)] + [Move(bad)] + [Move(bad)] == [Move(bad), Move(bad), Move(bad)];
    var s3 := After(c, s0, [Move(bad), Move(bad), Move(bad)]);
    var other := if bad == 0 then 1 else 0;
    assert s3.pc[other] == Start && s3.owner[0] == Held(bad);
  }

  /** The exact condition: the lock coupling is free of deadlock if and only if the list is
      empty, or at most one agent runs, or every agent asks for a TCP or UDP connection. */
  lemma NeverDeadlocksIffSafe(c: Config)
    ensures NeverDeadlocks(c) <==>
      || c.conns == []
      || |c.agents| <= 1
      || forall a: nat :: a < |c.agents| ==> c.agents[a].Handler? || c.agents[a].kind in {Tcp, Udp}
  {
    assert forall a: nat :: a < |c.agents| ==>
      (c.agents[a].IsSocket() <==> c.agents[a].Handler? || c.agents[a].kind in {Tcp, Udp});
    if Safe(c) {
      SafeNeverDeadlocks(c);
    } else {
      var bad: nat :| bad < |c.agents| && !c.agents[bad].IsSocket();
      LeakBlocksEveryone(c, bad);
    }
  }

  lemma {:induction false} RunExtends(c: Config, s: State, run: seq<Label>, l: Label)
    requires IsRun(c, s, run) && Enabled(c, After(c, s, run), l)
    ensures IsRun(c, s, run + [l]) && After(c, s, run + [l]) == Step(c, After(c, s, run), l)
    decreases |run|
  {
    if run == [] {
      assert run + [l] == [l] && [l][1..] == [];
    } else {
      assert (run + [l])[1..] == run[1..] + [l];
      RunExtends(c, Step(c, s, run[0]), run[1..], l);
    }
  }

  lemma {:induction false} LastIsEnabled(c: Config, s: State, run: seq<Label>, l: Label)
    requires IsRun(c, s, run) && IsRun(c, s, run + [l])
    ensures Enabled(c, After(c, s, run), l)
    decreases |run|
  {
    if run == [] {
      assert run + [l] == [l];
    } else {
      assert (run + [l])[1..] == run[1..] + [l];
      LastIsEnabled(c, Step(c, s, run[0]), run[1..], l);
    }
  }

  /** What may come next after any run that has not crashed: a datagram for any connection, and a step of any
      agent that has not returned and whose next lock, if it is at one, is free. */
  lemma AnyScheduleIff(c: Config, run: seq<Label>, l: Label)
    requires IsRun(c, Init(c), run)
    ensures var s := After(c, Init(c), run);
      && |s.pc| == |c.agents| && |s.owner| == |c.conns| + 1
      && (IsRun(c, Init(c), run + [l]) <==>
          && !s.crashed
          && match l
             case Arrive(i, _) => 1 <= i <= |c.conns|
             case Move(a) =>
               && a < |s.pc|
               && match s.pc[a]
                  case Start => s.owner[0] == Free
                  case Holding(i) => i < |c.conns| ==> s.owner[i + 1] == Free
                  case Found(i) => c.agents[a].Handler? && i < |s.owner| && s.owner[i] == Free
                  case NotFound => c.agents[a].Handler?
                  case Leaked(_) => false
                  case Drained(_) => false
                  case _ => true)
  {
    InitInv(c);
    RunKeepsInv(c, Init(c), run);
    if Enabled(c, After(c, Init(c), run), l) { RunExtends(c, Init(c), run, l); }
    if IsRun(c, Init(c), run + [l]) { LastIsEnabled(c, Init(c), run, l); }
  }

  lemma {:induction false} RunsConcatenate(c: Config, s: State, run: seq<Label>, more: seq<Label>)
    requires IsRun(c, s, run) && IsRun(c, After(c, s, run), more)
    ensures IsRun(c, s, run + more) && After(c, s, run + more) == After(c, After(c, s, run), more)
    decreases |run|
  {
    if run == [] {
      assert run + more == more;
    } else {
      assert (run + more)[1..] == run[1..] + more;
      RunsConcatenate(c, Step(c, s, run[0]), run[1..], more);
    }
  }

  // ---------------------------------------------------------------- crashes

  /** Some schedule makes the process dereference NULL. */
  ghost predicate CanCrash(c: Config) {
    exists run: seq<Label> :: IsRun(c, Init(c), run) && After(c, Init(c), run).crashed
  }

  /** A handler for an unregistered descriptor walks the whole list and then takes the process down. */
  lemma {:induction false} LoneHandlerCrashes(c: Config, s: State, a: nat) returns (run: seq<Label>)
    requires Inv(c, s) && !s.crashed && a < |s.pc|
    requires c.agents[a].Handler? && c.NoMatchUpTo(c.agents[a], c.Last())
    requires forall b: nat :: b < |s.pc| && b != a ==> s.pc[b] == Start
    ensures IsRun(c, s, run) && After(c, s, run).crashed
    decreases Rank(c, c.agents[a], s.pc[a])
  {
    assert Searched(c, c.agents[a], s.pc[a]);
    var r := Requested(c, c.agents[a], s.pc[a]);
    if r >= 0 { assert LockOk(s, r); }
    var s' := Step(c, s, Move(a));
    StepKeepsInv(c, s, Move(a));
    var rest: seq<Label> := [];
    if !s'.crashed {
      StepKeepsSearch(c, s, a);
      StepLowersRank(c, s, a);
      rest := LoneHandlerCrashes(c, s', a);
    }
    run := [Move(a)] + rest;
    assert run[1..] == rest;
  }

  /** The process can crash if and only if some handler's descriptor belongs to no UDP connection. */
  lemma CrashesIffUnregistered(c: Config)
    ensures CanCrash(c) <==> !c.Registered()
    ensures CanCrash(c) <==>
      exists a: nat ::
        && a < |c.agents| && c.agents[a].Handler?
        && forall j: nat :: j < |c.conns| ==> c.conns[j].kind != Udp || c.conns[j].fd != c.agents[a].fd
  {
    InitInv(c);
    forall a: nat | a < |c.agents| && c.agents[a].Handler?
      ensures c.NoMatchUpTo(c.agents[a], c.Last()) <==>
        forall j: nat :: j < |c.conns| ==> c.conns[j].kind != Udp || c.conns[j].fd != c.agents[a].fd
    {
      NoMatchInFields(c, c.agents[a]);
    }
    if c.Registered() {
      forall run: seq<Label> | IsRun(c, Init(c), run) ensures !After(c, Init(c), run).crashed {
        RunKeepsInv(c, Init(c), run);
      }
    } else {
      var a: nat :| a < |c.agents| && c.agents[a].Handler? && c.NoMatchUpTo(c.agents[a], c.Last());
      var run := LoneHandlerCrashes(c, Init(c), a);
    }
  }

  // ------------------------------------------------------------- termination

  /** Steps an agent can still take, apart from what the datagrams waiting for it cost. */
  function Rank(c: Config, g: Agent, p: Pc): nat
    requires PcInRange(c, p)
  {
    var drain := if g.Handler? then 3 else 0;
    match p
    case Start => 2 * c.Last() + 3 + drain
    case Holding(i) => 2 * (c.Last() - i) + 2 + drain
    case Both(i) => 2 * (c.Last() - i) + 1 + drain
    case Matched(_) => 1 + drain
    case Found(_) => drain
    case NotFound => if g.Handler? then 1 else 0
    case ToCallback(_, _) => 3
    case ToRecv(_) => 2
    case Releasing(_) => 1
    case _ => 0
  }

  function Measure(c: Config, gs: seq<Agent>, pc: seq<Pc>): nat
    requires |gs| == |pc|
    requires forall a: nat :: a < |pc| ==> PcInRange(c, pc[a])
  {
    if pc == [] then 0 else Rank(c, gs[0], pc[0]) + Measure(c, gs[1..], pc[1..])
  }

  /** The datagrams that recv has not taken yet. */
  function Waiting(channel: seq<Channel>): nat {
    if channel == [] then 0
    else
      var ch := channel[0];
      (if ch.taken < |ch.arrived| then |ch.arrived| - ch.taken else 0) + Waiting(channel[1..])
  }

  lemma {:induction false} MeasureUpdate(c: Config, gs: seq<Agent>, pc: seq<Pc>, a: nat, p: Pc)
    requires |gs| == |pc| && a < |pc| && PcInRange(c, p)
    requires forall b: nat :: b < |pc| ==> PcInRange(c, pc[b])
    ensures Measure(c, gs, pc[a := p]) == Measure(c, gs, pc) - Rank(c, gs[a], pc[a]) + Rank(c, gs[a], p)
    decreases |pc|
  {
    if a == 0 {
      assert pc[a := p][1..] == pc[1..];
    } else {
      assert pc[a := p][1..] == pc[1..][a - 1 := p];
      MeasureUpdate(c, gs[1..], pc[1..], a - 1, p);
    }
  }

  lemma {:induction false} WaitingUpdate(channel: seq<Channel>, i: nat, ch: Channel)
    requires i < |channel|
    ensures Waiting(channel[i := ch]) == Waiting(channel) - Waiting([channel[i]]) + Waiting([ch])
    decreases |channel|
  {
    assert [ch][1..] == [] && [channel[i]][1..] == [];
    if i == 0 {
      assert channel[i := ch][1..] == channel[1..];
    } else {
      assert channel[i := ch][1..] == channel[1..][i - 1 := ch];
      WaitingUpdate(channel[1..], i - 1, ch);
    }
  }

  /** A move lowers the agent's rank, except that a recv that takes a datagram may raise it by one. */
  lemma StepLowersRank(c: Config, s: State, a: nat)
    requires Inv(c, s) && Enabled(c, s, Move(a)) && PcInRange(c, Step(c, s, Move(a)).pc[a])
    ensures var r, r' := Rank(c, c.agents[a], s.pc[a]), Rank(c, c.agents[a], Step(c, s, Move(a)).pc[a]);
      r' < r || (s.pc[a].ToRecv? && r' == r + 1 && Recv(s.channel[s.pc[a].pos]) != s.channel[s.pc[a].pos])
  {}

  function Potential(c: Config, s: State): nat
    requires WellFormed(c, s)
  {
    Measure(c, c.agents, s.pc) + 2 * Waiting(s.channel)
  }

  /** What a move does to the datagrams waiting: a recv that finds one takes it. */
  lemma MoveWaiting(c: Config, s: State, a: nat)
    requires Inv(c, s) && Enabled(c, s, Move(a))
    ensures var s', p := Step(c, s, Move(a)), s.pc[a];
      Waiting(s'.channel) ==
      Waiting(s.channel) - (if p.ToRecv? && Recv(s.channel[p.pos]) != s.channel[p.pos] then 1 else 0)
  {
    if s.pc[a].ToRecv? || s.pc[a].ToCallback? {
      var i, ch' := s.pc[a].pos, Step(c, s, Move(a)).channel[s.pc[a].pos];
      WaitingUpdate(s.channel, i, ch');
      assert [s.channel[i]][1..] == [] && [ch'][1..] == [];
    }
  }

  lemma MoveLowersPotential(c: Config, s: State, a: nat)
    requires Inv(c, s) && Enabled(c, s, Move(a)) && Inv(c, Step(c, s, Move(a)))
    ensures Potential(c, Step(c, s, Move(a))) < Potential(c, s)
  {
    var p' := Step(c, s, Move(a)).pc[a];
    StepKeepsSearch(c, s, a);
    StepLowersRank(c, s, a);
    MeasureUpdate(c, c.agents, s.pc, a, p');
    MoveWaiting(c, s, a);
  }

  lemma ArriveRaisesPotential(c: Config, s: State, i: nat, d: Datagram)
    requires Inv(c, s) && Enabled(c, s, Arrive(i, d)) && Inv(c, Step(c, s, Arrive(i, d)))
    ensures Potential(c, Step(c, s, Arrive(i, d))) <= Potential(c, s) + 2
  {
    var ch := s.channel[i];
    var ch' := ch.(arrived := ch.arrived + [d]);
    WaitingUpdate(s.channel, i, ch');
    assert [ch][1..] == [] && [ch'][1..] == [];
  }

  function Arrivals(run: seq<Label>): nat {
    if run == [] then 0 else (if run[0].Arrive? then 1 else 0) + Arrivals(run[1..])
  }

  lemma {:induction false} RunBoundFrom(c: Config, s: State, run: seq<Label>)
    requires Inv(c, s) && IsRun(c, s, run)
    ensures Inv(c, After(c, s, run))
    ensures |run| + Potential(c, After(c, s, run)) <= Potential(c, s) + 3 * Arrivals(run)
    decreases |run|
  {
    if run != [] {
      StepKeepsInv(c, s, run[0]);
      match run[0] {
        case Move(a) => MoveLowersPotential(c, s, a);
        case Arrive(i, d) => ArriveRaisesPotential(c, s, i, d);
      }
      RunBoundFrom(c, Step(c, s, run[0]), run[1..]);
    }
  }

  /** What one agent costs: two locks per connection, plus a handler's own lock, last recv and unlock. */
  function Budget(c: Config, gs: seq<Agent>): nat {
    if gs == [] then 0
    else 2 * c.Last() + 3 + (if gs[0].Handler? then 3 else 0) + Budget(c, gs[1..])
  }

  lemma {:induction false} MeasureAtStart(c: Config, gs: seq<Agent>)
    ensures Measure(c, gs, seq(|gs|, _ => Start)) == Budget(c, gs)
    decreases |gs|
  {
    if gs != [] {
      assert seq(|gs|, _ => Start)[1..] == seq(|gs[1..]|, _ => Start);
      MeasureAtStart(c, gs[1..]);
    }
  }

  /** No livelock either: the steps of a run are bounded by the agents' budgets, twice the datagrams queued
      at the start and three times those that arrive. */
  lemma RunBound(c: Config, run: seq<Label>)
    requires IsRun(c, Init(c), run)
    ensures |run| <= Budget(c, c.agents) + 2 * Waiting(Init(c).channel) + 3 * Arrivals(run)
  {
    InitInv(c);
    RunBoundFrom(c, Init(c), run);
    MeasureAtStart(c, c.agents);
  }
}
