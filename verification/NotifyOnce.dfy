/**
  The one-shot notification protocol of async_posix_message_queues_SIGEV_THREAD.  A
  registration made with mq_notify fires once, when a message arrives at an empty queue:
  it is consumed and a handler thread is started.  The handler receives one message into
  the queue's shared buffer, calls back, and registers again.

  One queue is modelled, with any number of senders and any number of handler threads;
  every call into the queue is one step and steps interleave arbitrarily.
 */
module NotifyOnce {
  import opened CTypes

  const MAX_SIZE: nat := 1024

  type Msg = m: seq<Byte> | |m| <= MAX_SIZE

  /** A callback invocation: the size it is told, and the buffer it is handed. */
  datatype Call = Call(size: nat, buffer: seq<Byte>)

  datatype HandlerPc =
    | ToReceive
    | ToCallback(size: nat)
    | ToRegister
    | Finished

  datatype State = State(
    queue: seq<Msg>,
    registered: bool,
    handlers: seq<HandlerPc>,   // every handler thread started so far
    buffer: seq<Byte>,          // mq_info_t.buffer, shared by the handlers
    sent: seq<Msg>,
    received: seq<Msg>,
    calls: seq<Call>,
    exited: bool)               // re-registration failed and the process exited

  datatype Label = Send(msg: Msg) | Move(handler: nat)

  /** The buffer as calloc leaves it. */
  function Zeros(): seq<Byte> {
    seq(MAX_SIZE + 1, _ => 0)
  }

  /** Right after openMessageQueue; mq_open with O_CREAT may find messages already queued. */
  function Init(backlog: seq<Msg>): State {
    State(backlog, true, [], Zeros(), [], [], [], false)
  }

  /** mq_send blocks while the queue is full; `capacity` is mq_maxmsg. */
  predicate Enabled(capacity: nat, s: State, l: Label) {
    && !s.exited
    && match l
       case Send(_) => |s.queue| < capacity
       case Move(h) => h < |s.handlers| && s.handlers[h] != Finished
  }

  /** mq_receive copies the message over the start of the buffer and leaves the rest alone. */
  function Overwrite(buffer: seq<Byte>, m: Msg): (r: seq<Byte>)
    ensures |m| <= |buffer| ==> |r| == |buffer|
  {
    if |m| <= |buffer| then m + buffer[|m|..] else m
  }

  function Step(capacity: nat, s: State, l: Label): State
    requires Enabled(capacity, s, l)
  {
    match l
    case Send(m) =>
      var s' := s.(queue := s.queue + [m], sent := s.sent + [m]);
      if s.queue == [] && s.registered then
        s'.(registered := false, handlers := s.handlers + [ToReceive])
      else s'
    case Move(h) =>
      match s.handlers[h]
      case ToReceive =>
        if s.queue == [] then s.(handlers := s.handlers[h := ToRegister])
        else
          var m := s.queue[0];
          s.(queue := s.queue[1..],
             received := s.received + [m],
             buffer := Overwrite(s.buffer, m),
             handlers := s.handlers[h := if |m| > 0 then ToCallback(|m|) else ToRegister])
      case ToCallback(n) =>
        s.(calls := s.calls + [Call(n, s.buffer)], handlers := s.handlers[h := ToRegister])
      case ToRegister =>
        if s.registered then s.(exited := true)
        else s.(registered := true, handlers := s.handlers[h := Finished])
  }

  predicate IsRun(capacity: nat, s: State, run: seq<Label>)
    decreases |run|
  {
    run == [] || (Enabled(capacity, s, run[0]) && IsRun(capacity, Step(capacity, s, run[0]), run[1..]))
  }

  function After(capacity: nat, s: State, run: seq<Label>): State
    requires IsRun(capacity, s, run)
    decreases |run|
  {
    if run == [] then s else After(capacity, Step(capacity, s, run[0]), run[1..])
  }

  // ---------------------------------------------------------------- invariant

  /** The shared buffer after receiving a sequence of messages. */
  function Overlay(msgs: seq<Msg>): (r: seq<Byte>)
    ensures |r| == MAX_SIZE + 1
  {
    if msgs == [] then Zeros() else Overwrite(Overlay(msgs[..|msgs| - 1]), msgs[|msgs| - 1])
  }

  /** The callbacks a sequence of received messages is owed: one for each nonempty message. */
  function CallsFor(msgs: seq<Msg>): seq<Call> {
    if msgs == [] then []
    else
      var last := msgs[|msgs| - 1];
      CallsFor(msgs[..|msgs| - 1]) + (if |last| > 0 then [Call(|last|, Overlay(msgs))] else [])
  }

  /** The handler that has not yet registered again; at most the youngest one. */
  function Current(s: State): HandlerPc {
    if s.handlers == [] then Finished else s.handlers[|s.handlers| - 1]
  }

  predicate Inv(backlog: seq<Msg>, s: State) {
    && !s.exited
    && s.received + s.queue == backlog + s.sent
    && (forall h: nat :: h + 1 < |s.handlers| ==> s.handlers[h] == Finished)
    && (s.registered <==> Current(s) == Finished)
    && (Current(s) == ToReceive ==> s.queue != [])
    && s.buffer == Overlay(s.received)
    && match Current(s)
       case ToCallback(n) =>
         && s.received != []
         && n == |s.received[|s.received| - 1]| > 0
         && s.calls == CallsFor(s.received[..|s.received| - 1])
       case _ => s.calls == CallsFor(s.received)
  }

  lemma SendKeepsInv(capacity: nat, backlog: seq<Msg>, s: State, m: Msg)
    requires Inv(backlog, s) && Enabled(capacity, s, Send(m))
    ensures Inv(backlog, Step(capacity, s, Send(m)))
  {
    assert s.received + (s.queue + [m]) == (s.received + s.queue) + [m];
    assert backlog + (s.sent + [m]) == (backlog + s.sent) + [m];
  }

  lemma ReceiveKeepsInv(capacity: nat, backlog: seq<Msg>, s: State, h: nat)
    requires Inv(backlog, s) && Enabled(capacity, s, Move(h)) && s.handlers[h] == ToReceive
    ensures Inv(backlog, Step(capacity, s, Move(h)))
  {
    var s' := Step(capacity, s, Move(h));
    assert h == |s.handlers| - 1;
    assert s'.received[..|s'.received| - 1] == s.received;
    assert s.received + s.queue == s'.received + s'.queue;
  }

  lemma StepKeepsInv(capacity: nat, backlog: seq<Msg>, s: State, l: Label)
    requires Inv(backlog, s) && Enabled(capacity, s, l)
    ensures Inv(backlog, Step(capacity, s, l))
  {
    match l {
      case Send(m) =>
        SendKeepsInv(capacity, backlog, s, m);
      case Move(h) =>
        assert h == |s.handlers| - 1;
        if s.handlers[h] == ToReceive {
          ReceiveKeepsInv(capacity, backlog, s, h);
        }
    }
  }

  lemma {:induction false} RunKeepsInv(capacity: nat, backlog: seq<Msg>, s: State, run: seq<Label>)
    requires Inv(backlog, s) && IsRun(capacity, s, run)
    ensures Inv(backlog, After(capacity, s, run))
    decreases |run|
  {
    if run != [] {
      StepKeepsInv(capacity, backlog, s, run[0]);
      RunKeepsInv(capacity, backlog, Step(capacity, s, run[0]), run[1..]);
    }
  }

  // ------------------------------------------------------------ safety of runs

  predicate Active(s: State, h: nat) {
    h < |s.handlers| && s.handlers[h] != Finished
  }

  /** Exclusive receive loop: at any moment either the queue is registered or exactly one handler
      is before its re-registration.  So no two handlers share the buffer, the receive always
      finds a message, and re-registration never fails. */
  lemma ReceiveLoopIsExclusive(capacity: nat, backlog: seq<Msg>, run: seq<Label>, h: nat, h': nat)
    requires IsRun(capacity, Init(backlog), run)
    ensures var s := After(capacity, Init(backlog), run);
      && !s.exited
      && (Active(s, h) && Active(s, h') ==> h == h')
      && (s.registered <==> forall k: nat :: !Active(s, k))
      && (Active(s, h) && s.handlers[h] == ToReceive ==> s.queue != [])
      && (Active(s, h) && s.handlers[h] == ToRegister ==> !s.registered)
  {
    RunKeepsInv(capacity, backlog, Init(backlog), run);
    var s := After(capacity, Init(backlog), run);
    if s.handlers != [] && Current(s) != Finished {
      assert Active(s, |s.handlers| - 1);
    }
  }

  /** The messages that a run sends, in order. */
  function SentIn(run: seq<Label>): seq<Msg> {
    if run == [] then [] else (if run[0].Send? then [run[0].msg] else []) + SentIn(run[1..])
  }

  lemma StepSends(capacity: nat, s: State, l: Label)
    requires Enabled(capacity, s, l)
    ensures Step(capacity, s, l).sent == if l.Send? then s.sent + [l.msg] else s.sent
  {}

  lemma {:induction false} RunSends(capacity: nat, s: State, run: seq<Label>)
    requires IsRun(capacity, s, run)
    ensures After(capacity, s, run).sent == s.sent + SentIn(run)
    decreases |run|
  {
    if run != [] {
      StepSends(capacity, s, run[0]);
      RunSends(capacity, Step(capacity, s, run[0]), run[1..]);
    }
  }

  lemma SentByRun(capacity: nat, backlog: seq<Msg>, run: seq<Label>)
    requires IsRun(capacity, Init(backlog), run)
    ensures After(capacity, Init(backlog), run).sent == SentIn(run)
  {
    RunSends(capacity, Init(backlog), run);
    assert [] + SentIn(run) == SentIn(run);
  }

  /** Conservation: what has been received, followed by what is queued, is what was there at
      opening followed by what the run sends, in order; and the callbacks made are those owed,
      up to the one still to come. */
  lemma NothingLostOrReordered(capacity: nat, backlog: seq<Msg>, run: seq<Label>)
    requires IsRun(capacity, Init(backlog), run)
    ensures var s := After(capacity, Init(backlog), run);
      && s.sent == SentIn(run)
      && s.received + s.queue == backlog + SentIn(run)
      && (s.registered ==> s.calls == CallsFor(s.received))
      && s.calls <= CallsFor(s.received)
  {
    RunKeepsInv(capacity, backlog, Init(backlog), run);
    SentByRun(capacity, backlog, run);
  }

  function Payload(c: Call): seq<Byte> {
    if c.size <= |c.buffer| then c.buffer[..c.size] else c.buffer
  }

  function Payloads(calls: seq<Call>): seq<seq<Byte>> {
    if calls == [] then [] else Payloads(calls[..|calls| - 1]) + [Payload(calls[|calls| - 1])]
  }

  function Nonempty(msgs: seq<Msg>): seq<seq<Byte>> {
    if msgs == [] then []
    else
      var last := msgs[|msgs| - 1];
      Nonempty(msgs[..|msgs| - 1]) + (if |last| > 0 then [last] else [])
  }

  /** Nonempty goes through the messages in order. */
  lemma {:induction false} NonemptyInOrder(ms: seq<Msg>, ns: seq<Msg>)
    ensures Nonempty(ms + ns) == Nonempty(ms) + Nonempty(ns)
    decreases |ns|
  {
    if ns == [] {
      assert ms + ns == ms;
    } else {
      var less, all := ns[..|ns| - 1], ms + ns;
      assert all[..|all| - 1] == ms + less && all[|all| - 1] == ns[|ns| - 1];
      NonemptyInOrder(ms, less);
    }
  }

  /** It keeps a message that is not empty and leaves out one that is. */
  lemma NonemptyOne(m: Msg)
    ensures Nonempty([m]) == if m == [] then [] else [m]
  {
    assert [m][..0] == [];
  }

  lemma {:induction false} PayloadsOfCallsFor(msgs: seq<Msg>)
    ensures Payloads(CallsFor(msgs)) == Nonempty(msgs)
    decreases |msgs|
  {
    if msgs != [] {
      var before, last := msgs[..|msgs| - 1], msgs[|msgs| - 1];
      PayloadsOfCallsFor(before);
      if |last| > 0 {
        assert CallsFor(msgs)[..|CallsFor(msgs)| - 1] == CallsFor(before);
        assert Overlay(msgs)[..|last|] == last;
      } else {
        assert CallsFor(msgs) == CallsFor(before);
        assert Nonempty(msgs) == Nonempty(before);
      }
    }
  }

  /** Although the handlers share one buffer, the callbacks get every nonempty received message
      exactly once, in order and intact in the bytes they are told to look at. */
  lemma CallbacksCarryTheMessages(capacity: nat, backlog: seq<Msg>, run: seq<Label>)
    requires IsRun(capacity, Init(backlog), run)
    requires After(capacity, Init(backlog), run).registered
    ensures var s := After(capacity, Init(backlog), run);
      Payloads(s.calls) == Nonempty(s.received)
  {
    RunKeepsInv(capacity, backlog, Init(backlog), run);
    PayloadsOfCallsFor(After(capacity, Init(backlog), run).received);
  }

  // -------------------------------------------------------------- deaf states

  /** Registered although messages are waiting: nothing will ever arrive at an empty queue. */
  predicate Deaf(s: State) {
    s.registered && s.queue != []
  }

  /** A deaf state is absorbing: whatever is sent, no handler starts, nothing is received, and
      once the remaining room is used up the senders block as well. */
  lemma {:induction false} DeafForEver(capacity: nat, backlog: seq<Msg>, s: State, run: seq<Label>)
    requires Inv(backlog, s) && Deaf(s) && IsRun(capacity, s, run)
    ensures var s' := After(capacity, s, run);
      && Deaf(s')
      && s'.handlers == s.handlers
      && s'.received == s.received
      && s'.calls == s.calls
      && s.queue <= s'.queue
      && |s'.queue| == |s.queue| + |run|
    ensures run == [] || |s.queue| + |run| <= capacity
    decreases |run|
  {
    if run != [] {
      assert run[0].Send?;
      StepKeepsInv(capacity, backlog, s, run[0]);
      DeafForEver(capacity, backlog, Step(capacity, s, run[0]), run[1..]);
    }
  }

  // ----------------------------------------------------------------- delivery

  /** No message is sent between a notification and the handler's re-registration. */
  predicate SendsOnlyWhenRegistered(capacity: nat, s: State, run: seq<Label>)
    requires IsRun(capacity, s, run)
    decreases |run|
  {
    run == [] ||
    (&& (run[0].Send? ==> s.registered)
     && SendsOnlyWhenRegistered(capacity, Step(capacity, s, run[0]), run[1..]))
  }

  /** Every re-registration finds the queue empty. */
  predicate RegistersOnEmpty(capacity: nat, s: State, run: seq<Label>)
    requires IsRun(capacity, s, run)
    decreases |run|
  {
    run == [] ||
    (&& (run[0].Move? && s.handlers[run[0].handler] == ToRegister ==> s.queue == [])
     && RegistersOnEmpty(capacity, Step(capacity, s, run[0]), run[1..]))
  }

  /** The handler at work is the only one that any queued message still needs. */
  predicate Keeping(s: State) {
    |s.queue| == if Current(s) == ToReceive then 1 else 0
  }

  lemma StepKeeping(capacity: nat, backlog: seq<Msg>, s: State, l: Label)
    requires Inv(backlog, s) && Enabled(capacity, s, l)
    ensures Keeping(Step(capacity, s, l)) <==> Keeping(s) && (l.Send? ==> s.registered)
  {}

  lemma {:induction false} KeepingIsDecidedBySends(capacity: nat, backlog: seq<Msg>, s: State, run: seq<Label>)
    requires Inv(backlog, s) && IsRun(capacity, s, run)
    ensures Keeping(After(capacity, s, run)) <==> Keeping(s) && SendsOnlyWhenRegistered(capacity, s, run)
    decreases |run|
  {
    if run != [] {
      StepKeepsInv(capacity, backlog, s, run[0]);
      StepKeeping(capacity, backlog, s, run[0]);
      KeepingIsDecidedBySends(capacity, backlog, Step(capacity, s, run[0]), run[1..]);
    }
  }

  /** Delivery: a run that ends with no handler at work has received everything if and only if the
      queue was opened empty and nothing was sent while a handler was at work. */
  lemma DeliveredIffSentWhileRegistered(capacity: nat, backlog: seq<Msg>, run: seq<Label>)
    requires IsRun(capacity, Init(backlog), run)
    requires After(capacity, Init(backlog), run).registered
    ensures var s := After(capacity, Init(backlog), run);
      s.received == backlog + SentIn(run) <==>
      backlog == [] && SendsOnlyWhenRegistered(capacity, Init(backlog), run)
  {
    var s := After(capacity, Init(backlog), run);
    RunKeepsInv(capacity, backlog, Init(backlog), run);
    KeepingIsDecidedBySends(capacity, backlog, Init(backlog), run);
    SentByRun(capacity, backlog, run);
    assert s.received == backlog + s.sent <==> s.queue == [] by {
      assert |s.received| + |s.queue| == |backlog + s.sent|;
      if s.queue == [] { assert s.received + [] == s.received; }
    }
  }

  lemma StepDeaf(capacity: nat, backlog: seq<Msg>, s: State, l: Label)
    requires Inv(backlog, s) && Enabled(capacity, s, l)
    ensures Deaf(Step(capacity, s, l)) <==>
            Deaf(s) || (l.Move? && s.handlers[l.handler] == ToRegister && s.queue != [])
  {}

  lemma {:induction false} DeafIsDecidedByRegistrations(capacity: nat, backlog: seq<Msg>, s: State, run: seq<Label>)
    requires Inv(backlog, s) && IsRun(capacity, s, run)
    ensures Deaf(After(capacity, s, run)) <==> Deaf(s) || !RegistersOnEmpty(capacity, s, run)
    decreases |run|
  {
    if run != [] {
      StepKeepsInv(capacity, backlog, s, run[0]);
      StepDeaf(capacity, backlog, s, run[0]);
      DeafIsDecidedByRegistrations(capacity, backlog, Step(capacity, s, run[0]), run[1..]);
    }
  }

  /** The same, seen from the server: everything has been received at the end if and only if the
      queue was opened empty and every re-registration found it empty. */
  lemma DeliveredIffRegisteredOnEmpty(capacity: nat, backlog: seq<Msg>, run: seq<Label>)
    requires IsRun(capacity, Init(backlog), run)
    requires After(capacity, Init(backlog), run).registered
    ensures var s := After(capacity, Init(backlog), run);
      s.received == backlog + SentIn(run) <==>
      backlog == [] && RegistersOnEmpty(capacity, Init(backlog), run)
  {
    var s := After(capacity, Init(backlog), run);
    RunKeepsInv(capacity, backlog, Init(backlog), run);
    DeafIsDecidedByRegistrations(capacity, backlog, Init(backlog), run);
    SentByRun(capacity, backlog, run);
    assert s.received == backlog + s.sent <==> s.queue == [] by {
      assert |s.received| + |s.queue| == |backlog + s.sent|;
      if s.queue == [] { assert s.received + [] == s.received; }
    }
  }

  /** The shortest failing run: two messages in quick succession leave the server deaf, the
      second message never received. */
  lemma SecondMessageLost(capacity: nat, m: Msg, m': Msg)
    requires capacity >= 2 && |m| > 0
    ensures var run := [Send(m), Send(m'), Move(0), Move(0), Move(0)];
      && IsRun(capacity, Init([]), run)
      && Deaf(After(capacity, Init([]), run))
      && After(capacity, Init([]), run).received == [m]
      && After(capacity, Init([]), run).queue == [m']
  {
    var s0 := Init([]);
    var s1 := Step(capacity, s0, Send(m));
    var s2 := Step(capacity, s1, Send(m'));
    var s3 := Step(capacity, s2, Move(0));
    var s4 := Step(capacity, s3, Move(0));
    var s5 := Step(capacity, s4, Move(0));
    var r5: seq<Label> := [];
    var r4 := [Move(0)] + r5;
    var r3 := [Move(0)] + r4;
    var r2 := [Move(0)] + r3;
    var r1 := [Send(m')] + r2;
    var r0 := [Send(m)] + r1;
    assert IsRun(capacity, s5, r5) && After(capacity, s5, r5) == s5;
    assert r4[1..] == r5 && IsRun(capacity, s4, r4) && After(capacity, s4, r4) == s5;
    assert r3[1..] == r4 && IsRun(capacity, s3, r3) && After(capacity, s3, r3) == s5;
    assert r2[1..] == r3 && IsRun(capacity, s2, r2) && After(capacity, s2, r2) == s5;
    assert r1[1..] == r2 && IsRun(capacity, s1, r1) && After(capacity, s1, r1) == s5;
    assert r0[1..] == r1 && IsRun(capacity, s0, r0) && After(capacity, s0, r0) == s5;
    assert r0 == [Send(m), Send(m'), Move(0), Move(0), Move(0)];
  }

  lemma {:induction false} RunExtends(capacity: nat, s: State, run: seq<Label>, l: Label)
    requires IsRun(capacity, s, run) && Enabled(capacity, After(capacity, s, run), l)
    ensures IsRun(capacity, s, run + [l])
    ensures After(capacity, s, run + [l]) == Step(capacity, After(capacity, s, run), l)
    decreases |run|
  {
    if run == [] {
      assert run + [l] == [l] && [l][1..] == [];
    } else {
      assert (run + [l])[1..] == run[1..] + [l];
      RunExtends(capacity, Step(capacity, s, run[0]), run[1..], l);
    }
  }

  lemma {:induction false} LastIsEnabled(capacity: nat, s: State, run: seq<Label>, l: Label)
    requires IsRun(capacity, s, run) && IsRun(capacity, s, run + [l])
    ensures Enabled(capacity, After(capacity, s, run), l)
    decreases |run|
  {
    if run == [] {
      assert run + [l] == [l];
    } else {
      assert (run + [l])[1..] == run[1..] + [l];
      LastIsEnabled(capacity, Step(capacity, s, run[0]), run[1..], l);
    }
  }

  /** What may come next after any run: any message, as long as the queue is not full, and a step of any handler
      that has not finished. */
  lemma AnyScheduleIff(capacity: nat, backlog: seq<Msg>, run: seq<Label>, l: Label)
    requires IsRun(capacity, Init(backlog), run)
    ensures var s := After(capacity, Init(backlog), run);
      IsRun(capacity, Init(backlog), run + [l]) <==>
      match l
      case Send(_) => |s.queue| < capacity
      case Move(h) => h < |s.handlers| && s.handlers[h] != Finished
  {
    RunKeepsInv(capacity, backlog, Init(backlog), run);
    if Enabled(capacity, After(capacity, Init(backlog), run), l) { RunExtends(capacity, Init(backlog), run, l); }
    if IsRun(capacity, Init(backlog), run + [l]) { LastIsEnabled(capacity, Init(backlog), run, l); }
  }

  /** The run ends with no handler at work and exactly the given messages sent and received. */
  predicate Delivers(capacity: nat, run: seq<Label>, msgs: seq<Msg>) {
    && IsRun(capacity, Init([]), run)
    && SentIn(run) == msgs
    && var s := After(capacity, Init([]), run);
       s.registered && s.queue == [] && s.received == msgs
  }

  lemma DeliverOne(capacity: nat, run: seq<Label>, msgs: seq<Msg>, m: Msg) returns (run': seq<Label>)
    requires capacity >= 1 && Delivers(capacity, run, msgs)
    ensures Delivers(capacity, run', msgs + [m])
  {
    RunKeepsInv(capacity, [], Init([]), run);
    SentByRun(capacity, [], run);
    var h := |After(capacity, Init([]), run).handlers|;
    RunExtends(capacity, Init([]), run, Send(m));
    run' := run + [Send(m)];
    RunExtends(capacity, Init([]), run', Move(h));
    run' := run' + [Move(h)];
    if |m| > 0 {
      RunExtends(capacity, Init([]), run', Move(h));
      run' := run' + [Move(h)];
    }
    RunExtends(capacity, Init([]), run', Move(h));
    run' := run' + [Move(h)];
    SentByRun(capacity, [], run');
  }

  /** Any sequence of messages can be delivered, one handler after the other. */
  lemma {:induction false} DeliverAll(capacity: nat, msgs: seq<Msg>) returns (run: seq<Label>)
    requires capacity >= 1
    ensures Delivers(capacity, run, msgs)
    decreases |msgs|
  {
    if msgs == [] {
      run := [];
    } else {
      var before := DeliverAll(capacity, msgs[..|msgs| - 1]);
      run := DeliverOne(capacity, before, msgs[..|msgs| - 1], msgs[|msgs| - 1]);
      assert msgs[..|msgs| - 1] + [msgs[|msgs| - 1]] == msgs;
    }
  }

  // ------------------------------------------------------ what callbacks print

  /** The text printf("%s") shows: the bytes before the first zero. */
  function CString(b: seq<Byte>): seq<Byte> {
    if b == [] || b[0] == 0 then [] else [b[0]] + CString(b[1..])
  }

  predicate NoZero(m: seq<Byte>) {
    forall i :: 0 <= i < |m| ==> m[i] != 0
  }

  lemma {:induction false} CStringOf(m: seq<Byte>, rest: seq<Byte>)
    requires NoZero(m)
    ensures CString(m + rest) == m + CString(rest)
    decreases |m|
  {
    if m == [] {
      assert m + rest == rest;
    } else {
      assert (m + rest)[1..] == m[1..] + rest;
      CStringOf(m[1..], rest);
    }
  }

  /** A buffer position is still zero exactly when no message has reached it. */
  lemma {:induction false} OverlayZero(msgs: seq<Msg>, j: nat)
    requires j <= MAX_SIZE
    requires forall i :: 0 <= i < |msgs| ==> NoZero(msgs[i])
    ensures Overlay(msgs)[j] == 0 <==> forall i :: 0 <= i < |msgs| ==> |msgs[i]| <= j
    decreases |msgs|
  {
    if msgs != [] {
      var before, last := msgs[..|msgs| - 1], msgs[|msgs| - 1];
      OverlayZero(before, j);
      assert forall i :: 0 <= i < |before| ==> before[i] == msgs[i];
    }
  }

  /** The buffer is not terminated after a receive: the text a callback prints is the message it was
      called for if and only if no earlier message was longer. */
  lemma PrintsMessageIff(earlier: seq<Msg>, m: Msg)
    requires NoZero(m) && forall i :: 0 <= i < |earlier| ==> NoZero(earlier[i])
    ensures CString(Overlay(earlier + [m])) == m <==> forall i :: 0 <= i < |earlier| ==> |earlier[i]| <= |m|
  {
    var all := earlier + [m];
    assert all[..|all| - 1] == earlier;
    var rest := Overlay(earlier)[|m|..];
    assert Overlay(all) == m + rest;
    CStringOf(m, rest);
    OverlayZero(earlier, |m|);
    assert rest[0] == Overlay(earlier)[|m|];
    if CString(rest) == [] { assert m + CString(rest) == m; }
  }

  predicate AllWithoutZero(msgs: seq<Msg>) {
    forall i :: 0 <= i < |msgs| ==> NoZero(msgs[i])
  }

  lemma {:induction false} NonemptyBound(msgs: seq<Msg>, n: nat)
    ensures (forall i :: 0 <= i < |msgs| ==> |msgs[i]| <= n) <==>
            (forall j :: 0 <= j < |Nonempty(msgs)| ==> |Nonempty(msgs)[j]| <= n)
    decreases |msgs|
  {
    if msgs != [] {
      var before, last := msgs[..|msgs| - 1], msgs[|msgs| - 1];
      NonemptyBound(before, n);
      assert forall i :: 0 <= i < |before| ==> before[i] == msgs[i];
      var short, long := Nonempty(before), Nonempty(msgs);
      assert forall j :: 0 <= j < |short| ==> short[j] == long[j];
      if |last| > n {
        assert long[|long| - 1] == last;
      } else if exists i :: 0 <= i < |before| && |before[i]| > n {
        var j :| 0 <= j < |short| && |short[j]| > n;
        assert |long[j]| > n;
      }
    }
  }

  /** The call for the last message. */
  lemma LastPrintsIff(msgs: seq<Msg>)
    requires AllWithoutZero(msgs) && msgs != [] && |msgs[|msgs| - 1]| > 0
    ensures var last, short := msgs[|msgs| - 1], Nonempty(msgs[..|msgs| - 1]);
      CString(Overlay(msgs)) == last <==> forall j :: 0 <= j < |short| ==> |short[j]| <= |last|
  {
    var before, last := msgs[..|msgs| - 1], msgs[|msgs| - 1];
    assert before + [last] == msgs;
    NonemptyBound(before, |last|);
    PrintsMessageIff(before, last);
  }

  /** The k-th call prints the k-th nonempty message. */
  ghost predicate PrintsIts(calls: seq<Call>, msgs: seq<seq<Byte>>, k: nat) {
    k < |calls| && k < |msgs| && CString(calls[k].buffer) == msgs[k]
  }

  predicate NoneLongerBefore(msgs: seq<seq<Byte>>, k: nat) {
    k < |msgs| && forall j :: 0 <= j < k ==> |msgs[j]| <= |msgs[k]|
  }

  lemma {:induction false} KthPrintsIff(msgs: seq<Msg>, k: nat)
    requires AllWithoutZero(msgs) && k < |CallsFor(msgs)|
    ensures |CallsFor(msgs)| == |Nonempty(msgs)|
    ensures PrintsIts(CallsFor(msgs), Nonempty(msgs), k) <==> NoneLongerBefore(Nonempty(msgs), k)
    decreases |msgs|
  {
    var before, last := msgs[..|msgs| - 1], msgs[|msgs| - 1];
    assert AllWithoutZero(before) by {
      assert forall i :: 0 <= i < |before| ==> before[i] == msgs[i];
    }
    var short, long := Nonempty(before), Nonempty(msgs);
    if CallsFor(before) == [] {
      SameCount(before);
      LastPrintsIff(msgs);
    } else if k < |CallsFor(before)| {
      KthPrintsIff(before, k);
      assert long[k] == short[k] && CallsFor(msgs)[k] == CallsFor(before)[k];
      assert forall j :: 0 <= j < k ==> long[j] == short[j];
    } else {
      SameCount(before);
      LastPrintsIff(msgs);
      assert forall j :: 0 <= j < k ==> long[j] == short[j];
    }
  }

  lemma {:induction false} SameCount(msgs: seq<Msg>)
    ensures |CallsFor(msgs)| == |Nonempty(msgs)|
    decreases |msgs|
  {
    if msgs != [] { SameCount(msgs[..|msgs| - 1]); }
  }

  /** In every run, with any senders and handlers: the k-th callback prints the message it was made for if and
      only if no nonempty message received before was longer. */
  lemma CallPrintsIff(capacity: nat, backlog: seq<Msg>, run: seq<Label>, k: nat)
    requires IsRun(capacity, Init(backlog), run)
    requires AllWithoutZero(backlog + SentIn(run))
    requires k < |After(capacity, Init(backlog), run).calls|
    ensures var s := After(capacity, Init(backlog), run);
      PrintsIts(s.calls, Nonempty(s.received), k) <==> NoneLongerBefore(Nonempty(s.received), k)
  {
    var s := After(capacity, Init(backlog), run);
    RunKeepsInv(capacity, backlog, Init(backlog), run);
    SentByRun(capacity, backlog, run);
    forall i | 0 <= i < |s.received| ensures NoZero(s.received[i]) {
      assert (s.received + s.queue)[i] == s.received[i];
    }
    assert s.calls <= CallsFor(s.received);
    KthPrintsIff(s.received, k);
  }

  /** A failing run for any two messages of which the second is shorter: its callback prints the second message
      followed by the rest of the first. */
  lemma StaleTail(capacity: nat, m: Msg, m': Msg) returns (run: seq<Label>)
    requires capacity >= 1 && NoZero(m) && NoZero(m') && |m| > |m'| > 0
    ensures Delivers(capacity, run, [m, m'])
    ensures var calls := After(capacity, Init([]), run).calls;
      |calls| == 2 && CString(calls[1].buffer) == m' + m[|m'|..]
  {
    run := DeliverAll(capacity, [m, m']);
    RunKeepsInv(capacity, [], Init([]), run);
    assert [m, m'][..1] == [m] && [m][..0] == [];
    assert CallsFor([m]) == [Call(|m|, Overlay([m]))];
    assert CallsFor([m, m']) == [Call(|m|, Overlay([m])), Call(|m'|, Overlay([m, m']))];
    var first := Overlay([m]);
    assert first == m + Zeros()[|m|..];
    var all := m' + m[|m'|..];
    assert Overlay([m, m']) == m' + first[|m'|..] == all + Zeros()[|m|..];
    assert CString(Zeros()[|m|..]) == [];
    CStringOf(all, Zeros()[|m|..]);
    assert all + [] == all;
  }

  // ------------------------------------------------------ the handler as code

  /** mq_info_t and the queue behind it, with the history and the handler threads as bookkeeping. */
  class Server {
    const capacity: nat
    const buffer: array<Byte>
    var queue: seq<Msg>
    var registered: bool
    var calls: seq<Call>
    var exited: bool
    ghost var handlers: seq<HandlerPc>
    ghost var sent: seq<Msg>
    ghost var received: seq<Msg>

    ghost function Shared(): State
      reads this, buffer
    {
      State(queue, registered, handlers, buffer[..], sent, received, calls, exited)
    }

    /** Opening: the buffer is zeroed and the process registered; the queue may hold messages. */
    constructor (capacity: nat, backlog: seq<Msg>)
      ensures Shared() == Init(backlog) && this.capacity == capacity && fresh(buffer)
    {
      this.capacity := capacity;
      buffer := new Byte[MAX_SIZE + 1](_ => 0);
      queue, registered, calls, exited := backlog, true, [], false;
      handlers, sent, received := [], [], [];
      new;
      assert buffer[..] == Zeros();
    }

    /** mq_receive without blocking: the oldest message into the buffer, or -1. */
    method Receive() returns (n: int)
      requires buffer.Length == MAX_SIZE + 1
      modifies this`queue, this`received, buffer
      ensures old(queue) == [] ==> n == -1 && queue == [] && received == old(received) && buffer[..] == old(buffer[..])
      ensures old(queue) != [] ==>
        && n == |old(queue)[0]|
        && queue == old(queue)[1..]
        && received == old(received) + [old(queue)[0]]
        && buffer[..] == Overwrite(old(buffer[..]), old(queue)[0])
        && (forall j :: 0 <= j < n ==> buffer[j] == old(queue)[0][j])
        && (forall j :: n <= j < buffer.Length ==> buffer[j] == old(buffer[j]))
    {
      if queue == [] {
        return -1;
      }
      var m := queue[0];
      queue, received := queue[1..], received + [m];
      n := |m|;
      forall j | 0 <= j < |m| {
        buffer[j] := m[j];
      }
      assert buffer[..] == m + old(buffer[..])[|m|..];
    }

    /** sigHandler run by thread h while nobody else moves: it is a run of the step relation in which only h
        moves, and it ends finished, or in the process exiting if the queue was registered already. */
    method SigHandler(ghost h: nat) returns (ghost run: seq<Label>)
      requires buffer.Length == MAX_SIZE + 1 && !exited && h < |handlers| && handlers[h] == ToReceive
      modifies this, buffer
      ensures IsRun(capacity, old(Shared()), run) && After(capacity, old(Shared()), run) == Shared()
      ensures forall i :: 0 <= i < |run| ==> run[i] == Move(h)
      ensures exited == old(registered)
      ensures |handlers| == |old(handlers)| && (!exited ==> handlers[h] == Finished && registered)
    {
      ghost var s := Shared();
      run := [];
      RunExtends(capacity, s, run, Move(h));
      var bytesRead := Receive();
      handlers := handlers[h := if bytesRead > 0 then ToCallback(bytesRead) else ToRegister];
      run := run + [Move(h)];
      if bytesRead > 0 {
        RunExtends(capacity, s, run, Move(h));
        calls := calls + [Call(bytesRead, buffer[..])];
        handlers := handlers[h := ToRegister];
        run := run + [Move(h)];
      }
      RunExtends(capacity, s, run, Move(h));
      if registered {                        // mq_notify fails
        exited := true;
      } else {
        registered := true;
        handlers := handlers[h := Finished];
      }
      run := run + [Move(h)];
    }
  }
}
