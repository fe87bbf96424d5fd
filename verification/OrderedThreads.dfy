/**
  The ordered-printing protocol of conditional_wait: threads share an integer
  `count`, one mutex and one condition variable, and thread number i may print
  only when `count == i`.  The model has any number of threads; the last one is
  the copy that does not increment (`function4`).  Threads are indexed from 0, so
  the thread with index t is the program's function t+1.

  Every statement of a thread that touches shared state is one step, steps of
  different threads interleave arbitrarily, and a waiting thread may wake up
  spuriously at any time.
 */
module OrderedThreads {

  /** Where a thread is: the statement it executes next. */
  datatype Pc =
    | ToLock        // pthread_mutex_lock at the loop head
    | ToTest        // if (count == i), mutex held
    | ToPrint       // printf, mutex held
    | ToIncrement   // count++, mutex held
    | ToUnlock      // pthread_mutex_unlock before the broadcast, mutex held
    | ToBroadcast   // pthread_cond_broadcast, mutex released
    | Returned
    | ToWait        // about to call pthread_cond_wait, mutex held
    | Waiting       // blocked on the condition variable
    | Woken         // unblocked, must take the mutex again inside pthread_cond_wait
    | ToRelease     // pthread_mutex_unlock after the wait, mutex held

  datatype Owner = Free | Held(thread: nat)

  datatype State = State(count: int, owner: Owner, pc: seq<Pc>, output: seq<int>)

  /** A scheduling choice: a thread executes its next statement, or wakes up unprompted. */
  datatype Label = Move(thread: nat) | Spurious(thread: nat)

  function Init(n: nat): State {
    State(1, Free, seq(n, _ => ToLock), [])
  }

  /** pthread_cond_broadcast: every thread blocked on the condition is unblocked. */
  function WakeAll(pc: seq<Pc>): (r: seq<Pc>)
    ensures |r| == |pc|
  {
    seq(|pc|, i requires 0 <= i < |pc| => if pc[i] == Waiting then Woken else pc[i])
  }

  predicate Enabled(s: State, l: Label) {
    && l.thread < |s.pc|
    && match l
       case Move(t) =>
         (match s.pc[t]
          case ToLock => s.owner == Free
          case Woken => s.owner == Free
          case Waiting => false
          case Returned => false
          case _ => true)
       case Spurious(t) => s.pc[t] == Waiting
  }

  function Step(s: State, l: Label): State
    requires Enabled(s, l)
  {
    var t := l.thread;
    if l.Spurious? then
      s.(pc := s.pc[t := Woken])
    else
      match s.pc[t]
      case ToLock => s.(owner := Held(t), pc := s.pc[t := ToTest])
      case ToTest => s.(pc := s.pc[t := if s.count == t + 1 then ToPrint else ToWait])
      case ToPrint =>
        s.(output := s.output + [t + 1], pc := s.pc[t := if t + 1 == |s.pc| then ToUnlock else ToIncrement])
      case ToIncrement => s.(count := s.count + 1, pc := s.pc[t := ToUnlock])
      case ToUnlock => s.(owner := Free, pc := s.pc[t := ToBroadcast])
      case ToBroadcast => s.(pc := WakeAll(s.pc)[t := Returned])
      case ToWait => s.(owner := Free, pc := s.pc[t := Waiting])
      case Woken => s.(owner := Held(t), pc := s.pc[t := ToRelease])
      case ToRelease => s.(owner := Free, pc := s.pc[t := ToLock])
  }

  /** `run` is an executable schedule from s. */
  predicate IsRun(s: State, run: seq<Label>)
    decreases |run|
  {
    run == [] || (Enabled(s, run[0]) && IsRun(Step(s, run[0]), run[1..]))
  }

  function After(s: State, run: seq<Label>): State
    requires IsRun(s, run)
    decreases |run|
  {
    if run == [] then s else After(Step(s, run[0]), run[1..])
  }

  // ------------------------------------------------------------------ wakeups

  /** The label makes thread t broadcast. */
  predicate IsBroadcast(s: State, l: Label) {
    l.Move? && l.thread < |s.pc| && s.pc[l.thread] == ToBroadcast
  }

  /** pthread_cond_broadcast unblocks every thread that waits, and does nothing else to the others. */
  lemma BroadcastWakesAll(s: State, t: nat)
    requires Enabled(s, Move(t)) && s.pc[t] == ToBroadcast
    ensures var s' := Step(s, Move(t));
      && |s'.pc| == |s.pc|
      && (forall u: nat :: u < |s.pc| ==> s'.pc[u] != Waiting)
      && (forall u: nat :: u < |s.pc| && s.pc[u] == Waiting ==> s'.pc[u] == Woken)
      && (forall u: nat :: u < |s.pc| && s.pc[u] != Waiting && u != t ==> s'.pc[u] == s.pc[u])
      && s'.pc[t] == Returned
      && s'.count == s.count && s'.owner == s.owner && s'.output == s.output
  {}

  /** A thread that waits is unblocked by a broadcast or by its own spurious wakeup and by nothing else, and it is
      then woken; any other thread that does not move stays where it is. */
  lemma BlockedUntilWoken(s: State, l: Label, u: nat)
    requires Enabled(s, l) && u < |s.pc|
    ensures |Step(s, l).pc| == |s.pc|
    ensures s.pc[u] == Waiting ==>
      Step(s, l).pc[u] == if l == Spurious(u) || IsBroadcast(s, l) then Woken else Waiting
    ensures s.pc[u] != Waiting && u != l.thread ==> Step(s, l).pc[u] == s.pc[u]
  {}

  // ---------------------------------------------------------------- invariant

  predicate InCritical(p: Pc) {
    p in {ToTest, ToPrint, ToIncrement, ToUnlock, ToWait, ToRelease}
  }

  /** The thread has had its turn. */
  predicate Passed(p: Pc) {
    p in {ToUnlock, ToBroadcast, Returned}
  }

  /** The thread is going round its loop without having seen its turn. */
  predicate Circling(p: Pc) {
    p in {ToLock, ToTest, ToWait, Waiting, Woken, ToRelease}
  }

  predicate ThreadOk(s: State, t: nat)
    requires t < |s.pc|
  {
    var p := s.pc[t];
    && (InCritical(p) <==> s.owner == Held(t))
    && (t + 1 < s.count ==> Passed(p))
    && (t + 1 > s.count ==> Circling(p))
    && (t + 1 == s.count && t + 1 < |s.pc| ==> !Passed(p))
    && (p == ToIncrement ==> t + 1 < |s.pc|)
    && (p == ToWait ==> s.count != t + 1)
    // no lost wakeup: whoever waits although it is its turn has a broadcast coming
    && (p == Waiting && s.count == t + 1 ==> t > 0 && s.pc[t - 1] in {ToUnlock, ToBroadcast})
  }

  /** The numbers 1, 2, .., k: what the program is meant to print. */
  function UpTo(k: nat): seq<int> {
    seq(k, i => i + 1)
  }

  predicate HasPrinted(p: Pc) {
    p == ToIncrement || Passed(p)
  }

  predicate Inv(s: State) {
    && 1 <= s.count <= |s.pc|
    && (s.owner.Held? ==> s.owner.thread < |s.pc|)
    && (forall t: nat :: t < |s.pc| ==> ThreadOk(s, t))
    && s.output == UpTo(if HasPrinted(s.pc[s.count - 1]) then s.count else s.count - 1)
  }

  lemma StepKeepsThreads(s: State, l: Label, u: nat)
    requires Inv(s) && Enabled(s, l) && u < |s.pc|
    ensures u < |Step(s, l).pc| && ThreadOk(Step(s, l), u)
  {
    assert ThreadOk(s, l.thread) && ThreadOk(s, u);
    if u > 0 { assert ThreadOk(s, u - 1); }
  }

  lemma StepKeepsInv(s: State, l: Label)
    requires Inv(s) && Enabled(s, l)
    ensures Inv(Step(s, l)) && |Step(s, l).pc| == |s.pc|
    ensures s.count <= Step(s, l).count
    ensures s.output <= Step(s, l).output
  {
    var s' := Step(s, l);
    assert ThreadOk(s, l.thread) && ThreadOk(s, s.count - 1);
    forall u: nat | u < |s'.pc| ensures ThreadOk(s', u) {
      StepKeepsThreads(s, l, u);
    }
    if s.count < |s.pc| { assert ThreadOk(s, s.count); }
  }

  // ------------------------------------------------------------ safety of runs

  lemma {:induction false} RunKeepsInv(s: State, run: seq<Label>)
    requires Inv(s) && IsRun(s, run)
    ensures Inv(After(s, run)) && |After(s, run).pc| == |s.pc|
    ensures s.count <= After(s, run).count
    ensures s.output <= After(s, run).output
    decreases |run|
  {
    if run != [] {
      StepKeepsInv(s, run[0]);
      RunKeepsInv(Step(s, run[0]), run[1..]);
    }
  }

  lemma InitInv(n: nat)
    requires n >= 1
    ensures Inv(Init(n))
  {
    assert forall t: nat :: t < n ==> ThreadOk(Init(n), t);
  }

  /** Output order: whatever the interleaving, the output so far is a prefix of 1..n,
      and `count` stays between 1 and n. */
  lemma OutputInOrder(n: nat, run: seq<Label>)
    requires n >= 1 && IsRun(Init(n), run)
    ensures var s := After(Init(n), run);
      && s.output <= UpTo(n)
      && 1 <= s.count <= n
      && s.count - 1 <= |s.output| <= s.count
  {
    InitInv(n);
    RunKeepsInv(Init(n), run);
  }

  /** At most one thread is between taking and releasing the mutex. */
  lemma MutualExclusion(n: nat, run: seq<Label>, t: nat, u: nat)
    requires n >= 1 && IsRun(Init(n), run)
    requires t < n && u < n
    ensures var s := After(Init(n), run);
      |s.pc| == n && (InCritical(s.pc[t]) && InCritical(s.pc[u]) ==> t == u)
  {
    InitInv(n);
    RunKeepsInv(Init(n), run);
    var s := After(Init(n), run);
    assert ThreadOk(s, t) && ThreadOk(s, u);
  }

  /** No lost wakeup: a thread blocked on the condition although its turn has come
      always has its predecessor still on the way to the broadcast. */
  lemma NoLostWakeup(n: nat, run: seq<Label>, t: nat)
    requires n >= 1 && IsRun(Init(n), run) && t < n
    ensures var s := After(Init(n), run);
      |s.pc| == n &&
      (s.count == t + 1 && s.pc[t] == Waiting ==> t > 0 && s.pc[t - 1] in {ToUnlock, ToBroadcast})
  {
    InitInv(n);
    RunKeepsInv(Init(n), run);
    assert ThreadOk(After(Init(n), run), t);
  }

  // ----------------------------------------------------- deadlock freedom

  predicate AllReturned(s: State) {
    forall t: nat :: t < |s.pc| ==> s.pc[t] == Returned
  }

  /** No thread can execute its next statement (a blocked one might still wake up spuriously). */
  ghost predicate Halted(s: State) {
    forall t: nat :: !Enabled(s, Move(t))
  }

  /** A thread that can move without the help of a spurious wakeup. */
  lemma FindMover(s: State) returns (t: nat)
    requires Inv(s) && !AllReturned(s)
    ensures Enabled(s, Move(t))
  {
    var turn := s.count - 1;
    assert ThreadOk(s, turn);
    if s.owner.Held? {
      t := s.owner.thread;
      assert ThreadOk(s, t);
    } else if s.pc[turn] == Waiting {
      t := turn - 1;
      assert ThreadOk(s, t);
    } else if s.pc[turn] == Returned {
      t :| t < |s.pc| && s.pc[t] != Returned;
      assert ThreadOk(s, t);
    } else {
      t := turn;
    }
  }

  /** Deadlock freedom: in every reachable state either every thread has returned or
      some thread can execute its next statement. */
  lemma NoDeadlock(n: nat, run: seq<Label>)
    requires n >= 1 && IsRun(Init(n), run)
    ensures AllReturned(After(Init(n), run)) || !Halted(After(Init(n), run))
  {
    InitInv(n);
    RunKeepsInv(Init(n), run);
    if !AllReturned(After(Init(n), run)) {
      var t := FindMover(After(Init(n), run));
    }
  }

  // ------------------------------------------------------------- termination

  /** How many statements a thread can still execute before it blocks or broadcasts. */
  function Rank(p: Pc): nat {
    match p
    case Returned => 0
    case Waiting => 0
    case ToBroadcast => 0
    case ToWait => 1
    case ToUnlock => 1
    case ToIncrement => 2
    case ToPrint => 3
    case ToTest => 4
    case ToLock => 5
    case ToRelease => 6
    case Woken => 7
  }

  /** A thread that has not returned is worth one broadcast, which outweighs
      whatever its broadcast can set in motion. */
  function Weight(n: nat, p: Pc): nat {
    if p == Returned then 0 else 7 * n + 1 + Rank(p)
  }

  function Measure(n: nat, pc: seq<Pc>): nat {
    if pc == [] then 0 else Weight(n, pc[0]) + Measure(n, pc[1..])
  }

  lemma {:induction false} MeasureUpdate(n: nat, pc: seq<Pc>, t: nat, p: Pc)
    requires t < |pc|
    ensures Measure(n, pc[t := p]) == Measure(n, pc) - Weight(n, pc[t]) + Weight(n, p)
    decreases |pc|
  {
    if t == 0 {
      assert pc[t := p][1..] == pc[1..];
    } else {
      assert pc[t := p][1..] == pc[1..][t - 1 := p];
      MeasureUpdate(n, pc[1..], t - 1, p);
    }
  }

  lemma {:induction false} MeasureWakeAll(n: nat, pc: seq<Pc>)
    ensures Measure(n, WakeAll(pc)) <= Measure(n, pc) + 7 * |pc|
    decreases |pc|
  {
    if pc != [] {
      assert WakeAll(pc)[1..] == WakeAll(pc[1..]);
      MeasureWakeAll(n, pc[1..]);
    }
  }

  lemma {:induction false} MeasureUniform(n: nat, k: nat)
    ensures Measure(n, seq(k, _ => ToLock)) == k * (7 * n + 6)
  {
    if k > 0 {
      assert seq(k, _ => ToLock)[1..] == seq(k - 1, _ => ToLock);
      MeasureUniform(n, k - 1);
      assert k * (7 * n + 6) == (k - 1) * (7 * n + 6) + (7 * n + 6);
    }
  }

  lemma StepDecreasesMeasure(s: State, l: Label)
    requires Enabled(s, l)
    ensures |Step(s, l).pc| == |s.pc|
    ensures l.Move? ==> Measure(|s.pc|, Step(s, l).pc) < Measure(|s.pc|, s.pc)
    ensures l.Spurious? ==> Measure(|s.pc|, Step(s, l).pc) == Measure(|s.pc|, s.pc) + 7
  {
    var n, t := |s.pc|, l.thread;
    if l.Move? && s.pc[t] == ToBroadcast {
      MeasureWakeAll(n, s.pc);
      MeasureUpdate(n, WakeAll(s.pc), t, Returned);
    } else {
      MeasureUpdate(n, s.pc, t, Step(s, l).pc[t]);
    }
  }

  function SpuriousCount(run: seq<Label>): nat {
    if run == [] then 0 else (if run[0].Spurious? then 1 else 0) + SpuriousCount(run[1..])
  }

  lemma {:induction false} RunBoundFrom(s: State, run: seq<Label>)
    requires IsRun(s, run)
    ensures |After(s, run).pc| == |s.pc|
    ensures |run| + Measure(|s.pc|, After(s, run).pc) <= Measure(|s.pc|, s.pc) + 8 * SpuriousCount(run)
    decreases |run|
  {
    if run != [] {
      StepDecreasesMeasure(s, run[0]);
      RunBoundFrom(Step(s, run[0]), run[1..]);
    }
  }

  /** Termination: the length of a run is bounded by the number of threads and the
      number of spurious wakeups in it, so no run with finitely many of them is infinite. */
  lemma RunBound(n: nat, run: seq<Label>)
    requires IsRun(Init(n), run)
    ensures |run| <= n * (7 * n + 6) + 8 * SpuriousCount(run)
  {
    RunBoundFrom(Init(n), run);
    MeasureUniform(n, n);
  }

  /** Outcome: a run that cannot be continued has every thread returned and has
      printed exactly 1..n, with the mutex free and `count` left at n. */
  lemma MaximalRunPrintsAll(n: nat, run: seq<Label>)
    requires n >= 1 && IsRun(Init(n), run)
    requires Halted(After(Init(n), run))
    ensures var s := After(Init(n), run);
      AllReturned(s) && s.output == UpTo(n) && s.count == n && s.owner == Free
  {
    InitInv(n);
    RunKeepsInv(Init(n), run);
    var s := After(Init(n), run);
    if !AllReturned(s) {
      var t := FindMover(s);
      assert false;
    }
    assert ThreadOk(s, s.count - 1);
    assert s.owner.Held? ==> ThreadOk(s, s.owner.thread);
  }

  lemma {:induction false} FinishFrom(s: State) returns (rest: seq<Label>)
    requires Inv(s)
    ensures IsRun(s, rest) && SpuriousCount(rest) == 0 && AllReturned(After(s, rest))
    decreases Measure(|s.pc|, s.pc)
  {
    if AllReturned(s) {
      rest := [];
    } else {
      var t := FindMover(s);
      StepKeepsInv(s, Move(t));
      StepDecreasesMeasure(s, Move(t));
      var tail := FinishFrom(Step(s, Move(t)));
      rest := [Move(t)] + tail;
      assert rest[1..] == tail;
    }
  }

  /** Whatever has happened so far, the program can still complete without any spurious wakeup. */
  lemma CanAlwaysFinish(n: nat, run: seq<Label>) returns (rest: seq<Label>)
    requires n >= 1 && IsRun(Init(n), run)
    ensures IsRun(After(Init(n), run), rest) && SpuriousCount(rest) == 0
    ensures AllReturned(After(After(Init(n), run), rest))
  {
    InitInv(n);
    RunKeepsInv(Init(n), run);
    rest := FinishFrom(After(Init(n), run));
  }

  lemma AnyThreads(n: nat, run: seq<Label>)
    requires n >= 1 && IsRun(Init(n), run)
    ensures After(Init(n), run).output <= UpTo(n)
    ensures |run| <= n * (7 * n + 6) + 8 * SpuriousCount(run)
    ensures Halted(After(Init(n), run)) ==>
              AllReturned(After(Init(n), run)) && After(Init(n), run).output == UpTo(n)
  {
    OutputInOrder(n, run);
    RunBound(n, run);
    if Halted(After(Init(n), run)) {
      MaximalRunPrintsAll(n, run);
    }
  }

  lemma UpToFour(n: nat)
    requires n == 4
    ensures UpTo(n) == [1, 2, 3, 4]
  {}

  /** The program itself, which has four threads. */
  lemma FourThreads(run: seq<Label>)
    requires IsRun(Init(4), run)
    ensures After(Init(4), run).output <= [1, 2, 3, 4]
    ensures |run| <= 136 + 8 * SpuriousCount(run)
    ensures Halted(After(Init(4), run)) ==>
              AllReturned(After(Init(4), run)) && After(Init(4), run).output == [1, 2, 3, 4]
  {
    UpToFour(4);
    AnyThreads(4, run);
  }

  // ------------------------------------------------------ the threads as code

  lemma {:induction false} RunExtends(s: State, run: seq<Label>, l: Label)
    requires IsRun(s, run) && Enabled(After(s, run), l)
    ensures IsRun(s, run + [l]) && After(s, run + [l]) == Step(After(s, run), l)
    decreases |run|
  {
    if run == [] {
      assert run + [l] == [l] && [l][1..] == [];
    } else {
      assert (run + [l])[1..] == run[1..] + [l];
      RunExtends(Step(s, run[0]), run[1..], l);
    }
  }

  lemma {:induction false} LastIsEnabled(s: State, run: seq<Label>, l: Label)
    requires IsRun(s, run) && IsRun(s, run + [l])
    ensures Enabled(After(s, run), l)
    decreases |run|
  {
    if run == [] {
      assert run + [l] == [l];
    } else {
      assert (run + [l])[1..] == run[1..] + [l];
      LastIsEnabled(Step(s, run[0]), run[1..], l);
    }
  }

  /** Which threads the scheduler may pick after any run: every one that neither waits, nor has returned, nor
      wants the mutex while another has it; and every waiter may be woken spuriously. */
  lemma AnyScheduleIff(n: nat, run: seq<Label>, l: Label)
    requires IsRun(Init(n), run)
    ensures var s := After(Init(n), run);
      IsRun(Init(n), run + [l]) <==>
      && l.thread < |s.pc|
      && match l
         case Spurious(t) => s.pc[t] == Waiting
         case Move(t) =>
           && s.pc[t] != Waiting && s.pc[t] != Returned
           && (s.pc[t] == ToLock || s.pc[t] == Woken ==> s.owner == Free)
  {
    if Enabled(After(Init(n), run), l) { RunExtends(Init(n), run, l); }
    if IsRun(Init(n), run + [l]) { LastIsEnabled(Init(n), run, l); }
  }

  /** The shared variables, with the threads' positions as bookkeeping. */
  class Program {
    var count: int
    var mutex: Owner
    var output: seq<int>
    ghost var pc: seq<Pc>

    ghost function Shared(): State
      reads this
    {
      State(count, mutex, pc, output)
    }

    constructor (ghost n: nat)
      ensures Shared() == Init(n)
    {
      count, mutex, output, pc := 1, Free, [], seq(n, _ => ToLock);
    }

    /** The shared variables are where the run, in which only t moves, leads from s. */
    ghost predicate Reached(s: State, run: seq<Label>, t: nat)
      reads this
    {
      && IsRun(s, run) && After(s, run) == Shared()
      && forall i :: 0 <= i < |run| ==> run[i] == Move(t)
    }

    /** The end of the turn: unlock, broadcast, return. */
    method Leave(t: nat, ghost s: State, ghost before: seq<Label>) returns (ghost run: seq<Label>)
      requires Reached(s, before, t)
      requires t < |pc| && pc[t] == ToUnlock
      modifies this
      ensures Reached(s, run, t) && |pc| == |old(pc)| && pc[t] == Returned
      ensures output == old(output) && count == old(count) && mutex == Free
      ensures forall u: nat :: u < |pc| && u != t ==> pc[u] == if old(pc)[u] == Waiting then Woken else old(pc)[u]
    {
      RunExtends(s, before, Move(t));
      mutex := Free;                         // pthread_mutex_unlock
      pc := pc[t := ToBroadcast];
      run := before + [Move(t)];
      RunExtends(s, run, Move(t));
      pc := WakeAll(pc)[t := Returned];      // pthread_cond_broadcast
      run := run + [Move(t)];
    }

    /** The branch of the loop in which it is the thread's turn. */
    method TakeTurn(t: nat, last: bool, ghost s: State, ghost before: seq<Label>) returns (ghost run: seq<Label>)
      requires Reached(s, before, t)
      requires t < |pc| && pc[t] == ToPrint && last == (t + 1 == |pc|)
      modifies this
      ensures Reached(s, run, t) && |pc| == |old(pc)| && pc[t] == Returned
      ensures output == old(output) + [t + 1] && count == old(count) + (if last then 0 else 1) && mutex == Free
      ensures forall u: nat :: u < |pc| && u != t ==> pc[u] == if old(pc)[u] == Waiting then Woken else old(pc)[u]
    {
      RunExtends(s, before, Move(t));
      output := output + [t + 1];            // printf
      pc := pc[t := if last then ToUnlock else ToIncrement];
      run := before + [Move(t)];
      if !last {
        RunExtends(s, run, Move(t));
        count := count + 1;                  // count++
        pc := pc[t := ToUnlock];
        run := run + [Move(t)];
      }
      run := Leave(t, s, run);
    }

    /** What a pass of thread t from s leaves: it has had its turn and has unblocked every waiter, or it waits and
        nothing else has changed. */
    ghost predicate HadItsPass(s: State, t: nat, last: bool, returned: bool)
      reads this
    {
      && |pc| == |s.pc| && t < |pc|
      && if returned then
           && pc[t] == Returned
           && output == s.output + [t + 1] && count == s.count + (if last then 0 else 1) && mutex == Free
           && forall u: nat :: u < |pc| && u != t ==> pc[u] == if s.pc[u] == Waiting then Woken else s.pc[u]
         else Shared() == s.(pc := s.pc[t := Waiting], owner := Free)
    }

    /** One pass of thread t through its loop while nobody else moves, up to its return or its wait: it is
        a run of the step relation in which only t moves. */
    method Pass(t: nat, last: bool) returns (returned: bool, ghost run: seq<Label>)
      requires t < |pc| && pc[t] == ToLock && mutex == Free && last == (t + 1 == |pc|)
      modifies this
      ensures Reached(old(Shared()), run, t)
      ensures returned == (old(count) == t + 1)
      ensures HadItsPass(old(Shared()), t, last, returned)
    {
      returned, run := PassFrom(t, last, Shared(), []);
    }

    method PassFrom(t: nat, last: bool, ghost s: State, ghost before: seq<Label>)
      returns (returned: bool, ghost run: seq<Label>)
      requires Reached(s, before, t)
      requires t < |pc| && pc[t] == ToLock && mutex == Free && last == (t + 1 == |pc|)
      modifies this
      ensures Reached(s, run, t)
      ensures returned == (old(count) == t + 1)
      ensures HadItsPass(old(Shared()), t, last, returned)
    {
      RunExtends(s, before, Move(t));
      mutex := Held(t);                      // pthread_mutex_lock
      pc := pc[t := ToTest];
      run := before + [Move(t)];
      RunExtends(s, run, Move(t));
      run := run + [Move(t)];
      if count == t + 1 {
        pc := pc[t := ToPrint];
        run := TakeTurn(t, last, s, run);
        returned := true;
      } else {
        pc := pc[t := ToWait];
        RunExtends(s, run, Move(t));
        mutex := Free;                       // pthread_cond_wait
        pc := pc[t := Waiting];
        run := run + [Move(t)];
        returned := false;
      }
    }

    /** The woken half of the wait while nobody else moves: pthread_cond_wait takes the mutex again and returns,
        the mutex is released, and the thread is back at its loop head with nothing else changed. */
    method Resume(t: nat, ghost s: State, ghost before: seq<Label>) returns (ghost run: seq<Label>)
      requires Reached(s, before, t)
      requires t < |pc| && pc[t] == Woken && mutex == Free
      modifies this
      ensures Reached(s, run, t)
      ensures Shared() == old(Shared()).(pc := old(pc)[t := ToLock])
    {
      RunExtends(s, before, Move(t));
      mutex := Held(t);                      // pthread_cond_wait returns
      pc := pc[t := ToRelease];
      run := before + [Move(t)];
      RunExtends(s, run, Move(t));
      mutex := Free;                         // pthread_mutex_unlock
      pc := pc[t := ToLock];
      run := run + [Move(t)];
    }

    /** A woken thread by itself: it goes round its loop, and then has its turn or waits again. */
    method Retry(t: nat, last: bool) returns (returned: bool, ghost run: seq<Label>)
      requires t < |pc| && pc[t] == Woken && mutex == Free && last == (t + 1 == |pc|)
      modifies this
      ensures Reached(old(Shared()), run, t)
      ensures returned == (old(count) == t + 1)
      ensures HadItsPass(old(Shared()), t, last, returned)
    {
      ghost var s := Shared();
      run := Resume(t, s, []);
      returned, run := PassFrom(t, last, s, run);
    }
  }
}
