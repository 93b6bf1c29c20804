module CheckQueue {
  // The parallel check queue: one master and any number of workers share a stack of
  // checks under one mutex, with one condition variable for the master and one for
  // the workers.
  //
  // All shared fields are read and written only while the mutex is held, so a stretch
  // of code between taking the mutex and giving it up (by `wait`, by returning or by
  // leaving the block) is one step here. Steps of different threads interleave freely,
  // and waiting threads may also wake up for no reason.

  /** A queued check, with the answer it gives if it is run. */
  datatype Check = Check(id: nat, passes: bool)

  /** Where a thread stands in `Loop`. Thread 0 is the master, the others are workers. */
  datatype Thread =
    | Outside                                        // not in Loop
    | AtLock(nNow: nat, fOk: bool)                   // about to take the mutex, nNow checks to account for
    | Waiting                                        // blocked on its condition variable
    | Woken                                          // notified, still has to take the mutex again
    | Working(rest: seq<Check>, nNow: nat, fOk: bool) // running its batch, mutex released

  /** One completed `Wait`: the checks added since the one before, and what it returned. */
  datatype Round = Round(checks: seq<Check>, verdict: bool)

  /** The queue object, its threads, and the history of the rounds. */
  datatype State = State(
    queue: seq<Check>, nIdle: int, nTotal: int, fAllOk: bool, nTodo: int, nBatchSize: nat,
    threads: seq<Thread>, added: seq<Check>, rounds: seq<Round>)

  datatype Step =
    | Call(t: nat)                          // a thread calls Loop
    | Enter(t: nat)                         // takes the mutex at the top of the do loop
    | Resume(t: nat)                        // takes the mutex again after a wake-up
    | RunCheck(t: nat)                      // runs or skips the next check of its batch
    | Finish(t: nat)                        // has gone through its whole batch
    | Spurious(t: nat)                      // wakes up without having been notified
    | Add(checks: seq<Check>, pick: nat)    // the master adds checks; notify_one would wake pick

  predicate AllPass(checks: seq<Check>) {
    forall i :: 0 <= i < |checks| ==> checks[i].passes
  }

  //////////////////////////////////////////////////////////////////////////////
  // The steps
  //////////////////////////////////////////////////////////////////////////////

  function Min(a: int, b: int): int { if a < b then a else b }

  function Max(a: int, b: int): int { if a < b then b else a }

  /** How many checks a thread takes from a non-empty queue. */
  function BatchSize(queued: nat, nBatchSize: nat, nTotal: int, nIdle: int): (n: nat)
    requires queued > 0
    ensures 1 <= n <= queued && n <= Max(1, nBatchSize)
    ensures nTotal + nIdle >= 0 ==> Share(queued, nBatchSize, nTotal + nIdle + 1, n)
  {
    // CountersExact makes the divisor nTotal + nIdle + 1 in every reachable state.
    var d := Max(1, nTotal + nIdle + 1);
    ShareIs(queued, nBatchSize, d);
    Max(1, Min(nBatchSize, queued / d))
  }

  /** The most that is within the limit and that so many threads could each take, but at least one. */
  predicate Share(queued: nat, limit: nat, threads: nat, n: nat) {
    && (n == 1 || (n <= limit && n * threads <= queued))
    && (n >= limit || (n + 1) * threads > queued)
  }

  lemma Quotient(a: nat, d: nat)
    requires d > 0
    ensures a / d * d <= a < (a / d + 1) * d
  {
    assert a == a / d * d + a % d;
  }

  lemma MulMono(a: nat, b: nat, d: nat)
    requires a <= b
    ensures a * d <= b * d
  {
  }

  lemma ShareIs(queued: nat, limit: nat, d: nat)
    requires d > 0
    ensures Share(queued, limit, d, Max(1, Min(limit, queued / d)))
  {
    var n := Max(1, Min(limit, queued / d));
    Quotient(queued, d);
    if n < limit {
      MulMono(queued / d + 1, n + 1, d);
    } else if n > 1 {
      MulMono(n, queued / d, d);
    }
  }

  /** The last n elements, last first. */
  function TopOf<T>(s: seq<T>, n: nat): (r: seq<T>)
    requires n <= |s|
    ensures |r| == n && forall i :: 0 <= i < n ==> r[i] == s[|s| - 1 - i]
  {
    seq(n, i requires 0 <= i < n => s[|s| - 1 - i])
  }

  /** From `while (queue.empty())` until the thread gives up the mutex. */
  function LoopHead(s: State, t: nat): State
    requires t < |s.threads|
  {
    if s.queue == [] then
      if t == 0 && s.nTodo == 0 then
        s.(nTotal := s.nTotal - 1, fAllOk := true, threads := s.threads[0 := Outside],
           added := [], rounds := s.rounds + [Round(s.added, s.fAllOk)])
      else
        s.(nIdle := s.nIdle + 1, threads := s.threads[t := Waiting])
    else
      var n := BatchSize(|s.queue|, s.nBatchSize, s.nTotal, s.nIdle);
      s.(queue := s.queue[..|s.queue| - n],
         threads := s.threads[t := Working(TopOf(s.queue, n), n, s.fAllOk)])
  }

  /** Accounts for the batch just run, or for the thread joining. */
  function CleanUp(s: State, t: nat, nNow: nat, fOk: bool): (r: State)
    requires t < |s.threads|
  {
    if nNow > 0 then
      var nTodo := s.nTodo - nNow;
      var threads := if nTodo == 0 && t != 0 && s.threads[0].Waiting? then s.threads[0 := Woken] else s.threads;
      s.(fAllOk := s.fAllOk && fOk, nTodo := nTodo, threads := threads)
    else
      s.(nTotal := s.nTotal + 1)
  }

  predicate SomeWorkerWaits(threads: seq<Thread>) {
    exists i :: 0 < i < |threads| && threads[i].Waiting?
  }

  /** What `notify_one` (one check) and `notify_all` (more) do to the workers. */
  function Notify(threads: seq<Thread>, howMany: nat, pick: nat): (r: seq<Thread>)
    ensures |r| == |threads| && (threads != [] ==> r[0] == threads[0])
    ensures howMany > 1 ==> forall i :: 0 < i < |r| ==> !r[i].Waiting?
    ensures howMany <= 1 ==> forall i :: 0 <= i < |r| && (howMany == 0 || i != pick) ==> r[i] == threads[i]
    ensures forall i :: 0 <= i < |r| && !threads[i].Waiting? ==> r[i] == threads[i]
  {
    seq(|threads|, i requires 0 <= i < |threads| =>
      if 0 < i && threads[i].Waiting? && (howMany > 1 || (howMany == 1 && i == pick)) then Woken else threads[i])
  }

  predicate Enabled(s: State, step: Step) {
    match step
    case Add(checks, pick) =>
      && |s.threads| > 0 && s.threads[0].Outside?
      && (|checks| == 1 && SomeWorkerWaits(s.threads) ==>
            0 < pick < |s.threads| && s.threads[pick].Waiting?)
    case Call(t) => t < |s.threads| && s.threads[t].Outside?
    case Enter(t) => t < |s.threads| && s.threads[t].AtLock?
    case Resume(t) => t < |s.threads| && s.threads[t].Woken?
    case RunCheck(t) => t < |s.threads| && s.threads[t].Working? && s.threads[t].rest != []
    case Finish(t) => t < |s.threads| && s.threads[t].Working? && s.threads[t].rest == []
    case Spurious(t) => t < |s.threads| && s.threads[t].Waiting?
  }

  function Apply(s: State, step: Step): State
    requires Enabled(s, step)
  {
    match step
    case Call(t) => s.(threads := s.threads[t := AtLock(0, true)])
    case Enter(t) =>
      var me := s.threads[t];
      LoopHead(CleanUp(s, t, me.nNow, me.fOk), t)
    case Resume(t) => LoopHead(s.(nIdle := s.nIdle - 1), t)
    case RunCheck(t) =>
      var me := s.threads[t];
      var ok := if me.fOk then me.rest[0].passes else me.fOk;
      s.(threads := s.threads[t := Working(me.rest[1..], me.nNow, ok)])
    case Finish(t) => s.(threads := s.threads[t := AtLock(s.threads[t].nNow, s.threads[t].fOk)])
    case Spurious(t) => s.(threads := s.threads[t := Woken])
    case Add(checks, pick) =>
      s.(queue := s.queue + checks, nTodo := s.nTodo + |checks|, added := s.added + checks,
         threads := Notify(s.threads, |checks|, pick))
  }

  /** A freshly constructed queue, with workers that have not been started. */
  function Init(nBatchSize: nat, workers: nat): State {
    State([], 0, 0, true, 0, nBatchSize, seq(workers + 1, _ => Outside), [], [])
  }

  predicate IsIdle(s: State) {
    s.nTotal == s.nIdle && s.nTodo == 0 && s.fAllOk
  }

  //////////////////////////////////////////////////////////////////////////////
  // Sums over the threads
  //////////////////////////////////////////////////////////////////////////////

  function Total(threads: seq<Thread>, f: Thread -> nat): nat {
    if threads == [] then 0 else f(threads[0]) + Total(threads[1..], f)
  }

  function InFlightOf(t: Thread): nat {
    match t
    case Working(_, nNow, _) => nNow
    case AtLock(nNow, _) => nNow
    case _ => 0
  }

  function IdleOf(t: Thread): nat { if t.Waiting? || t.Woken? then 1 else 0 }

  function InsideOf(t: Thread): nat {
    if t.Waiting? || t.Woken? || t.Working? || (t.AtLock? && t.nNow > 0) then 1 else 0
  }

  lemma {:induction false} TotalUpdate(threads: seq<Thread>, t: nat, x: Thread, f: Thread -> nat)
    requires t < |threads|
    ensures Total(threads[t := x], f) == Total(threads, f) - f(threads[t]) + f(x)
  {
    if t == 0 {
      assert threads[0 := x][1..] == threads[1..];
    } else {
      assert threads[t := x][1..] == threads[1..][t - 1 := x];
      TotalUpdate(threads[1..], t - 1, x, f);
    }
  }

  lemma {:induction false} TotalPointwise(a: seq<Thread>, b: seq<Thread>, f: Thread -> nat)
    requires |a| == |b| && forall i :: 0 <= i < |a| ==> f(a[i]) == f(b[i])
    ensures Total(a, f) == Total(b, f)
  {
    if a != [] {
      TotalPointwise(a[1..], b[1..], f);
    }
  }

  lemma {:induction false} TotalAtLeast(threads: seq<Thread>, t: nat, f: Thread -> nat)
    requires t < |threads|
    ensures f(threads[t]) <= Total(threads, f)
  {
    if t > 0 {
      TotalAtLeast(threads[1..], t - 1, f);
    }
  }

  lemma {:induction false} TotalPositive(threads: seq<Thread>, f: Thread -> nat) returns (t: nat)
    requires Total(threads, f) > 0
    ensures t < |threads| && f(threads[t]) > 0
  {
    if f(threads[0]) > 0 {
      t := 0;
    } else {
      t := TotalPositive(threads[1..], f);
      t := t + 1;
    }
  }

  //////////////////////////////////////////////////////////////////////////////
  // The invariant
  //////////////////////////////////////////////////////////////////////////////

  predicate WellFormed(t: Thread) {
    t.Working? ==> t.nNow > 0 && |t.rest| <= t.nNow
  }

  /** nTodo, nIdle and nTotal say what their comments promise. */
  ghost predicate CountersExact(s: State) {
    && s.nTodo == |s.queue| + Total(s.threads, InFlightOf)
    && s.nIdle == Total(s.threads, IdleOf)
    && s.nTotal == Total(s.threads, InsideOf)
    && s.nTodo <= |s.added|
  }

  predicate ThreadOk(t: Thread) {
    match t
    case Working(rest, nNow, fOk) => fOk && AllPass(rest)
    case AtLock(nNow, fOk) => nNow > 0 ==> fOk
    case _ => true
  }

  /** The verdict still to come, were every remaining check run. */
  ghost predicate Pending(s: State) {
    && s.fAllOk
    && AllPass(s.queue)
    && forall t :: 0 <= t < |s.threads| ==> ThreadOk(s.threads[t])
  }

  predicate Active(t: Thread) { t.Woken? || t.Working? || (t.AtLock? && t.nNow > 0) }

  predicate SomeWorkerActive(threads: seq<Thread>) {
    exists i :: 0 < i < |threads| && Active(threads[i])
  }

  /** No lost wake-up: for the master, and for the workers. */
  ghost predicate NoLostWakeUp(s: State)
    requires |s.threads| > 0
  {
    && (s.threads[0].Waiting? ==> s.queue == [] && s.nTodo > 0)
    && (s.queue != [] && SomeWorkerWaits(s.threads) ==> SomeWorkerActive(s.threads))
  }

  ghost predicate Inv(s: State) {
    && |s.threads| > 0
    && (forall t :: 0 <= t < |s.threads| ==> WellFormed(s.threads[t]))
    && CountersExact(s)
    && Pending(s) == AllPass(s.added)
    && NoLostWakeUp(s)
    && forall r :: 0 <= r < |s.rounds| ==> s.rounds[r].verdict == AllPass(s.rounds[r].checks)
  }

  //////////////////////////////////////////////////////////////////////////////
  // The invariant is inductive
  //////////////////////////////////////////////////////////////////////////////

  lemma {:induction false} OutsideCountsNothing(threads: seq<Thread>, f: Thread -> nat)
    requires (forall i :: 0 <= i < |threads| ==> threads[i] == Outside) && f(Outside) == 0
    ensures Total(threads, f) == 0
  {
    if threads != [] {
      OutsideCountsNothing(threads[1..], f);
    }
  }

  lemma InitKeepsInv(nBatchSize: nat, workers: nat)
    ensures Inv(Init(nBatchSize, workers))
  {
    var threads := Init(nBatchSize, workers).threads;
    OutsideCountsNothing(threads, InFlightOf);
    OutsideCountsNothing(threads, IdleOf);
    OutsideCountsNothing(threads, InsideOf);
  }

  /** Everything the three counters do when one thread changes. */
  lemma CountersUpdate(threads: seq<Thread>, t: nat, x: Thread)
    requires t < |threads|
    ensures Total(threads[t := x], InFlightOf) == Total(threads, InFlightOf) - InFlightOf(threads[t]) + InFlightOf(x)
    ensures Total(threads[t := x], IdleOf) == Total(threads, IdleOf) - IdleOf(threads[t]) + IdleOf(x)
    ensures Total(threads[t := x], InsideOf) == Total(threads, InsideOf) - InsideOf(threads[t]) + InsideOf(x)
  {
    TotalUpdate(threads, t, x, InFlightOf);
    TotalUpdate(threads, t, x, IdleOf);
    TotalUpdate(threads, t, x, InsideOf);
  }

  /**
   The invariant while thread t holds the mutex inside Loop, past its clean-up: it is
   counted in nTotal, but is neither idle nor holding checks. Its own entry is
   written as AtLock(0, true), which contributes nothing to any sum.
   */
  ghost predicate Holding(s: State, t: nat) {
    && t < |s.threads| && s.threads[t] == AtLock(0, true)
    && (forall i :: 0 <= i < |s.threads| ==> WellFormed(s.threads[i]))
    && CountersExact(s.(nTotal := s.nTotal - 1))
    && Pending(s) == AllPass(s.added)
    && (s.threads[0].Waiting? ==> s.queue == [] && s.nTodo > 0)
    && (t == 0 && s.queue != [] && SomeWorkerWaits(s.threads) ==> SomeWorkerActive(s.threads))
    && forall r :: 0 <= r < |s.rounds| ==> s.rounds[r].verdict == AllPass(s.rounds[r].checks)
  }

  lemma ReturnKeepsInv(s: State)
    requires Holding(s, 0) && s.queue == [] && s.nTodo == 0
    ensures Inv(LoopHead(s, 0))
  {
    var r := LoopHead(s, 0);
    CountersUpdate(s.threads, 0, Outside);
    forall i | 0 <= i < |s.threads| ensures InFlightOf(s.threads[i]) == 0 && ThreadOk(s.threads[i]) {
      TotalAtLeast(s.threads, i, InFlightOf);
    }
    assert s.fAllOk == AllPass(s.added);
  }

  lemma WaitKeepsInv(s: State, t: nat)
    requires Holding(s, t) && s.queue == [] && (t == 0 ==> s.nTodo != 0)
    ensures Inv(LoopHead(s, t))
  {
    var r := LoopHead(s, t);
    CountersUpdate(s.threads, t, Waiting);
    assert Pending(r) == Pending(s) by {
      forall i | 0 <= i < |s.threads| ensures ThreadOk(r.threads[i]) == ThreadOk(s.threads[i]) {}
    }
  }

  lemma TakeKeepsInv(s: State, t: nat)
    requires Holding(s, t) && s.queue != []
    ensures Inv(LoopHead(s, t))
  {
    var r := LoopHead(s, t);
    var n := BatchSize(|s.queue|, s.nBatchSize, s.nTotal, s.nIdle);
    var batch := TopOf(s.queue, n);
    CountersUpdate(s.threads, t, Working(batch, n, s.fAllOk));
    assert AllPass(s.queue) == (AllPass(r.queue) && AllPass(batch)) by {
      var k := |s.queue| - n;
      if AllPass(r.queue) && AllPass(batch) {
        forall i | 0 <= i < |s.queue| ensures s.queue[i].passes {
          if i < k { assert r.queue[i].passes; } else { assert batch[|s.queue| - 1 - i].passes; }
        }
      }
    }
    assert Pending(r) == Pending(s) by {
      assert ThreadOk(r.threads[t]) == (s.fAllOk && AllPass(batch));
      assert forall i :: 0 <= i < |s.threads| && i != t ==> r.threads[i] == s.threads[i];
    }
    assert t > 0 ==> Active(r.threads[t]);
    if t == 0 && SomeWorkerWaits(r.threads) {
      var w :| 0 < w < |r.threads| && r.threads[w].Waiting?;
      assert s.threads[w].Waiting?;
      var a :| 0 < a < |s.threads| && Active(s.threads[a]);
      assert Active(r.threads[a]);
    }
  }

  lemma LoopHeadKeepsInv(s: State, t: nat)
    requires Holding(s, t)
    ensures Inv(LoopHead(s, t))
  {
    if s.queue != [] {
      TakeKeepsInv(s, t);
    } else if t == 0 && s.nTodo == 0 {
      ReturnKeepsInv(s);
    } else {
      WaitKeepsInv(s, t);
    }
  }

  lemma EnterKeepsInv(s: State, t: nat)
    requires Inv(s) && Enabled(s, Enter(t))
    ensures Inv(Apply(s, Enter(t)))
  {
    hide Total, LoopHead, AllPass;
    var me := s.threads[t];
    var c := CleanUp(s, t, me.nNow, me.fOk);
    var h := c.(threads := c.threads[t := AtLock(0, true)]);
    TotalAtLeast(s.threads, t, InFlightOf);
    CountersUpdate(s.threads, t, AtLock(0, true));
    CountersUpdate(s.threads[t := AtLock(0, true)], 0, Woken);
    assert c.threads[t := AtLock(0, true)]
        == if c.threads == s.threads then s.threads[t := AtLock(0, true)]
           else s.threads[t := AtLock(0, true)][0 := Woken];
    assert Pending(h) == Pending(s) by {
      assert ThreadOk(s.threads[t]) == (me.nNow > 0 ==> me.fOk);
      forall i | 0 <= i < |s.threads| && i != t ensures ThreadOk(h.threads[i]) == ThreadOk(s.threads[i]) {}
    }
    if t == 0 && SomeWorkerWaits(h.threads) && h.queue != [] {
      var w :| 0 < w < |h.threads| && h.threads[w].Waiting?;
      assert s.threads[w].Waiting?;
      var a :| 0 < a < |s.threads| && Active(s.threads[a]);
      assert Active(h.threads[a]);
    }
    LoopHeadKeepsInv(h, t);
    SameLoopHead(c, h, t);
  }

  lemma SameLoopHead(c: State, h: State, t: nat)
    requires t < |c.threads| && h == c.(threads := c.threads[t := AtLock(0, true)])
    ensures LoopHead(c, t) == LoopHead(h, t)
  {
    var n := if c.queue == [] then 0 else BatchSize(|c.queue|, c.nBatchSize, c.nTotal, c.nIdle);
    var took := Working(TopOf(c.queue, n), n, c.fAllOk);
    assert h.threads[t := took] == c.threads[t := took];
    assert h.threads[t := Waiting] == c.threads[t := Waiting];
    assert t == 0 ==> h.threads[0 := Outside] == c.threads[0 := Outside];
  }

  lemma ResumeKeepsInv(s: State, t: nat)
    requires Inv(s) && Enabled(s, Resume(t))
    ensures Inv(Apply(s, Resume(t)))
  {
    hide Total, LoopHead, AllPass;
    var c := s.(nIdle := s.nIdle - 1);
    var h := c.(threads := c.threads[t := AtLock(0, true)]);
    CountersUpdate(s.threads, t, AtLock(0, true));
    assert Pending(h) == Pending(s) by {
      forall i | 0 <= i < |s.threads| ensures ThreadOk(h.threads[i]) == ThreadOk(s.threads[i]) {}
    }
    if t == 0 && SomeWorkerWaits(h.threads) && h.queue != [] {
      var w :| 0 < w < |h.threads| && h.threads[w].Waiting?;
      assert s.threads[w].Waiting?;
      var a :| 0 < a < |s.threads| && Active(s.threads[a]);
      assert Active(h.threads[a]);
    }
    LoopHeadKeepsInv(h, t);
    SameLoopHead(c, h, t);
  }

  /** A thread that only moves on in its own code, outside the mutex. */
  lemma LocalStepKeepsInv(s: State, t: nat, x: Thread)
    requires Inv(s) && t < |s.threads| && WellFormed(x)
    requires InFlightOf(x) == InFlightOf(s.threads[t]) && ThreadOk(x) == ThreadOk(s.threads[t])
    requires IdleOf(x) == IdleOf(s.threads[t]) && InsideOf(x) == InsideOf(s.threads[t])
    requires !x.Waiting? && (Active(s.threads[t]) ==> Active(x))
    ensures Inv(s.(threads := s.threads[t := x]))
  {
    var r := s.(threads := s.threads[t := x]);
    CountersUpdate(s.threads, t, x);
    assert Pending(r) == Pending(s) by {
      forall i | 0 <= i < |s.threads| ensures ThreadOk(r.threads[i]) == ThreadOk(s.threads[i]) {}
    }
    if SomeWorkerWaits(r.threads) && r.queue != [] {
      var w :| 0 < w < |r.threads| && r.threads[w].Waiting?;
      assert s.threads[w].Waiting?;
      var a :| 0 < a < |s.threads| && Active(s.threads[a]);
      assert Active(r.threads[a]);
    }
  }

  lemma RunCheckKeepsInv(s: State, t: nat)
    requires Inv(s) && Enabled(s, RunCheck(t))
    ensures Inv(Apply(s, RunCheck(t)))
  {
    var me := s.threads[t];
    var x := Apply(s, RunCheck(t)).threads[t];
    assert me.rest == [me.rest[0]] + x.rest;
    assert AllPass(me.rest) == (me.rest[0].passes && AllPass(x.rest));
    LocalStepKeepsInv(s, t, x);
  }

  lemma AddKeepsInv(s: State, checks: seq<Check>, pick: nat)
    requires Inv(s) && Enabled(s, Add(checks, pick))
    ensures Inv(Apply(s, Add(checks, pick)))
  {
    hide Total, AllPass;
    var r := Apply(s, Add(checks, pick));
    TotalPointwise(s.threads, r.threads, InFlightOf);
    TotalPointwise(s.threads, r.threads, IdleOf);
    TotalPointwise(s.threads, r.threads, InsideOf);
    AllPassConcat(s.queue, checks);
    AllPassConcat(s.added, checks);
    assert Pending(r) == (Pending(s) && AllPass(checks)) by {
      forall i | 0 <= i < |s.threads| ensures ThreadOk(r.threads[i]) == ThreadOk(s.threads[i]) {}
    }
    if SomeWorkerWaits(r.threads) && r.queue != [] {
      var w :| 0 < w < |r.threads| && r.threads[w].Waiting?;
      assert s.threads[w].Waiting?;
      if |checks| == 1 {
        assert Active(r.threads[pick]);
      } else {
        assert |checks| == 0;
        var a :| 0 < a < |s.threads| && Active(s.threads[a]);
        assert Active(r.threads[a]);
      }
    }
  }

  lemma AllPassConcat(a: seq<Check>, b: seq<Check>)
    ensures AllPass(a + b) == (AllPass(a) && AllPass(b))
  {
    if AllPass(a + b) {
      forall i | 0 <= i < |a| ensures a[i].passes { assert (a + b)[i].passes; }
      forall i | 0 <= i < |b| ensures b[i].passes { assert (a + b)[|a| + i].passes; }
    }
  }

  lemma StepKeepsInv(s: State, step: Step)
    requires Inv(s) && Enabled(s, step)
    ensures Inv(Apply(s, step))
  {
    match step
    case Call(t) => LocalStepKeepsInv(s, t, AtLock(0, true));
    case Enter(t) => EnterKeepsInv(s, t);
    case Resume(t) => ResumeKeepsInv(s, t);
    case RunCheck(t) => RunCheckKeepsInv(s, t);
    case Finish(t) => LocalStepKeepsInv(s, t, Apply(s, step).threads[t]);
    case Spurious(t) => LocalStepKeepsInv(s, t, Woken);
    case Add(checks, pick) => AddKeepsInv(s, checks, pick);
  }

  //////////////////////////////////////////////////////////////////////////////
  // Every run
  //////////////////////////////////////////////////////////////////////////////

  predicate IsRun(s: State, steps: seq<Step>)
    decreases |steps|
  {
    steps == [] || (Enabled(s, steps[0]) && IsRun(Apply(s, steps[0]), steps[1..]))
  }

  function After(s: State, steps: seq<Step>): State
    requires IsRun(s, steps)
    decreases |steps|
  {
    if steps == [] then s else After(Apply(s, steps[0]), steps[1..])
  }

  lemma {:induction false} RunKeepsInv(s: State, steps: seq<Step>)
    requires Inv(s) && IsRun(s, steps)
    ensures Inv(After(s, steps))
    decreases |steps|
  {
    hide Apply, Inv, Enabled;
    if steps != [] {
      StepKeepsInv(s, steps[0]);
      RunKeepsInv(Apply(s, steps[0]), steps[1..]);
    }
  }

  /** All checks a run hands to Add, in order. */
  function AddedBy(steps: seq<Step>): seq<Check> {
    if steps == [] then []
    else (if steps[0].Add? then steps[0].checks else []) + AddedBy(steps[1..])
  }

  function InRounds(rounds: seq<Round>): seq<Check> {
    if rounds == [] then [] else InRounds(rounds[..|rounds| - 1]) + rounds[|rounds| - 1].checks
  }

  lemma InRoundsSnoc(rounds: seq<Round>, r: Round)
    ensures InRounds(rounds + [r]) == InRounds(rounds) + r.checks
  {
    assert (rounds + [r])[..|rounds|] == rounds;
  }

  lemma StepKeepsHistory(s: State, step: Step)
    requires Inv(s) && Enabled(s, step)
    ensures InRounds(Apply(s, step).rounds) + Apply(s, step).added
         == InRounds(s.rounds) + s.added + AddedBy([step])
  {
    hide Inv, BatchSize, TopOf, Notify, InRounds;
    var r := Apply(s, step);
    assert AddedBy([step]) == if step.Add? then step.checks else [];
    if r.rounds != s.rounds {
      assert r.rounds == s.rounds + [Round(s.added, r.rounds[|s.rounds|].verdict)];
      InRoundsSnoc(s.rounds, r.rounds[|s.rounds|]);
    }
  }

  lemma {:induction false} RunKeepsHistory(s: State, steps: seq<Step>)
    requires Inv(s) && IsRun(s, steps)
    ensures InRounds(After(s, steps).rounds) + After(s, steps).added
         == InRounds(s.rounds) + s.added + AddedBy(steps)
    decreases |steps|
  {
    hide Apply, Inv, Enabled, InRounds;
    if steps != [] {
      StepKeepsHistory(s, steps[0]);
      StepKeepsInv(s, steps[0]);
      RunKeepsHistory(Apply(s, steps[0]), steps[1..]);
      assert AddedBy([steps[0]]) + AddedBy(steps[1..]) == AddedBy(steps);
    }
  }

  /**
   In every interleaving, each Wait returned the conjunction of exactly the checks
   added since the Wait before it, and nTodo counts the checks queued or in flight.
   */
  lemma WaitReturnsConjunction(nBatchSize: nat, workers: nat, steps: seq<Step>)
    requires IsRun(Init(nBatchSize, workers), steps)
    ensures var s := After(Init(nBatchSize, workers), steps);
      && InRounds(s.rounds) + s.added == AddedBy(steps)
      && (forall r :: 0 <= r < |s.rounds| ==> s.rounds[r].verdict == AllPass(s.rounds[r].checks))
      && s.nTodo == |s.queue| + Total(s.threads, InFlightOf)
  {
    InitKeepsInv(nBatchSize, workers);
    RunKeepsInv(Init(nBatchSize, workers), steps);
    RunKeepsHistory(Init(nBatchSize, workers), steps);
  }

  /**
   No lost wake-up: while the master is blocked some worker still has checks to account
   for, and while checks are queued a blocked worker never stands alone.
   */
  lemma MasterNeverStuck(nBatchSize: nat, workers: nat, steps: seq<Step>)
    requires IsRun(Init(nBatchSize, workers), steps)
    ensures var s := After(Init(nBatchSize, workers), steps);
      && |s.threads| > 0
      && (s.threads[0].Waiting? ==> exists w :: 0 < w < |s.threads| && InFlightOf(s.threads[w]) > 0)
      && (s.queue != [] && SomeWorkerWaits(s.threads) ==> SomeWorkerActive(s.threads))
  {
    InitKeepsInv(nBatchSize, workers);
    RunKeepsInv(Init(nBatchSize, workers), steps);
    var s := After(Init(nBatchSize, workers), steps);
    if s.threads[0].Waiting? {
      var w := TotalPositive(s.threads, InFlightOf);
      assert 0 < w < |s.threads| && InFlightOf(s.threads[w]) > 0;
    }
  }

  lemma {:induction false} BusyMeansInFlight(threads: seq<Thread>)
    requires forall i :: 0 <= i < |threads| ==> WellFormed(threads[i])
    ensures Total(threads, IdleOf) <= Total(threads, InsideOf)
    ensures Total(threads, IdleOf) == Total(threads, InsideOf) <==> Total(threads, InFlightOf) == 0
  {
    if threads != [] {
      assert WellFormed(threads[0]);
      BusyMeansInFlight(threads[1..]);
    }
  }

  /**
   At every point where the mutex is free, IsIdle answers whether nothing is left to do
   and everything added since the last Wait passed. In particular it holds from the
   return of a Wait until the next Add, so the controller's assert never fires.
   */
  lemma IdleExactly(nBatchSize: nat, workers: nat, steps: seq<Step>)
    requires IsRun(Init(nBatchSize, workers), steps)
    ensures var s := After(Init(nBatchSize, workers), steps);
      && (IsIdle(s) <==> s.nTodo == 0 && AllPass(s.added))
      && (s.added == [] ==> IsIdle(s))
  {
    InitKeepsInv(nBatchSize, workers);
    RunKeepsInv(Init(nBatchSize, workers), steps);
    var s := After(Init(nBatchSize, workers), steps);
    BusyMeansInFlight(s.threads);
    if s.nTodo == 0 {
      forall i | 0 <= i < |s.threads| ensures ThreadOk(s.threads[i]) {
        TotalAtLeast(s.threads, i, InFlightOf);
        assert WellFormed(s.threads[i]);
      }
      assert Pending(s) == s.fAllOk;
    }
  }

  //////////////////////////////////////////////////////////////////////////////
  // Wait returns
  //////////////////////////////////////////////////////////////////////////////

  function RankOf(t: Thread): nat {
    match t
    case Outside => 2
    case AtLock(nNow, _) => if nNow > 0 then 3 else 1
    case Waiting => 0
    case Woken => 1
    case Working(rest, _, _) => 4 + |rest|
  }

  function Rank(s: State): nat { 10 * |s.queue| + Total(s.threads, RankOf) }

  predicate MasterInside(s: State) { |s.threads| > 0 && !s.threads[0].Outside? }

  lemma LoopHeadRank(s: State, t: nat)
    requires t < |s.threads| && !LoopHead(s, t).threads[0].Outside?
    ensures Rank(LoopHead(s, t)) <= Rank(s) - RankOf(s.threads[t])
  {
    TotalUpdate(s.threads, t, LoopHead(s, t).threads[t], RankOf);
  }

  lemma CleanUpRank(s: State, t: nat, nNow: nat, fOk: bool)
    requires t < |s.threads|
    ensures var c := CleanUp(s, t, nNow, fOk);
      c.queue == s.queue && c.threads[t] == s.threads[t] && Rank(c) <= Rank(s) + if nNow > 0 then 1 else 0
  {
    TotalUpdate(s.threads, 0, Woken, RankOf);
  }

  /** Every step except a spurious wake-up brings the master's return closer. */
  lemma StepLowersRank(s: State, step: Step)
    requires Inv(s) && Enabled(s, step) && MasterInside(s) && MasterInside(Apply(s, step))
    ensures Rank(Apply(s, step)) < Rank(s) + if step.Spurious? then 2 else 0
  {
    match step
    case Call(t) => TotalUpdate(s.threads, t, AtLock(0, true), RankOf);
    case Enter(t) =>
      var me := s.threads[t];
      CleanUpRank(s, t, me.nNow, me.fOk);
      LoopHeadRank(CleanUp(s, t, me.nNow, me.fOk), t);
    case Resume(t) => LoopHeadRank(s.(nIdle := s.nIdle - 1), t);
    case RunCheck(t) => TotalUpdate(s.threads, t, Apply(s, step).threads[t], RankOf);
    case Finish(t) => TotalUpdate(s.threads, t, Apply(s, step).threads[t], RankOf);
    case Spurious(t) => TotalUpdate(s.threads, t, Woken, RankOf);
  }

  /** While the master is inside Wait, some thread can move without a spurious wake-up. */
  lemma NeverDeadlocked(s: State) returns (step: Step)
    requires Inv(s) && MasterInside(s)
    ensures Enabled(s, step) && !step.Spurious?
  {
    var t := 0;
    if s.threads[0].Waiting? {
      t := TotalPositive(s.threads, InFlightOf);
    }
    match s.threads[t]
    case AtLock(_, _) => step := Enter(t);
    case Woken => step := Resume(t);
    case Working(rest, _, _) => step := if rest == [] then Finish(t) else RunCheck(t);
  }

  function Spurious(steps: seq<Step>): nat {
    if steps == [] then 0 else (if steps[0].Spurious? then 1 else 0) + Spurious(steps[1..])
  }

  ghost predicate MasterStaysInside(s: State, steps: seq<Step>)
    requires IsRun(s, steps)
    decreases |steps|
  {
    MasterInside(s) && (steps != [] ==> MasterStaysInside(Apply(s, steps[0]), steps[1..]))
  }

  /**
   However the threads are scheduled, the master can stay inside Wait only for a bounded
   number of steps; the bound grows only with the number of spurious wake-ups.
   */
  lemma {:induction false} WaitTerminates(s: State, steps: seq<Step>)
    requires Inv(s) && IsRun(s, steps) && MasterStaysInside(s, steps)
    ensures |steps| <= Rank(s) + 2 * Spurious(steps)
    decreases |steps|
  {
    if steps != [] {
      StepLowersRank(s, steps[0]);
      StepKeepsInv(s, steps[0]);
      WaitTerminates(Apply(s, steps[0]), steps[1..]);
    }
  }

  //////////////////////////////////////////////////////////////////////////////
  // The two inner loops of Loop
  //////////////////////////////////////////////////////////////////////////////

  /** Moves the end of the queue to the batch: what the state machine does at the head of the loop. */
  method TakeBatch(queue: seq<Check>, nNow: nat, ghost s: State, ghost t: nat) returns (vChecks: seq<Check>, left: seq<Check>)
    requires queue != [] && s.queue == queue && t < |s.threads| && nNow == BatchSize(|queue|, s.nBatchSize, s.nTotal, s.nIdle)
    ensures vChecks == TopOf(queue, nNow) && left == queue[..|queue| - nNow]
    ensures LoopHead(s, t) == s.(queue := left, threads := s.threads[t := Working(vChecks, nNow, s.fAllOk)])
  {
    vChecks, left := [], queue;
    for i := 0 to nNow
      invariant vChecks == TopOf(queue, i) && left == queue[..|queue| - i]
    {
      vChecks := vChecks + [left[|left| - 1]];
      left := left[..|left| - 1];
    }
  }

  /** A thread runs one check after the other. */
  function Checking(t: nat, n: nat): (steps: seq<Step>)
    ensures |steps| == n
  {
    if n == 0 then [] else [RunCheck(t)] + Checking(t, n - 1)
  }

  /** The steps of a whole batch end with its conjunction as the thread's result, and with nothing else changed. */
  lemma {:induction false} CheckingAll(s: State, t: nat)
    requires t < |s.threads| && s.threads[t].Working?
    ensures var me := s.threads[t];
      var steps := Checking(t, |me.rest|);
      && IsRun(s, steps)
      && After(s, steps) == s.(threads := s.threads[t := Working([], me.nNow, me.fOk && AllPass(me.rest))])
    decreases |s.threads[t].rest|
  {
    var me := s.threads[t];
    if me.rest == [] {
      assert s.threads[t := Working([], me.nNow, me.fOk)] == s.threads;
    } else {
      var steps, next := Checking(t, |me.rest|), Apply(s, RunCheck(t));
      assert steps[0] == RunCheck(t) && steps[1..] == Checking(t, |me.rest| - 1);
      CheckingAll(next, t);
      assert me.rest == [me.rest[0]] + me.rest[1..];
      AllPassConcat([me.rest[0]], me.rest[1..]);
      assert next.threads[t := Working([], me.nNow, me.fOk && AllPass(me.rest))] == s.threads[t := Working([], me.nNow, me.fOk && AllPass(me.rest))];
    }
  }

  /** Runs the batch, skipping checks after a failure: what the steps of the state machine come to. */
  method RunBatch(vChecks: seq<Check>, fAllOk: bool, ghost s: State, ghost t: nat) returns (fOk: bool)
    requires t < |s.threads| && s.threads[t].Working? && s.threads[t].rest == vChecks && s.threads[t].fOk == fAllOk
    ensures fOk == (fAllOk && AllPass(vChecks))
    ensures var steps := Checking(t, |vChecks|);
      IsRun(s, steps) && After(s, steps) == s.(threads := s.threads[t := Working([], s.threads[t].nNow, fOk)])
  {
    hide IsRun, After, Checking;
    fOk := fAllOk;
    for i := 0 to |vChecks|
      invariant fOk == (fAllOk && AllPass(vChecks[..i]))
    {
      assert vChecks[..i + 1] == vChecks[..i] + [vChecks[i]];
      AllPassConcat(vChecks[..i], [vChecks[i]]);
      if fOk {
        fOk := vChecks[i].passes;
      }
    }
    assert vChecks[..|vChecks|] == vChecks;
    CheckingAll(s, t);
  }
}
