/** The fate of a submitted batch: when it can be dropped, when it cannot, and that nobody waits for ever. */
module Submissions {
  import opened Bytes
  import opened Model
  import opened GroupCommit
  import opened Schedules
  import opened Orchestrator

  /** A batch is dropped only in a step before which stop was set. */
  lemma DropsOnlyAfterStop(s: State, t: Step, maxQueue: nat)
    ensures Next(s, t, maxQueue).dropped != s.dropped ==> s.stop
    ensures s.dropped <= Next(s, t, maxQueue).dropped
  {
  }

  ghost predicate NoDropYet(s: State) { !s.stop ==> s.dropped == multiset{} }

  lemma StepDropsNothing(s: State, t: Step, maxQueue: nat)
    requires NoDropYet(s)
    ensures NoDropYet(Next(s, t, maxQueue))
  {
    DropsOnlyAfterStop(s, t, maxQueue);
  }

  /** Over every schedule: as long as nobody has begun to close the orchestrator, nothing has been dropped. */
  lemma OpenDropsNothing(ts: seq<Step>, flushers: nat, maxQueue: nat)
    ensures var s := After(ts, flushers, maxQueue); s.closing.Open? ==> s.dropped == multiset{}
  {
    forall s: State, t: Step | NoDropYet(s) ensures NoDropYet(Stepper(maxQueue)(s, t)) {
      StepDropsNothing(s, t, maxQueue);
    }
    RunKeeps<State, Step>(Stepper(maxQueue), (s: State) => NoDropYet(s), Init(flushers), ts);
    RunInv(ts, flushers, maxQueue);
  }

  // ----- What has passed the queue's lock -----

  /** The batches that were accepted or whose submitter holds the lock. */
  ghost function Passed(s: State): multiset<Batch> {
    multiset(s.accepted) + if s.lock.Submitter? then multiset{s.lock.batch} else multiset{}
  }

  lemma StepKeepsPassed(s: State, t: Step, maxQueue: nat)
    ensures Passed(s) <= Passed(Next(s, t, maxQueue)) && s.submitted <= Next(s, t, maxQueue).submitted
  {
    if t.SubmitPush? && Enabled(s, t, maxQueue) {
      assert multiset(s.accepted + [s.lock.batch]) == multiset(s.accepted) + multiset{s.lock.batch};
    }
  }

  lemma {:induction false} PassedStays(s: State, us: seq<Step>, maxQueue: nat)
    ensures var e := Run<State, Step>(Stepper(maxQueue), s, us); Passed(s) <= Passed(e) && s.submitted <= e.submitted
  {
    if us != [] {
      var n := |us| - 1;
      PassedStays(s, us[..n], maxQueue);
      StepKeepsPassed(Run<State, Step>(Stepper(maxQueue), s, us[..n]), us[n], maxQueue);
    }
  }

  lemma AfterAppend(ts: seq<Step>, us: seq<Step>, flushers: nat, maxQueue: nat)
    ensures After(ts + us, flushers, maxQueue)
            == Run<State, Step>(Stepper(maxQueue), After(ts, flushers, maxQueue), us)
  {
    RunAppend<State, Step>(Stepper(maxQueue), Init(flushers), ts, us);
  }

  /**
    Over every schedule: once the orchestrator is closed, every batch whose submitter had passed the lock
    at any earlier moment is in the log, with all its events.
  */
  lemma PassedIsWritten(ts: seq<Step>, us: seq<Step>, flushers: nat, maxQueue: nat)
    requires var e := After(ts + us, flushers, maxQueue); e.closing.Closed? && FlushersIdle(e)
    ensures var s, e := After(ts, flushers, maxQueue), After(ts + us, flushers, maxQueue);
            Passed(s) <= multiset(e.accepted) && multiset(e.wal) == multiset(Flatten(e.accepted))
  {
    AfterAppend(ts, us, flushers, maxQueue);
    PassedStays(After(ts, flushers, maxQueue), us, maxQueue);
    RunInv(ts + us, flushers, maxQueue);
    ClosedMeansWritten(ts + us, flushers, maxQueue);
  }

  /** And dropped are only batches that were still waiting at every moment before the stop, or came later. */
  lemma DroppedWasWaiting(ts: seq<Step>, us: seq<Step>, flushers: nat, maxQueue: nat)
    requires After(ts, flushers, maxQueue).closing.Open?
    ensures var s, e := After(ts, flushers, maxQueue), After(ts + us, flushers, maxQueue);
            e.dropped <= s.waiting + (e.submitted - s.submitted)
  {
    AfterAppend(ts, us, flushers, maxQueue);
    var s, e := After(ts, flushers, maxQueue), After(ts + us, flushers, maxQueue);
    PassedStays(s, us, maxQueue);
    RunInv(ts, flushers, maxQueue);
    RunInv(ts + us, flushers, maxQueue);
    OpenDropsNothing(ts, flushers, maxQueue);
    WaitingBound(s.submitted, s.waiting, Passed(s), e.submitted, e.waiting, Passed(e), e.dropped);
  }

  lemma WaitingBound<T(!new)>(sub: multiset<T>, w: multiset<T>, p: multiset<T>, sub': multiset<T>, w': multiset<T>,
                              p': multiset<T>, d': multiset<T>)
    requires sub == w + p && sub' == w' + p' + d' && p <= p' && sub <= sub'
    ensures d' <= w + (sub' - sub)
  {
    forall x ensures d'[x] <= (w + (sub' - sub))[x] {
      assert sub[x] == w[x] + p[x] && sub'[x] == w'[x] + p'[x] + d'[x];
      assert p[x] <= p'[x] && sub[x] <= sub'[x];
    }
  }

  // ----- Nobody waits for ever -----

  /** If the lock is free, stop not set and a place free, the batch is accepted at once, behind all others. */
  lemma PlaceMeansAccepted(s: State, b: Batch, maxQueue: nat)
    requires b in s.waiting && s.lock.Free? && !s.stop && |s.queue| < maxQueue
    ensures var e := Next(Next(s, SubmitPass(b), maxQueue), SubmitPush, maxQueue);
            && e.accepted == s.accepted + [b] && e.queue == s.queue + [b] && e.waiting == s.waiting - multiset{b}
            && e.dropped == s.dropped
  {
  }

  /** Whoever holds the lock gives it back in its next step. */
  function Release(s: State): Step { if s.lock.Submitter? then SubmitPush else WorkerSwap }

  lemma LockIsReleased(s: State, maxQueue: nat)
    requires Phased(s)
    ensures var e := Next(s, Release(s), maxQueue);
            e.lock.Free? && e.stop == s.stop && e.closing == s.closing && e.waiting == s.waiting
            && e.workerGone == s.workerGone && |e.drainers| == |s.drainers|
  {
  }

  /** State s leads to state e by the steps us. */
  ghost predicate Leads(s: State, us: seq<Step>, e: State, maxQueue: nat) {
    Run<State, Step>(Stepper(maxQueue), s, us) == e
  }

  lemma LeadsOn(s: State, us: seq<Step>, m: State, vs: seq<Step>, e: State, maxQueue: nat)
    requires Leads(s, us, m, maxQueue) && Leads(m, vs, e, maxQueue)
    ensures Leads(s, us + vs, e, maxQueue)
  {
    RunAppend<State, Step>(Stepper(maxQueue), s, us, vs);
  }

  lemma LeadsBy(s: State, t: Step, maxQueue: nat)
    ensures Leads(s, [t], Next(s, t, maxQueue), maxQueue)
  {
    RunOne<State, Step>(Stepper(maxQueue), s, t);
  }

  /** What matters of a state while it waits to be closed or to take a batch in. */
  ghost predicate Ready(s: State) { Phased(s) && s.lock.Free? }

  lemma GetReady(s: State, maxQueue: nat) returns (us: seq<Step>, e: State)
    requires Phased(s) && Bounded(s, maxQueue)
    ensures Leads(s, us, e, maxQueue) && Ready(e) && e.stop == s.stop && e.waiting == s.waiting
  {
    LockIsReleased(s, maxQueue);
    LeadsBy(s, Release(s), maxQueue);
    us, e := [Release(s)], Next(s, Release(s), maxQueue);
    if Enabled(s, Release(s), maxQueue) { StepKeepsPhase(s, Release(s), maxQueue); }
  }

  lemma WriteOut(s: State, i: nat, maxQueue: nat)
    requires i < |s.drainers|
    ensures var e := Next(s, Write(i, |s.drainers[i]|), maxQueue);
            e == s.(wal := e.wal, drainers := s.drainers[i := []])
  {
    if s.drainers[i] == [] {
      assert s.drainers[i := []] == s.drainers;
    } else {
      assert s.drainers[i][|s.drainers[i]|..] == [];
    }
  }

  /** The worker, with nothing left to write, takes the queue. */
  lemma WorkerEmptiesQueue(s: State, maxQueue: nat)
    requires s.lock.Free? && !s.stop && !s.workerGone && s.drainers[WORKER] == []
    ensures var e := Next(Next(s, WorkerPass, maxQueue), WorkerSwap, maxQueue);
            e.queue == [] && e.lock.Free? && !e.stop && e.waiting == s.waiting
  {
  }

  /** It writes out what it has and takes the queue. */
  lemma WorkerRound(s: State, maxQueue: nat) returns (us: seq<Step>, e: State)
    requires Ready(s) && !s.stop
    ensures Leads(s, us, e, maxQueue) && e.queue == [] && e.lock.Free? && !e.stop && e.waiting == s.waiting
  {
    var t := Write(WORKER, |s.drainers[WORKER]|);
    var m := Next(s, t, maxQueue);
    WriteOut(s, WORKER, maxQueue);
    LeadsBy(s, t, maxQueue);
    WorkerEmptiesQueue(m, maxQueue);
    e := Next(Next(m, WorkerPass, maxQueue), WorkerSwap, maxQueue);
    RunTwo<State, Step>(Stepper(maxQueue), m, WorkerPass, WorkerSwap);
    us := [t] + [WorkerPass, WorkerSwap];
    LeadsOn(s, [t], m, [WorkerPass, WorkerSwap], e, maxQueue);
  }

  lemma PlaceLeads(s: State, b: Batch, maxQueue: nat) returns (us: seq<Step>, e: State)
    requires b in s.waiting && s.lock.Free? && !s.stop && |s.queue| < maxQueue
    ensures Leads(s, us, e, maxQueue) && e.accepted == s.accepted + [b]
  {
    PlaceMeansAccepted(s, b, maxQueue);
    us, e := [SubmitPass(b), SubmitPush], Next(Next(s, SubmitPass(b), maxQueue), SubmitPush, maxQueue);
    RunTwo<State, Step>(Stepper(maxQueue), s, SubmitPass(b), SubmitPush);
  }

  /** From every reachable state before a close, a waiting batch can get in, however full the queue is. */
  lemma WaitingGetsIn(ts: seq<Step>, b: Batch, flushers: nat, maxQueue: nat) returns (us: seq<Step>)
    requires maxQueue > 0 && After(ts, flushers, maxQueue).closing.Open? && b in After(ts, flushers, maxQueue).waiting
    ensures var e := After(ts + us, flushers, maxQueue); e.accepted != [] && e.accepted[|e.accepted| - 1] == b
  {
    var s := After(ts, flushers, maxQueue);
    RunInv(ts, flushers, maxQueue);
    var us1, s1 := GetReady(s, maxQueue);
    var us2, s2 := WorkerRound(s1, maxQueue);
    var us3, s3 := PlaceLeads(s2, b, maxQueue);
    LeadsOn(s, us1, s1, us2, s2, maxQueue);
    LeadsOn(s, us1 + us2, s2, us3, s3, maxQueue);
    us := us1 + us2 + us3;
    AfterAppend(ts, us, flushers, maxQueue);
  }

  // ----- Closing comes to an end -----

  /** All drainers write what they have. */
  lemma {:induction false} AllWriteOut(s: State, n: nat, maxQueue: nat) returns (us: seq<Step>, e: State)
    requires n <= |s.drainers|
    ensures Leads(s, us, e, maxQueue) && |e.drainers| == |s.drainers|
    ensures e == s.(wal := e.wal, drainers := e.drainers)
    ensures forall i :: 0 <= i < |s.drainers| ==> e.drainers[i] == if i < n then [] else s.drainers[i]
  {
    if n == 0 {
      us, e := [], s;
    } else {
      var vs, m := AllWriteOut(s, n - 1, maxQueue);
      var t := Write(n - 1, |m.drainers[n - 1]|);
      WriteOut(m, n - 1, maxQueue);
      LeadsBy(m, t, maxQueue);
      us, e := vs + [t], Next(m, t, maxQueue);
      LeadsOn(s, vs, m, [t], e, maxQueue);
    }
  }

  ghost predicate AllIdle(s: State) { forall i :: 0 <= i < |s.drainers| ==> s.drainers[i] == [] }

  lemma StopsWorker(s: State, maxQueue: nat)
    requires Ready(s) && AllIdle(s)
    ensures var e := Next(Next(s, Stop, maxQueue), WorkerExit, maxQueue);
            e.stop && e.workerGone && !e.closing.Open? && e.lock.Free? && e.drainers == s.drainers
  {
    var m := Next(s, Stop, maxQueue);
    assert m.stop && m.lock.Free? && m.drainers == s.drainers && !m.closing.Open?;
  }

  lemma JoinsAndSwaps(s: State, maxQueue: nat)
    requires s.workerGone && !s.closing.Open? && s.lock.Free? && AllIdle(s)
    ensures var e := Next(Next(s, Join, maxQueue), LastSwap, maxQueue);
            (e.closing.Swapped? || e.closing.Closed?) && |e.drainers| == |s.drainers|
            && (forall i :: 0 <= i < |e.drainers| && i != LAST ==> e.drainers[i] == [])
            && (e.closing.Closed? ==> e.drainers[LAST] == [])
  {
  }

  lemma WritesAndCloses(s: State, maxQueue: nat)
    requires s.closing.Swapped? || (s.closing.Closed? && s.drainers[LAST] == [])
    requires forall i :: 0 <= i < |s.drainers| && i != LAST ==> s.drainers[i] == []
    ensures var e := Next(Next(s, Write(LAST, |s.drainers[LAST]|), maxQueue), Close, maxQueue);
            e.closing.Closed? && FlushersIdle(e)
  {
    WriteOut(s, LAST, maxQueue);
  }

  /** With the lock free and nothing left to write: set stop, let the worker go, join it, flush, close. */
  lemma QuietCloses(s: State, maxQueue: nat) returns (us: seq<Step>, e: State)
    requires Ready(s) && AllIdle(s)
    ensures Leads(s, us, e, maxQueue) && e.closing.Closed? && FlushersIdle(e)
  {
    StopsWorker(s, maxQueue);
    var a := Next(Next(s, Stop, maxQueue), WorkerExit, maxQueue);
    JoinsAndSwaps(a, maxQueue);
    var b := Next(Next(a, Join, maxQueue), LastSwap, maxQueue);
    WritesAndCloses(b, maxQueue);
    var t := Write(LAST, |b.drainers[LAST]|);
    e := Next(Next(b, t, maxQueue), Close, maxQueue);
    RunTwo<State, Step>(Stepper(maxQueue), s, Stop, WorkerExit);
    RunTwo<State, Step>(Stepper(maxQueue), a, Join, LastSwap);
    RunTwo<State, Step>(Stepper(maxQueue), b, t, Close);
    LeadsOn(s, [Stop, WorkerExit], a, [Join, LastSwap], b, maxQueue);
    us := [Stop, WorkerExit] + [Join, LastSwap] + [t, Close];
    LeadsOn(s, [Stop, WorkerExit] + [Join, LastSwap], b, [t, Close], e, maxQueue);
  }

  /** From every reachable state the orchestrator can be closed, with every flush done. */
  lemma CloseComesToAnEnd(ts: seq<Step>, flushers: nat, maxQueue: nat) returns (us: seq<Step>)
    ensures var e := After(ts + us, flushers, maxQueue); e.closing.Closed? && FlushersIdle(e)
  {
    var s := After(ts, flushers, maxQueue);
    RunInv(ts, flushers, maxQueue);
    var us1, s1 := GetReady(s, maxQueue);
    var us2, s2 := AllWriteOut(s1, |s1.drainers|, maxQueue);
    var us3, s3 := QuietCloses(s2, maxQueue);
    LeadsOn(s, us1, s1, us2, s2, maxQueue);
    LeadsOn(s, us1 + us2, s2, us3, s3, maxQueue);
    us := us1 + us2 + us3;
    AfterAppend(ts, us, flushers, maxQueue);
  }
}
