/**
  The hand-off of write events from the submitting threads to the log, as a state machine over the
  points where threads can interleave: the queue's lock, the stop flag and each buffer write.
*/
module Orchestrator {
  import opened Bytes
  import opened Model
  import opened GroupCommit
  import opened Schedules

  type Batch = seq<Mutation>

  /** Who holds the queue's lock: nobody, a submitter that has seen a free place and no stop, the worker. */
  datatype Lock = Free | Submitter(batch: Batch) | Worker

  datatype Closing = Open | Stopped | Joined | Swapped | Closed

  /**
    drainers holds what each draining thread has taken off the queue and not yet written: first the
    worker, second the destructor's last flush, then any number of flush callers.
  */
  datatype Machine = Machine(
    waiting: multiset<Batch>,
    lock: Lock,
    queue: seq<Batch>,
    stop: bool,
    workerGone: bool,
    closing: Closing,
    drainers: seq<seq<Mutation>>,
    wal: seq<Mutation>,
    submitted: multiset<Batch>,
    accepted: seq<Batch>,
    dropped: multiset<Batch>)

  type State = s: Machine | |s.drainers| >= 2
    witness Machine(multiset{}, Free, [], false, false, Open, [[], []], [], multiset{}, [], multiset{})

  const WORKER: nat := 0
  const LAST: nat := 1

  datatype Step =
    | Submit(b: Batch)       // a non-empty batch is submitted and waits for a place
    | SubmitPass(b: Batch)   // the lock is taken: a place is free and stop is not set
    | SubmitPush             // the batch is queued and the lock given back
    | SubmitDrop(b: Batch)   // stop is set: the batch is counted as dropped
    | WorkerPass             // the worker holds the lock and has not seen stop
    | WorkerSwap             // it takes the whole queue
    | WorkerExit             // it sees stop between two rounds
    | FlushSwap(i: nat)      // a flush caller takes the whole queue
    | Write(i: nat, n: nat)  // a drainer writes its next buffer of n events
    | Stop                   // the destructor sets stop
    | Join                   // it has waited for the worker
    | LastSwap               // its flush takes the whole queue
    | Close                  // its flush has written everything

  predicate Enabled(s: State, t: Step, maxQueue: nat) {
    match t
    case Submit(b) => b != []
    case SubmitPass(b) => b in s.waiting && s.lock.Free? && !s.stop && |s.queue| < maxQueue
    case SubmitPush => s.lock.Submitter?
    case SubmitDrop(b) => b in s.waiting && s.lock.Free? && s.stop
    case WorkerPass => s.lock.Free? && !s.stop && !s.workerGone && s.drainers[WORKER] == []
    case WorkerSwap => s.lock.Worker?
    case WorkerExit => s.stop && !s.workerGone && s.drainers[WORKER] == [] && !s.lock.Worker?
    case FlushSwap(i) => LAST < i < |s.drainers| && s.lock.Free? && s.drainers[i] == []
    case Write(i, n) => i < |s.drainers| && 0 < n <= |s.drainers[i]|
    case Stop => s.closing.Open?
    case Join => s.closing.Stopped? && s.workerGone
    case LastSwap => s.closing.Joined? && s.lock.Free?
    case Close => s.closing.Swapped? && s.drainers[LAST] == []
  }

  /** Drainer i takes over the queue. */
  function Swap(s: State, i: nat): State
    requires i < |s.drainers|
  {
    s.(drainers := s.drainers[i := Flatten(s.queue)], queue := [])
  }

  function Do(s: State, t: Step, maxQueue: nat): State
    requires Enabled(s, t, maxQueue)
  {
    match t
    case Submit(b) => s.(waiting := s.waiting + multiset{b}, submitted := s.submitted + multiset{b})
    case SubmitPass(b) => s.(waiting := s.waiting - multiset{b}, lock := Submitter(b))
    case SubmitPush => s.(queue := s.queue + [s.lock.batch], accepted := s.accepted + [s.lock.batch], lock := Free)
    case SubmitDrop(b) => s.(waiting := s.waiting - multiset{b}, dropped := s.dropped + multiset{b})
    case WorkerPass => s.(lock := Worker)
    case WorkerSwap => Swap(s, WORKER).(lock := Free)
    case WorkerExit => s.(workerGone := true)
    case FlushSwap(i) => Swap(s, i)
    case Write(i, n) => s.(wal := s.wal + s.drainers[i][..n], drainers := s.drainers[i := s.drainers[i][n..]])
    case Stop => s.(stop := true, closing := Stopped)
    case Join => s.(closing := Joined)
    case LastSwap => Swap(s, LAST).(closing := Swapped)
    case Close => s.(closing := Closed)
  }

  // ----- What every step keeps -----

  /** Nothing is lost or written twice: what was accepted is in the log, with a drainer, or queued. */
  ghost predicate Conserved(s: State) {
    multiset(Flatten(s.accepted)) == multiset(s.wal) + multiset(Flatten(s.drainers)) + multiset(Flatten(s.queue))
  }

  /** Every submitted batch is waiting, held, accepted or dropped, and exactly one of these. */
  ghost predicate Accounted(s: State) {
    s.submitted == s.waiting + multiset(s.accepted) + s.dropped +
                   (if s.lock.Submitter? then multiset{s.lock.batch} else multiset{})
  }

  /** The phases of closing down: the last flush sees a queue nobody can add to any more. */
  ghost predicate Phased(s: State) {
    && (s.closing.Open? <==> !s.stop)
    && (s.workerGone ==> s.stop && s.drainers[WORKER] == [])
    && (s.lock.Worker? ==> !s.workerGone && s.drainers[WORKER] == [])
    && (s.closing.Joined? || s.closing.Swapped? || s.closing.Closed? ==> s.workerGone)
    && (s.closing.Swapped? || s.closing.Closed? ==> s.queue == [] && s.lock.Free?)
    && (!s.closing.Swapped? ==> s.drainers[LAST] == [])
  }

  /** A place in the queue is kept for the submitter that holds the lock. */
  ghost predicate Bounded(s: State, maxQueue: nat) {
    |s.queue| + (if s.lock.Submitter? then 1 else 0) <= maxQueue
  }

  ghost predicate Inv(s: State, maxQueue: nat) {
    Conserved(s) && Accounted(s) && Phased(s) && Bounded(s, maxQueue)
  }

  function Init(flushers: nat): State {
    Machine(multiset{}, Free, [], false, false, Open, seq(2 + flushers, _ => []), [], multiset{}, [], multiset{})
  }

  lemma {:induction false} FlattenEmpty<M>(bs: seq<seq<M>>)
    requires forall i :: 0 <= i < |bs| ==> bs[i] == []
    ensures Flatten(bs) == []
  {
    if bs != [] { FlattenEmpty(bs[1..]); }
  }

  lemma Cancel<M(!new)>(p: multiset<M>, q: multiset<M>, y: multiset<M>)
    requires p + y == q + y
    ensures p == q
  {
    forall e ensures p[e] == q[e] { assert (p + y)[e] == (q + y)[e]; }
  }

  lemma AddAssoc<M>(a: multiset<M>, b: multiset<M>, c: multiset<M>)
    ensures a + b + c == a + (b + c)
  {
  }

  /** Changing one slot changes the multiset of all slots by exactly that much. */
  lemma {:induction false} FlattenUpdate<M>(bs: seq<seq<M>>, i: nat, x: seq<M>)
    requires i < |bs|
    ensures multiset(Flatten(bs[i := x])) + multiset(bs[i]) == multiset(Flatten(bs)) + multiset(x)
  {
    var bs' := bs[i := x];
    assert Flatten(bs') == bs'[0] + Flatten(bs'[1..]) && Flatten(bs) == bs[0] + Flatten(bs[1..]);
    if i > 0 {
      FlattenUpdate(bs[1..], i - 1, x);
      assert bs'[1..] == bs[1..][i - 1 := x];
      AddAssoc(multiset(bs[0]), multiset(Flatten(bs'[1..])), multiset(bs[i]));
      AddAssoc(multiset(bs[0]), multiset(Flatten(bs[1..])), multiset(x));
    } else {
      assert bs'[1..] == bs[1..];
    }
  }

  lemma SwapConserves(s: State, i: nat)
    requires i < |s.drainers| && s.drainers[i] == [] && Conserved(s)
    ensures Conserved(Swap(s, i))
  {
    var taken := Flatten(s.queue);
    FlattenUpdate(s.drainers, i, taken);
    assert multiset(Flatten(s.drainers[i := taken])) == multiset(Flatten(s.drainers)) + multiset(taken);
    AddAssoc(multiset(s.wal), multiset(Flatten(s.drainers)), multiset(taken));
  }

  /** Moving the front x of a slot x + y to the log. */
  lemma WriteConserves(s: State, i: nat, x: seq<Mutation>, y: seq<Mutation>)
    requires i < |s.drainers| && s.drainers[i] == x + y && Conserved(s)
    ensures Conserved(s.(wal := s.wal + x, drainers := s.drainers[i := y]))
  {
    FlattenUpdate(s.drainers, i, y);
    var all, rest := multiset(Flatten(s.drainers)), multiset(Flatten(s.drainers[i := y]));
    AddAssoc(rest, multiset(x), multiset(y));
    Cancel(rest + multiset(x), all, multiset(y));
    assert multiset(s.wal + x) + rest == multiset(s.wal) + (rest + multiset(x));
  }

  lemma PushConserves(s: State, b: Batch)
    requires Conserved(s)
    ensures Conserved(s.(queue := s.queue + [b], accepted := s.accepted + [b], lock := Free))
  {
    FlattenSnoc(s.queue, b);
    FlattenSnoc(s.accepted, b);
  }

  lemma StepConserves(s: State, t: Step, maxQueue: nat)
    requires Conserved(s) && Phased(s) && Enabled(s, t, maxQueue)
    ensures Conserved(Do(s, t, maxQueue))
  {
    if t.Write? {
      var d := s.drainers[t.i];
      assert d == d[..t.n] + d[t.n..];
      WriteConserves(s, t.i, d[..t.n], d[t.n..]);
    } else if t.WorkerSwap? {
      SwapConserves(s, WORKER);
    } else if t.FlushSwap? {
      SwapConserves(s, t.i);
    } else if t.LastSwap? {
      SwapConserves(s, LAST);
    } else if t.SubmitPush? {
      PushConserves(s, s.lock.batch);
    }
  }

  /** A batch enters, or moves from one of the four places to another. */
  lemma MovedBatch(w: multiset<Batch>, a: multiset<Batch>, d: multiset<Batch>, h: multiset<Batch>, b: Batch)
    ensures w + a + d + h + multiset{b} == (w + multiset{b}) + a + d + h
    ensures w + a + d + h + multiset{b} == w + (a + multiset{b}) + d + h
    ensures w + a + d + h + multiset{b} == w + a + (d + multiset{b}) + h
    ensures b in w ==> (w - multiset{b}) + a + d + h + multiset{b} == w + a + d + h
  {
    if b in w { assert (w - multiset{b}) + multiset{b} == w; }
  }

  lemma SubmitAccounts(s: State, b: Batch)
    requires Accounted(s)
    ensures Accounted(s.(waiting := s.waiting + multiset{b}, submitted := s.submitted + multiset{b}))
  {
    var held := if s.lock.Submitter? then multiset{s.lock.batch} else multiset{};
    MovedBatch(s.waiting, multiset(s.accepted), s.dropped, held, b);
  }

  lemma PassAccounts(s: State, b: Batch)
    requires Accounted(s) && s.lock.Free? && b in s.waiting
    ensures Accounted(s.(waiting := s.waiting - multiset{b}, lock := Submitter(b)))
  {
    var w, a, d := s.waiting, multiset(s.accepted), s.dropped;
    MovedBatch(w, a, d, multiset{}, b);
    assert w - multiset{b} + a + d + multiset{} == w - multiset{b} + a + d;
  }

  lemma DropAccounts(s: State, b: Batch)
    requires Accounted(s) && s.lock.Free? && b in s.waiting
    ensures Accounted(s.(waiting := s.waiting - multiset{b}, dropped := s.dropped + multiset{b}))
  {
    MovedBatch(s.waiting, multiset(s.accepted), s.dropped, multiset{}, b);
    MovedBatch(s.waiting - multiset{b}, multiset(s.accepted), s.dropped, multiset{}, b);
  }

  lemma PushAccounts(s: State, b: Batch)
    requires Accounted(s) && s.lock == Submitter(b)
    ensures Accounted(s.(queue := s.queue + [b], accepted := s.accepted + [b], lock := Free))
  {
    var w, a, d := s.waiting, multiset(s.accepted), s.dropped;
    MovedBatch(w, a, d, multiset{}, b);
    assert multiset(s.accepted + [b]) == a + multiset{b} && w + a + d + multiset{} == w + a + d;
  }

  lemma StepAccounts(s: State, t: Step, maxQueue: nat)
    requires Accounted(s) && Enabled(s, t, maxQueue)
    ensures Accounted(Do(s, t, maxQueue))
  {
    if t.Submit? {
      SubmitAccounts(s, t.b);
    } else if t.SubmitPass? {
      PassAccounts(s, t.b);
    } else if t.SubmitDrop? {
      DropAccounts(s, t.b);
    } else if t.SubmitPush? {
      PushAccounts(s, s.lock.batch);
    } else {
      var s' := Do(s, t, maxQueue);
      assert s'.waiting == s.waiting && s'.accepted == s.accepted;
      assert s'.dropped == s.dropped && s'.submitted == s.submitted && s'.lock.Submitter? == s.lock.Submitter?;
    }
  }

  lemma StepKeepsPhase(s: State, t: Step, maxQueue: nat)
    requires Phased(s) && Bounded(s, maxQueue) && Enabled(s, t, maxQueue)
    ensures Phased(Do(s, t, maxQueue)) && Bounded(Do(s, t, maxQueue), maxQueue)
  {
  }

  // ----- Whole runs -----

  /** A schedule is any sequence of steps; one that is not possible when its turn comes does not happen. */
  function Next(s: State, t: Step, maxQueue: nat): State {
    if Enabled(s, t, maxQueue) then Do(s, t, maxQueue) else s
  }

  function Stepper(maxQueue: nat): (State, Step) -> State { (s, t) => Next(s, t, maxQueue) }

  function After(ts: seq<Step>, flushers: nat, maxQueue: nat): State {
    Run<State, Step>(Stepper(maxQueue), Init(flushers), ts)
  }

  lemma StepKeeps(s: State, t: Step, maxQueue: nat)
    requires Inv(s, maxQueue)
    ensures Inv(Next(s, t, maxQueue), maxQueue)
  {
    if Enabled(s, t, maxQueue) {
      StepConserves(s, t, maxQueue);
      StepAccounts(s, t, maxQueue);
      StepKeepsPhase(s, t, maxQueue);
    }
  }

  /** Every run, whatever the interleaving, conserves the events and bounds the queue. */
  lemma RunInv(ts: seq<Step>, flushers: nat, maxQueue: nat)
    ensures Inv(After(ts, flushers, maxQueue), maxQueue)
  {
    FlattenEmpty(Init(flushers).drainers);
    forall s: State, t: Step | Inv(s, maxQueue) ensures Inv(Stepper(maxQueue)(s, t), maxQueue) {
      StepKeeps(s, t, maxQueue);
    }
    RunKeeps<State, Step>(Stepper(maxQueue), (s: State) => Inv(s, maxQueue), Init(flushers), ts);
  }

  /** No flush caller has unwritten events. */
  ghost predicate FlushersIdle(s: State) {
    forall i :: LAST < i < |s.drainers| ==> s.drainers[i] == []
  }

  lemma ClosedDrainersIdle(s: State, maxQueue: nat)
    requires Inv(s, maxQueue) && s.closing.Closed? && FlushersIdle(s)
    ensures forall i :: 0 <= i < |s.drainers| ==> s.drainers[i] == []
  {
    assert s.drainers[WORKER] == [] && s.drainers[LAST] == [];
  }

  /**
    Once the destructor is done and no other flush is under way, the log holds exactly the accepted
    events; once no submitter is left waiting, each submitted batch was accepted or dropped.
  */
  lemma ClosedMeansWritten(ts: seq<Step>, flushers: nat, maxQueue: nat)
    ensures var s := After(ts, flushers, maxQueue);
            && |s.queue| <= maxQueue
            && (s.closing.Closed? && FlushersIdle(s) ==> multiset(s.wal) == multiset(Flatten(s.accepted)))
            && (s.closing.Closed? && s.waiting == multiset{} ==> s.submitted == multiset(s.accepted) + s.dropped)
  {
    RunInv(ts, flushers, maxQueue);
    var s := After(ts, flushers, maxQueue);
    if s.closing.Closed? && FlushersIdle(s) {
      ClosedDrainersIdle(s, maxQueue);
      FlattenEmpty(s.drainers);
    }
  }

  /** After the destructor's swap no batch is accepted any more, so none can be left behind. */
  lemma NothingAcceptedAfterLastSwap(ts: seq<Step>, t: Step, flushers: nat, maxQueue: nat)
    requires var c := After(ts, flushers, maxQueue).closing; c.Swapped? || c.Closed?
    ensures Next(After(ts, flushers, maxQueue), t, maxQueue).accepted == After(ts, flushers, maxQueue).accepted
  {
    RunInv(ts, flushers, maxQueue);
  }

  // ----- Order -----

  /** The drainer that takes the queue in a step, if any. */
  function Taker(t: Step): Option<nat> {
    if t.WorkerSwap? then Some(WORKER)
    else if t.LastSwap? then Some(LAST)
    else if t.FlushSwap? then Some(t.i)
    else None
  }

  /** The drainers with unwritten events, in the order in which they took them, after one more step. */
  function NextTurns(s: State, q: seq<nat>, t: Step, maxQueue: nat): seq<nat> {
    if !Enabled(s, t, maxQueue) then q
    else if Taker(t).Some? then if Flatten(s.queue) == [] then q else q + [Taker(t).value]
    else if t.Write? && t.n == |s.drainers[t.i]| then Dropped(q, t.i)
    else q
  }

  function Dropped(q: seq<nat>, i: nat): seq<nat> {
    if q == [] then [] else if q[0] == i then q[1..] else [q[0]] + Dropped(q[1..], i)
  }

  function Turns(ts: seq<Step>, flushers: nat, maxQueue: nat): seq<nat> {
    if ts == [] then []
    else
      var n := |ts| - 1;
      NextTurns(After(ts[..n], flushers, maxQueue), Turns(ts[..n], flushers, maxQueue), ts[n], maxQueue)
  }

  /** A write is by the drainer that took its events first. */
  predicate InTurn(s: State, q: seq<nat>, t: Step, maxQueue: nat) {
    t.Write? && Enabled(s, t, maxQueue) ==> q != [] && q[0] == t.i
  }

  /** A run whose drainers write in the order in which they took the queue. */
  ghost predicate Fifo(ts: seq<Step>, flushers: nat, maxQueue: nat) {
    ts != [] ==>
      var n := |ts| - 1;
      && Fifo(ts[..n], flushers, maxQueue)
      && InTurn(After(ts[..n], flushers, maxQueue), Turns(ts[..n], flushers, maxQueue), ts[n], maxQueue)
  }

  predicate NoRepeat(q: seq<nat>) { forall i, j :: 0 <= i < j < |q| ==> q[i] != q[j] }

  /** q lists exactly the busy drainers, each once. */
  ghost predicate Lined(s: State, q: seq<nat>) {
    NoRepeat(q) && forall i :: i in q <==> 0 <= i < |s.drainers| && s.drainers[i] != []
  }

  predicate Within(q: seq<nat>, n: nat) { forall k :: 0 <= k < |q| ==> q[k] < n }

  /** What the drainers in q hold, one after the other. */
  function Held(ds: seq<seq<Mutation>>, q: seq<nat>): seq<Mutation>
    requires Within(q, |ds|)
  {
    if q == [] then [] else ds[q[0]] + Held(ds, q[1..])
  }

  /** The log, then the busy drainers in turn, then the queue: the accepted events in submission order. */
  ghost predicate InOrder(s: State, q: seq<nat>) {
    Lined(s, q) && Within(q, |s.drainers|) && Flatten(s.accepted) == s.wal + Held(s.drainers, q) + Flatten(s.queue)
  }

  lemma {:induction false} HeldSnoc(ds: seq<seq<Mutation>>, q: seq<nat>, i: nat)
    requires i < |ds| && Within(q, |ds|)
    ensures Held(ds, q + [i]) == Held(ds, q) + ds[i]
  {
    if q == [] {
      assert [i][1..] == [] && [] + [i] == [i];
      assert ds[i] + [] == ds[i] == [] + ds[i];
    } else {
      HeldSnoc(ds, q[1..], i);
      assert (q + [i])[1..] == q[1..] + [i];
      SeqAssoc(ds[q[0]], Held(ds, q[1..]), ds[i]);
    }
  }

  lemma {:induction false} HeldElsewhere(ds: seq<seq<Mutation>>, q: seq<nat>, i: nat, x: seq<Mutation>)
    requires i < |ds| && i !in q && Within(q, |ds|)
    ensures Held(ds[i := x], q) == Held(ds, q)
  {
    if q != [] {
      assert q[0] in q && i !in q[1..];
      HeldElsewhere(ds, q[1..], i, x);
    }
  }

  lemma HeadOrTail(q: seq<nat>, j: nat)
    requires q != []
    ensures j in q <==> j == q[0] || j in q[1..]
    ensures NoRepeat(q) ==> NoRepeat(q[1..]) && q[0] !in q[1..]
  {
    assert q == [q[0]] + q[1..];
  }

  lemma FrontedNoRepeat(i: nat, q: seq<nat>)
    requires NoRepeat(q) && i !in q
    ensures NoRepeat([i] + q)
  {
  }

  lemma {:induction false} DroppedHas(q: seq<nat>, i: nat, j: nat)
    requires NoRepeat(q)
    ensures NoRepeat(Dropped(q, i)) && (j in Dropped(q, i) <==> j in q && j != i)
  {
    if q != [] {
      HeadOrTail(q, j);
      if q[0] != i {
        DroppedHas(q[1..], i, j);
        DroppedHas(q[1..], i, q[0]);
        FrontedNoRepeat(q[0], Dropped(q[1..], i));
      }
    }
  }

  lemma FirstIsBusy(s: State, q: seq<nat>)
    requires Lined(s, q) && q != []
    ensures q[0] < |s.drainers| && s.drainers[q[0]] != []
  {
    assert q[0] in q;
  }

  lemma NoneBusy(s: State, q: seq<nat>)
    requires Lined(s, q) && forall i :: 0 <= i < |s.drainers| ==> s.drainers[i] == []
    ensures q == []
  {
    if q != [] {
      FirstIsBusy(s, q);
      assert false;
    }
  }

  lemma SwapLined(s: State, q: seq<nat>, i: nat)
    requires Lined(s, q) && i < |s.drainers| && s.drainers[i] == []
    ensures Lined(Swap(s, i), if Flatten(s.queue) == [] then q else q + [i])
  {
    assert i !in q;
    if Flatten(s.queue) == [] { assert s.drainers[i := []] == s.drainers; }
  }

  lemma WriteLined(s: State, q: seq<nat>, i: nat, n: nat, maxQueue: nat)
    requires Lined(s, q) && Enabled(s, Write(i, n), maxQueue)
    ensures Lined(Do(s, Write(i, n), maxQueue), if n == |s.drainers[i]| then Dropped(q, i) else q)
  {
    forall j: nat ensures j in Dropped(q, i) <==> j in q && j != i { DroppedHas(q, i, j); }
    DroppedHas(q, i, i);
    var s' := Do(s, Write(i, n), maxQueue);
    assert forall j :: 0 <= j < |s.drainers| && j != i ==> s'.drainers[j] == s.drainers[j];
  }

  lemma StepLined(s: State, q: seq<nat>, t: Step, maxQueue: nat)
    requires Phased(s) && Lined(s, q)
    ensures Lined(Next(s, t, maxQueue), NextTurns(s, q, t, maxQueue))
  {
    if Enabled(s, t, maxQueue) {
      if Taker(t).Some? {
        SwapLined(s, q, Taker(t).value);
      } else if t.Write? {
        WriteLined(s, q, t.i, t.n, maxQueue);
      } else {
        assert Do(s, t, maxQueue).drainers == s.drainers;
      }
    }
  }

  lemma {:induction false} RunLined(ts: seq<Step>, flushers: nat, maxQueue: nat)
    ensures Lined(After(ts, flushers, maxQueue), Turns(ts, flushers, maxQueue))
  {
    if ts != [] {
      var n := |ts| - 1;
      RunLined(ts[..n], flushers, maxQueue);
      RunInv(ts[..n], flushers, maxQueue);
      StepLined(After(ts[..n], flushers, maxQueue), Turns(ts[..n], flushers, maxQueue), ts[n], maxQueue);
    }
  }

  lemma HeldAfterSwap(ds: seq<seq<Mutation>>, q: seq<nat>, i: nat, taken: seq<Mutation>)
    requires i < |ds| && i !in q && Within(q, |ds|)
    ensures Held(ds[i := taken], q + [i]) == Held(ds, q) + taken
  {
    HeldElsewhere(ds, q, i, taken);
    HeldSnoc(ds[i := taken], q, i);
  }

  lemma TakenAway<M>(w: seq<M>, h: seq<M>, taken: seq<M>)
    ensures w + h + taken == w + (h + taken) + []
  {
  }

  lemma SwapInOrder(s: State, q: seq<nat>, i: nat)
    requires InOrder(s, q) && i < |s.drainers| && s.drainers[i] == []
    ensures InOrder(Swap(s, i), if Flatten(s.queue) == [] then q else q + [i])
  {
    var taken := Flatten(s.queue);
    SwapLined(s, q, i);
    if taken == [] {
      assert s.drainers[i := taken] == s.drainers;
    } else {
      HeldAfterSwap(s.drainers, q, i, taken);
      TakenAway(s.wal, Held(s.drainers, q), taken);
    }
  }

  /** The oldest drainer hands the front of its events to the log. */
  lemma FrontWritten(ds: seq<seq<Mutation>>, q: seq<nat>, n: nat)
    requires q != [] && NoRepeat(q) && Within(q, |ds|) && 0 < n <= |ds[q[0]]|
    ensures var i := q[0]; var ds' := ds[i := ds[i][n..]];
            Held(ds, q) == ds[i][..n] + Held(ds', if n == |ds[i]| then q[1..] else q)
  {
    var i := q[0];
    var ds' := ds[i := ds[i][n..]];
    assert i !in q[1..];
    HeldElsewhere(ds, q[1..], i, ds[i][n..]);
    assert ds[i] == ds[i][..n] + ds[i][n..];
    SeqAssoc(ds[i][..n], ds[i][n..], Held(ds, q[1..]));
    if n == |ds[i]| { assert ds[i][..n] == ds[i]; }
  }

  lemma WriteInOrder(s: State, q: seq<nat>, i: nat, n: nat, maxQueue: nat)
    requires InOrder(s, q) && Enabled(s, Write(i, n), maxQueue) && q != [] && q[0] == i
    ensures InOrder(Do(s, Write(i, n), maxQueue), if n == |s.drainers[i]| then Dropped(q, i) else q)
  {
    WriteLined(s, q, i, n, maxQueue);
    FrontWritten(s.drainers, q, n);
    var x, ds := s.drainers[i][..n], s.drainers[i := s.drainers[i][n..]];
    SeqAssoc(s.wal, x, Held(ds, if n == |s.drainers[i]| then q[1..] else q));
  }

  lemma PushInOrder(s: State, q: seq<nat>, maxQueue: nat)
    requires InOrder(s, q) && Enabled(s, SubmitPush, maxQueue)
    ensures InOrder(Do(s, SubmitPush, maxQueue), q)
  {
    FlattenSnoc(s.queue, s.lock.batch);
    FlattenSnoc(s.accepted, s.lock.batch);
    SeqAssoc(s.wal + Held(s.drainers, q), Flatten(s.queue), s.lock.batch);
  }

  lemma TakerInOrder(s: State, q: seq<nat>, t: Step, maxQueue: nat)
    requires Phased(s) && InOrder(s, q) && Enabled(s, t, maxQueue) && Taker(t).Some?
    ensures InOrder(Do(s, t, maxQueue), NextTurns(s, q, t, maxQueue))
  {
    SwapInOrder(s, q, Taker(t).value);
  }

  lemma StepInOrder(s: State, q: seq<nat>, t: Step, maxQueue: nat)
    requires Phased(s) && InOrder(s, q) && InTurn(s, q, t, maxQueue)
    ensures InOrder(Next(s, t, maxQueue), NextTurns(s, q, t, maxQueue))
  {
    if Enabled(s, t, maxQueue) {
      if Taker(t).Some? {
        TakerInOrder(s, q, t, maxQueue);
      } else if t.Write? {
        WriteInOrder(s, q, t.i, t.n, maxQueue);
      } else if t.SubmitPush? {
        PushInOrder(s, q, maxQueue);
      } else {
        var s' := Do(s, t, maxQueue);
        assert s'.drainers == s.drainers && s'.wal == s.wal && s'.queue == s.queue && s'.accepted == s.accepted;
      }
    }
  }

  /** If every drainer writes in its turn, nothing is ever out of order. */
  lemma {:induction false} FifoInOrder(ts: seq<Step>, flushers: nat, maxQueue: nat)
    requires Fifo(ts, flushers, maxQueue)
    ensures InOrder(After(ts, flushers, maxQueue), Turns(ts, flushers, maxQueue))
    ensures After(ts, flushers, maxQueue).wal <= Flatten(After(ts, flushers, maxQueue).accepted)
  {
    if ts != [] {
      var n := |ts| - 1;
      FifoInOrder(ts[..n], flushers, maxQueue);
      RunInv(ts[..n], flushers, maxQueue);
      StepInOrder(After(ts[..n], flushers, maxQueue), Turns(ts[..n], flushers, maxQueue), ts[n], maxQueue);
    }
  }

  predicate Distinct(ms: seq<Mutation>) { forall i, j :: 0 <= i < j < |ms| ==> ms[i] != ms[j] }

  /** Log and accepted events part company at some place, for good. */
  ghost predicate Parted(s: State) {
    exists k :: 0 <= k < |s.wal| && k < |Flatten(s.accepted)| && s.wal[k] != Flatten(s.accepted)[k]
  }

  lemma {:induction false} HeldContains(ds: seq<seq<Mutation>>, q: seq<nat>, j: nat) returns (p: nat)
    requires j < |q| && Within(q, |ds|) && ds[q[j]] != []
    ensures p < |Held(ds, q)| && Held(ds, q)[p] == ds[q[j]][0] && (j > 0 ==> p >= |ds[q[0]]|)
  {
    if j == 0 {
      p := 0;
    } else {
      p := HeldContains(ds, q[1..], j - 1);
      p := |ds[q[0]]| + p;
    }
  }

  /** A write out of turn puts an event where an older one belongs. */
  lemma OutOfTurnParts(s: State, q: seq<nat>, t: Step, maxQueue: nat)
    requires InOrder(s, q) && !InTurn(s, q, t, maxQueue) && Distinct(Flatten(s.accepted))
    ensures Parted(Next(s, t, maxQueue))
  {
    var i, s', all := t.i, Next(s, t, maxQueue), Flatten(s.accepted);
    var k := |s.wal|;
    assert i in q;
    var j :| 0 <= j < |q| && q[j] == i;
    assert q[0] in q;
    var p := HeldContains(s.drainers, q, j);
    var _ := HeldContains(s.drainers, q, 0);
    assert all[k] == Held(s.drainers, q)[0] == s.drainers[q[0]][0];
    assert all[k + p] == Held(s.drainers, q)[p] == s.drainers[i][0];
    assert s'.wal[k] == s.drainers[i][0];
  }

  lemma StepGrows(s: State, t: Step, maxQueue: nat)
    ensures s.wal <= Next(s, t, maxQueue).wal
    ensures Flatten(s.accepted) <= Flatten(Next(s, t, maxQueue).accepted)
  {
    if t.SubmitPush? && Enabled(s, t, maxQueue) { FlattenSnoc(s.accepted, s.lock.batch); }
  }

  lemma PartedForGood(s: State, t: Step, maxQueue: nat)
    requires Parted(s)
    ensures Parted(Next(s, t, maxQueue))
  {
    StepGrows(s, t, maxQueue);
    var s' := Next(s, t, maxQueue);
    var k :| 0 <= k < |s.wal| && k < |Flatten(s.accepted)| && s.wal[k] != Flatten(s.accepted)[k];
    assert s'.wal[k] == s.wal[k] && Flatten(s'.accepted)[k] == Flatten(s.accepted)[k];
  }

  lemma {:induction false} NotFifoParts(ts: seq<Step>, flushers: nat, maxQueue: nat)
    requires !Fifo(ts, flushers, maxQueue) && Distinct(Flatten(After(ts, flushers, maxQueue).accepted))
    ensures Parted(After(ts, flushers, maxQueue))
  {
    var n := |ts| - 1;
    var s, q := After(ts[..n], flushers, maxQueue), Turns(ts[..n], flushers, maxQueue);
    StepGrows(s, ts[n], maxQueue);
    PrefixDistinct(Flatten(s.accepted), Flatten(After(ts, flushers, maxQueue).accepted));
    if Fifo(ts[..n], flushers, maxQueue) {
      FifoInOrder(ts[..n], flushers, maxQueue);
      OutOfTurnParts(s, q, ts[n], maxQueue);
    } else {
      NotFifoParts(ts[..n], flushers, maxQueue);
      PartedForGood(s, ts[n], maxQueue);
    }
  }

  lemma PrefixDistinct(a: seq<Mutation>, b: seq<Mutation>)
    requires a <= b && Distinct(b)
    ensures Distinct(a)
  {
    assert forall i :: 0 <= i < |a| ==> a[i] == b[i];
  }

  /**
    Over every interleaving, with events that can be told apart: the log is a prefix of the accepted
    events in submission order exactly when every write was by the drainer that had taken its events first.
  */
  lemma InOrderIffFifo(ts: seq<Step>, flushers: nat, maxQueue: nat)
    requires Distinct(Flatten(After(ts, flushers, maxQueue).accepted))
    ensures After(ts, flushers, maxQueue).wal <= Flatten(After(ts, flushers, maxQueue).accepted)
            <==> Fifo(ts, flushers, maxQueue)
  {
    if Fifo(ts, flushers, maxQueue) {
      FifoInOrder(ts, flushers, maxQueue);
    } else {
      NotFifoParts(ts, flushers, maxQueue);
    }
  }

  /** With drainers writing in turn, the log of a closed orchestrator is the accepted events in order. */
  lemma ClosedLogInOrder(ts: seq<Step>, flushers: nat, maxQueue: nat)
    requires Fifo(ts, flushers, maxQueue)
    requires var s := After(ts, flushers, maxQueue); s.closing.Closed? && FlushersIdle(s)
    ensures After(ts, flushers, maxQueue).wal == Flatten(After(ts, flushers, maxQueue).accepted)
  {
    RunInv(ts, flushers, maxQueue);
    FifoInOrder(ts, flushers, maxQueue);
    var s, q := After(ts, flushers, maxQueue), Turns(ts, flushers, maxQueue);
    ClosedDrainersIdle(s, maxQueue);
    NoneBusy(s, q);
    assert s.wal + [] + Flatten<Mutation>([]) == s.wal;
  }

  // ----- Runs that are in order -----

  /** Nobody but drainer i has unwritten events. */
  ghost predicate OthersIdle(s: State, i: nat) {
    forall j :: 0 <= j < |s.drainers| && j != i ==> s.drainers[j] == []
  }

  /** The queue is not taken while another drainer has unwritten events. */
  ghost predicate TakesAlone(s: State, t: Step, maxQueue: nat) {
    Enabled(s, t, maxQueue) && Taker(t).Some? ==> OthersIdle(s, Taker(t).value)
  }

  ghost predicate Serial(ts: seq<Step>, flushers: nat, maxQueue: nat) {
    ts != [] ==>
      var n := |ts| - 1;
      Serial(ts[..n], flushers, maxQueue) && TakesAlone(After(ts[..n], flushers, maxQueue), ts[n], maxQueue)
  }

  lemma {:induction false} DroppedShorter(q: seq<nat>, i: nat)
    ensures |Dropped(q, i)| <= |q|
  {
    if q != [] { DroppedShorter(q[1..], i); }
  }

  lemma LonerTurns(s: State, q: seq<nat>, t: Step, maxQueue: nat)
    requires Phased(s) && Lined(s, q) && |q| <= 1 && TakesAlone(s, t, maxQueue)
    ensures |NextTurns(s, q, t, maxQueue)| <= 1 && InTurn(s, q, t, maxQueue)
  {
    if t.Write? { DroppedShorter(q, t.i); }
    if Enabled(s, t, maxQueue) && Taker(t).Some? { NoneBusy(s, q); }
  }

  /** Drains that do not overlap are in turn. */
  lemma {:induction false} SerialIsFifo(ts: seq<Step>, flushers: nat, maxQueue: nat)
    requires Serial(ts, flushers, maxQueue)
    ensures Fifo(ts, flushers, maxQueue) && |Turns(ts, flushers, maxQueue)| <= 1
  {
    if ts != [] {
      var n := |ts| - 1;
      SerialIsFifo(ts[..n], flushers, maxQueue);
      RunLined(ts[..n], flushers, maxQueue);
      RunInv(ts[..n], flushers, maxQueue);
      LonerTurns(After(ts[..n], flushers, maxQueue), Turns(ts[..n], flushers, maxQueue), ts[n], maxQueue);
    }
  }

  /** No flush but the destructor's: then the worker is the only drainer until it is joined. */
  ghost predicate NoFlush(ts: seq<Step>) {
    forall i :: 0 <= i < |ts| ==> !ts[i].FlushSwap?
  }

  lemma IdleFlushersStayIdle(s: State, t: Step, maxQueue: nat)
    requires FlushersIdle(s) && !t.FlushSwap?
    ensures FlushersIdle(Next(s, t, maxQueue))
  {
    if Enabled(s, t, maxQueue) {
      var s' := Do(s, t, maxQueue);
      if t.Write? {
        assert s'.drainers == s.drainers[t.i := s.drainers[t.i][t.n..]];
      } else if Taker(t).Some? {
        assert s'.drainers == s.drainers[Taker(t).value := Flatten(s.queue)];
      } else {
        assert s'.drainers == s.drainers;
      }
    }
  }

  lemma NoFlushTakesAlone(s: State, t: Step, maxQueue: nat)
    requires Inv(s, maxQueue) && FlushersIdle(s) && !t.FlushSwap?
    ensures TakesAlone(s, t, maxQueue)
  {
    if Enabled(s, t, maxQueue) && Taker(t).Some? {
      forall j | 0 <= j < |s.drainers| && j != Taker(t).value ensures s.drainers[j] == [] {
        assert j == WORKER || j == LAST || LAST < j;
      }
    }
  }

  lemma {:induction false} NoFlushIsSerial(ts: seq<Step>, flushers: nat, maxQueue: nat)
    requires NoFlush(ts)
    ensures Serial(ts, flushers, maxQueue) && FlushersIdle(After(ts, flushers, maxQueue))
  {
    if ts != [] {
      var n := |ts| - 1;
      var s := After(ts[..n], flushers, maxQueue);
      NoFlushIsSerial(ts[..n], flushers, maxQueue);
      RunInv(ts[..n], flushers, maxQueue);
      NoFlushTakesAlone(s, ts[n], maxQueue);
      IdleFlushersStayIdle(s, ts[n], maxQueue);
    }
  }

  /** So a run whose only flush is the destructor's is in order. */
  lemma NoFlushIsFifo(ts: seq<Step>, flushers: nat, maxQueue: nat)
    requires NoFlush(ts)
    ensures Fifo(ts, flushers, maxQueue) && FlushersIdle(After(ts, flushers, maxQueue))
  {
    NoFlushIsSerial(ts, flushers, maxQueue);
    SerialIsFifo(ts, flushers, maxQueue);
  }

  // ----- A run that is out of order -----

  lemma WriteAll(s: State, i: nat, maxQueue: nat)
    requires i < |s.drainers|
    ensures Next(s, Write(i, |s.drainers[i]|), maxQueue)
            == s.(wal := s.wal + s.drainers[i], drainers := s.drainers[i := []])
  {
    var d := s.drainers[i];
    assert d[..|d|] == d && d[|d|..] == [];
    if d == [] { assert s.wal + d == s.wal && s.drainers[i := []] == s.drainers; }
  }

  function Then(s: State, ts: seq<Step>, maxQueue: nat): State { Run<State, Step>(Stepper(maxQueue), s, ts) }

  /** One submitter passing through an open queue with a free place. */
  lemma SubmitQueues(s: State, b: Batch, maxQueue: nat) returns (ts: seq<Step>)
    requires b != [] && s.lock.Free? && !s.stop && |s.queue| < maxQueue
    ensures Then(s, ts, maxQueue)
            == s.(queue := s.queue + [b], accepted := s.accepted + [b], submitted := s.submitted + multiset{b})
  {
    ts := [Submit(b), SubmitPass(b), SubmitPush];
    RunThree<State, Step>(Stepper(maxQueue), s, Submit(b), SubmitPass(b), SubmitPush);
    assert s.waiting + multiset{b} - multiset{b} == s.waiting;
  }

  lemma FlattenOne<M>(b: seq<M>)
    ensures Flatten([b]) == b
  {
    assert [b][1..] == [];
    assert b + Flatten<M>([]) == b;
  }

  lemma FlattenTwo<M>(a: seq<M>, b: seq<M>)
    ensures Flatten([a, b]) == a + b
    ensures [] + b + a == b + a
  {
    FlattenOne(b);
    assert [a, b][1..] == [b];
  }

  lemma WorkerTakes(s: State, b: Batch, maxQueue: nat) returns (ts: seq<Step>)
    requires s.queue == [b] && s.lock.Free? && !s.stop && !s.workerGone && s.drainers[WORKER] == []
    ensures Then(s, ts, maxQueue) == s.(drainers := s.drainers[WORKER := b], queue := [])
  {
    FlattenOne(b);
    ts := [WorkerPass, WorkerSwap];
    RunTwo<State, Step>(Stepper(maxQueue), s, WorkerPass, WorkerSwap);
  }

  /** A flush beside a busy worker takes the later batch and writes it first. */
  lemma FlushOvertakes(s: State, a: Batch, b: Batch, maxQueue: nat) returns (ts: seq<Step>)
    requires a != [] && b != [] && s.queue == [b] && s.lock.Free? && s.drainers == [a, [], []]
    ensures Then(s, ts, maxQueue).wal == s.wal + b + a && Then(s, ts, maxQueue).accepted == s.accepted
  {
    FlattenOne(b);
    var s1 := Next(s, FlushSwap(2), maxQueue);
    WriteAll(s1, 2, maxQueue);
    WriteAll(Next(s1, Write(2, |b|), maxQueue), 0, maxQueue);
    ts := [FlushSwap(2), Write(2, |b|), Write(0, |a|)];
    RunThree<State, Step>(Stepper(maxQueue), s, FlushSwap(2), Write(2, |b|), Write(0, |a|));
  }

  /** The worker has taken a. */
  lemma FirstTaken(a: Batch) returns (ts: seq<Step>)
    requires a != []
    ensures Then(Init(1), ts, 1)
            == Machine(multiset{}, Free, [], false, false, Open, [a, [], []], [], multiset{a}, [a], multiset{})
  {
    var s := Init(1);
    var submit := SubmitQueues(s, a, 1);
    var take := WorkerTakes(Then(s, submit, 1), a, 1);
    ts := submit + take;
    RunAppend<State, Step>(Stepper(1), s, submit, take);
    assert [] + [a] == [a] && [[], [], []][WORKER := a] == [a, [], []];
  }

  /** The worker has taken a, and b is queued behind it. */
  lemma WorkerBusy(a: Batch, b: Batch) returns (ts: seq<Step>)
    requires a != [] && b != []
    ensures var s := Then(Init(1), ts, 1);
            s.queue == [b] && s.lock.Free? && s.drainers == [a, [], []] && s.wal == [] && s.accepted == [a, b]
  {
    var first := FirstTaken(a);
    var submit := SubmitQueues(Then(Init(1), first, 1), b, 1);
    ts := first + submit;
    RunAppend<State, Step>(Stepper(1), Init(1), first, submit);
  }

  /** So with a flush beside the worker a run can put any two batches into the log in the wrong order. */
  lemma FlushCanReorder(a: Batch, b: Batch) returns (ts: seq<Step>)
    requires a != [] && b != []
    ensures After(ts, 1, 1).wal == b + a && Flatten(After(ts, 1, 1).accepted) == a + b
  {
    var before := WorkerBusy(a, b);
    var flush := FlushOvertakes(Then(Init(1), before, 1), a, b, 1);
    RunAppend<State, Step>(Stepper(1), Init(1), before, flush);
    ts := before + flush;
    FlattenTwo(a, b);
  }
}
