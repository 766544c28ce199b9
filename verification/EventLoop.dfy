/**
  Handing tasks to a running event loop: threads push onto a locked list and then write the wake-up
  descriptor, while the loop polls, reads the descriptor, takes the list and runs it.
*/
module EventLoop {
  import opened Schedules

  /** Where the loop thread is; last marks the round after the loop has been left. */
  datatype Place = Top | Polling | Handling(sawWake: bool) | Calling(last: bool) | Running(last: bool) | Stopped

  datatype State<T> = State(
    place: Place,
    pending: seq<T>,
    batch: seq<T>,
    executed: seq<T>,
    enqueued: seq<T>,
    eventfd: nat,
    owed: nat,  // threads that have pushed, or set quit, and have not yet written the descriptor
    quit: bool)

  datatype Step<T> =
    | Push(task: T)             // another thread adds a task
    | Wake                      // and then writes the descriptor
    | LoopPush(task: T)         // a handler or a task running in the loop adds a task
    | QuitOutside               // another thread sets quit, and will write the descriptor
    | QuitInside
    | Check                     // the loop looks at quit and at the task list
    | PollReturns(saw: bool)    // poll comes back, by event or by timeout
    | ReadWake                  // the descriptor is read and so reset
    | BeginCalling              // all events handled
    | Swap                      // the task list is taken
    | RunTask
    | EndCalling

  predicate Enabled<T>(s: State<T>, t: Step<T>) {
    match t
    case Push(_) => true
    case Wake => s.owed > 0
    case LoopPush(_) => s.place.Handling? || s.place.Running?
    case QuitOutside => true
    case QuitInside => s.place.Handling? || s.place.Running?
    case Check => s.place.Top?
    case PollReturns(saw) => s.place.Polling? && (saw ==> s.eventfd > 0)
    case ReadWake => s.place.Handling? && s.place.sawWake
    case BeginCalling => s.place.Handling? && !s.place.sawWake
    case Swap => s.place.Calling?
    case RunTask => s.place.Running? && |s.batch| > 0
    case EndCalling => s.place.Running? && |s.batch| == 0
  }

  function Do<T>(s: State<T>, t: Step<T>): State<T>
    requires Enabled(s, t)
  {
    match t
    case Push(x) => s.(pending := s.pending + [x], enqueued := s.enqueued + [x], owed := s.owed + 1)
    case Wake => s.(owed := s.owed - 1, eventfd := s.eventfd + 1)
    case LoopPush(x) =>
      s.(pending := s.pending + [x], enqueued := s.enqueued + [x],
         eventfd := if s.place.Running? then s.eventfd + 1 else s.eventfd)
    case QuitOutside => s.(quit := true, owed := s.owed + 1)
    case QuitInside => s.(quit := true)
    case Check => s.(place := if !s.quit || |s.pending| > 0 then Polling else Calling(true))
    case PollReturns(saw) => s.(place := Handling(saw))
    case ReadWake => s.(place := Handling(false), eventfd := 0)
    case BeginCalling => s.(place := Calling(false))
    case Swap => s.(place := Running(s.place.last), batch := s.pending, pending := [])
    case RunTask => s.(executed := s.executed + [s.batch[0]], batch := s.batch[1..])
    case EndCalling => s.(place := if s.place.last then Stopped else Top)
  }

  function Next<T>(s: State<T>, t: Step<T>): State<T> { if Enabled(s, t) then Do(s, t) else s }

  function Init<T>(): State<T> { State(Top, [], [], [], [], 0, 0, false) }

  function After<T>(ts: seq<Step<T>>): State<T> { Run<State<T>, Step<T>>(Next, Init(), ts) }

  /** Every task runs once, in the order of enqueueing. */
  ghost predicate InOrder<T>(s: State<T>) {
    && s.executed + s.batch + s.pending == s.enqueued
    && (!s.place.Running? ==> s.batch == [])
  }

  /** From taking the list to the next poll, a task added meanwhile has a wake-up written or owed for it. */
  ghost predicate Awake<T>(s: State<T>) {
    s.place.Handling? || s.place.Calling? || |s.pending| == 0 || s.eventfd > 0 || s.owed > 0
  }

  ghost predicate Inv<T>(s: State<T>) { InOrder(s) && Awake(s) }

  lemma SeqAssoc<T>(a: seq<T>, b: seq<T>, c: seq<T>, d: seq<T>)
    ensures a + b + (c + d) == a + b + c + d
  {
  }

  lemma TakeFirst<T>(a: seq<T>, b: seq<T>, c: seq<T>)
    requires |b| > 0
    ensures a + [b[0]] + b[1..] + c == a + b + c
  {
    assert [b[0]] + b[1..] == b;
    assert a + [b[0]] + b[1..] == a + b;
  }

  lemma StepKeeps<T>(s: State<T>, t: Step<T>)
    requires Inv(s)
    ensures Inv(Next(s, t))
  {
    if Enabled(s, t) {
      if t.Push? || t.LoopPush? {
        SeqAssoc(s.executed, s.batch, s.pending, [t.task]);
      } else if t.Swap? {
        assert s.executed + [] + s.pending == s.executed + s.pending + [];
      } else if t.RunTask? {
        TakeFirst(s.executed, s.batch, s.pending);
      }
    }
  }

  /** Over every interleaving: no task is lost, repeated or overtaken, and no wake-up is lost. */
  lemma RunInv<T(!new)>(ts: seq<Step<T>>)
    ensures Inv(After(ts))
  {
    forall s: State<T>, t: Step<T> | Inv(s) ensures Inv(Next(s, t)) { StepKeeps(s, t); }
    RunKeeps<State<T>, Step<T>>(Next, s => Inv(s), Init(), ts);
  }

  /** When the loop waits with tasks pending, the descriptor is readable or a thread is about to make it so. */
  lemma NoLostWakeup<T(!new)>(ts: seq<Step<T>>)
    ensures var s := After(ts); s.place.Polling? && |s.pending| > 0 ==> s.eventfd > 0 || s.owed > 0
    ensures var s := After(ts); s.executed <= s.enqueued
  {
    RunInv(ts);
  }

  // ----- The loop's own next steps -----

  /** Running what is left of the batch. */
  lemma {:induction false} RunBatch<T>(s: State<T>) returns (ts: seq<Step<T>>)
    requires s.place.Running?
    ensures Run<State<T>, Step<T>>(Next, s, ts) == s.(executed := s.executed + s.batch, batch := [])
    decreases |s.batch|
  {
    if |s.batch| == 0 {
      ts := [];
      assert s.executed + s.batch == s.executed;
    } else {
      var s1 := Next<T>(s, RunTask);
      var rest := RunBatch(s1);
      RunOne<State<T>, Step<T>>(Next, s, RunTask);
      RunAppend<State<T>, Step<T>>(Next, s, [RunTask], rest);
      ts := [RunTask] + rest;
      TakeFirst(s.executed, s.batch, []);
      assert s1.executed + s1.batch == s.executed + s.batch;
    }
  }

  /** From a readable descriptor: poll returns, the descriptor is read, the list is taken. */
  lemma WakeTakesAll<T>(s: State<T>) returns (ts: seq<Step<T>>)
    requires Inv(s) && s.place.Polling? && s.eventfd > 0
    ensures Run<State<T>, Step<T>>(Next, s, ts)
            == s.(place := Running(false), eventfd := 0, batch := s.pending, pending := [])
  {
    var first, second := [PollReturns(true), ReadWake], [BeginCalling, Swap];
    RunTwo<State<T>, Step<T>>(Next, s, PollReturns(true), ReadWake);
    var s1 := Run<State<T>, Step<T>>(Next, s, first);
    RunTwo<State<T>, Step<T>>(Next, s1, BeginCalling, Swap);
    RunAppend<State<T>, Step<T>>(Next, s, first, second);
    ts := first + second;
  }

  lemma PollingOrder<T>(s: State<T>)
    requires Inv(s) && s.place.Polling?
    ensures s.executed + s.pending == s.enqueued
  {
    assert s.executed + [] == s.executed;
  }

  lemma WakeRunsAll<T>(s: State<T>) returns (ts: seq<Step<T>>)
    requires Inv(s) && s.place.Polling? && s.eventfd > 0
    ensures var s' := Run<State<T>, Step<T>>(Next, s, ts); s'.executed == s'.enqueued == s.enqueued
  {
    var take := WakeTakesAll(s);
    var s1 := Run<State<T>, Step<T>>(Next, s, take);
    var tasks := RunBatch(s1);
    ts := take + tasks;
    PollingOrder(s);
    RunAppend<State<T>, Step<T>>(Next, s, take, tasks);
  }

  /**
    In every reachable state where the loop waits with tasks pending and no thread still owes a
    wake-up, poll can return and the loop then runs every task enqueued so far.
  */
  lemma PendingTasksRun<T(!new)>(ts: seq<Step<T>>) returns (us: seq<Step<T>>)
    requires After(ts).place.Polling? && |After(ts).pending| > 0 && After(ts).owed == 0
    ensures var s := After(ts + us); s.executed == s.enqueued == After(ts).enqueued
  {
    RunInv(ts);
    us := WakeRunsAll(After(ts));
    RunAppend<State<T>, Step<T>>(Next, Init(), ts, us);
  }

  /** A loop that has stopped has run everything it took, and whatever was pushed too late is still listed. */
  lemma StoppedAccountsForAll<T(!new)>(ts: seq<Step<T>>)
    requires After(ts).place.Stopped?
    ensures After(ts).executed + After(ts).pending == After(ts).enqueued
  {
    RunInv(ts);
    var s := After(ts);
    assert s.executed + [] == s.executed;
  }
}
