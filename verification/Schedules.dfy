/** Runs of a state machine: a schedule is a sequence of steps taken from a state. */
module Schedules {
  function Run<S, T>(next: (S, T) -> S, s: S, ts: seq<T>): S {
    if ts == [] then s else next(Run(next, s, ts[..|ts| - 1]), ts[|ts| - 1])
  }

  lemma {:induction false} RunAppend<S, T>(next: (S, T) -> S, s: S, ts: seq<T>, us: seq<T>)
    ensures Run(next, s, ts + us) == Run(next, Run(next, s, ts), us)
  {
    if us == [] {
      assert ts + us == ts;
    } else {
      var n := |us| - 1;
      RunAppend(next, s, ts, us[..n]);
      assert (ts + us)[..|ts + us| - 1] == ts + us[..n];
    }
  }

  lemma RunOne<S, T>(next: (S, T) -> S, s: S, t: T)
    ensures Run(next, s, [t]) == next(s, t)
  {
    assert [t][..0] == [];
  }

  lemma RunSnoc<S, T>(next: (S, T) -> S, s: S, ts: seq<T>, t: T)
    ensures Run(next, s, ts + [t]) == next(Run(next, s, ts), t)
  {
    RunAppend(next, s, ts, [t]);
    RunOne(next, Run(next, s, ts), t);
  }

  lemma RunTwo<S, T>(next: (S, T) -> S, s: S, t: T, u: T)
    ensures Run(next, s, [t, u]) == next(next(s, t), u)
  {
    RunSnoc(next, s, [t], u);
    RunOne(next, s, t);
    assert [t] + [u] == [t, u];
  }

  lemma RunThree<S, T>(next: (S, T) -> S, s: S, t: T, u: T, v: T)
    ensures Run(next, s, [t, u, v]) == next(next(next(s, t), u), v)
  {
    RunSnoc(next, s, [t, u], v);
    RunTwo(next, s, t, u);
    assert [t, u] + [v] == [t, u, v];
  }

  ghost predicate Keeps<S(!new), T(!new)>(next: (S, T) -> S, inv: S -> bool) {
    forall s, t :: inv(s) ==> inv(next(s, t))
  }

  /** What every step keeps holds after every schedule. */
  lemma {:induction false} RunKeeps<S(!new), T(!new)>(next: (S, T) -> S, inv: S -> bool, s: S, ts: seq<T>)
    requires Keeps(next, inv) && inv(s)
    ensures inv(Run(next, s, ts))
  {
    if ts != [] { RunKeeps(next, inv, s, ts[..|ts| - 1]); }
  }
}
