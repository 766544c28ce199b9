/** One connection's request stream: the buffered input, the parser and the commands it hands on. */
module RespSession {
  import opened Bytes
  import opened Resp
  import opened RespServer
  import opened Requests
  import RespClient

  /** How a stretch of input ends: all taken in, a malformed value, or a parser call that never returns. */
  datatype End = Waiting(m: Machine) | Broken | Hung

  datatype Served = Served(vs: seq<Value>, end: End)

  /** The values in input d, with the parser in state m at its start. */
  function Serve(m: Machine, d: Str): (s: Served)
    requires Valid(m)
    ensures s.end.Waiting? ==> Valid(s.end.m)
    decreases |d|
  {
    match Go(m, d)
    case Complete(v, n) => Then([v], Serve(FRESH, d[n..]))
    case Drained(m') => Served([], Waiting(m'))
    case Failed => Served([], Broken)
    case Hang => Served([], Hung)
  }

  function Then(vs: seq<Value>, s: Served): Served { Served(vs + s.vs, s.end) }

  lemma ThenAssoc(a: seq<Value>, b: seq<Value>, s: Served)
    ensures Then(a, Then(b, s)) == Then(a + b, s)
  {
    assert a + (b + s.vs) == a + b + s.vs;
  }

  lemma ThenNothing(s: Served)
    ensures Then([], s) == s
  {
    assert [] + s.vs == s.vs;
  }

  lemma ServeComplete(m: Machine, d: Str, v: Value, n: nat)
    requires Valid(m) && Go(m, d) == Complete(v, n)
    ensures Serve(m, d) == Then([v], Serve(FRESH, d[n..]))
  {
  }

  /** Waiting input can be continued: the pieces it arrives in do not matter. */
  lemma {:induction false} ServeAppend(m: Machine, a: Str, b: Str)
    requires Valid(m) && Serve(m, a).end.Waiting?
    ensures Serve(m, a + b) == Then(Serve(m, a).vs, Serve(Serve(m, a).end.m, b))
    decreases |a|
  {
    GoAppend(m, a, b);
    var r := Go(m, a);
    if r.Complete? {
      ServeComplete(m, a, r.v, r.n);
      ServeComplete(m, a + b, r.v, r.n);
      assert (a + b)[r.n..] == a[r.n..] + b;
      ServeAppend(FRESH, a[r.n..], b);
      var s := Serve(FRESH, a[r.n..]);
      ThenAssoc([r.v], s.vs, Serve(s.end.m, b));
    } else {
      ServeDrained(m, a, b, r.m);
      ThenNothing(Serve(r.m, b));
    }
  }

  /** What follows the first parser call on d. */
  function Answer(r: Result, d: Str): Served
    requires r.Complete? ==> r.n <= |d|
  {
    match r
    case Complete(v, n) => Then([v], Serve(FRESH, d[n..]))
    case Drained(m') => Served([], Waiting(m'))
    case Failed => Served([], Broken)
    case Hang => Served([], Hung)
  }

  lemma AnswerShift(r: Result, a: Str, b: Str)
    requires r.Complete? ==> r.n <= |b|
    ensures Answer(Shift(r, |a|), a + b) == Answer(r, b)
  {
    if r.Complete? { assert (a + b)[|a| + r.n..] == b[r.n..]; }
  }

  lemma ServeDrained(m: Machine, a: Str, b: Str, m': Machine)
    requires Valid(m) && Valid(m') && Go(m, a + b) == Shift(Go(m', b), |a|)
    ensures Serve(m, a + b) == Serve(m', b)
  {
    AnswerShift(Go(m', b), a, b);
  }

  // ----- Chunks -----

  /** Chunk after chunk, as long as the parser keeps waiting for more. */
  function Feed(m: Machine, chunks: seq<Str>): (s: Served)
    requires Valid(m)
    ensures s.end.Waiting? ==> Valid(s.end.m)
    decreases |chunks|
  {
    if chunks == [] then Served([], Waiting(m))
    else
      var s := Feed(m, chunks[..|chunks| - 1]);
      if s.end.Waiting? then Then(s.vs, Serve(s.end.m, chunks[|chunks| - 1])) else s
  }

  /**
    Feeding chunks gives what the whole input gives, exactly as long as the parser waits at every
    cut; the first cut where it does not is where the connection ends.
  */
  lemma {:induction false} FeedIsServe(m: Machine, chunks: seq<Str>)
    requires Valid(m)
    ensures (forall i :: 0 <= i < |chunks| ==> Serve(m, Concat(chunks[..i])).end.Waiting?)
            ==> Feed(m, chunks) == Serve(m, Concat(chunks))
    decreases |chunks|
  {
    if chunks == [] {
      assert Serve(m, []) == Served([], Waiting(m));
    } else if forall i :: 0 <= i < |chunks| ==> Serve(m, Concat(chunks[..i])).end.Waiting? {
      var n := |chunks| - 1;
      forall i | 0 <= i < n ensures Serve(m, Concat(chunks[..n][..i])).end.Waiting? {
        assert chunks[..n][..i] == chunks[..i];
      }
      FeedIsServe(m, chunks[..n]);
      assert chunks == chunks[..n] + [chunks[n]];
      ConcatSnoc(chunks[..n], chunks[n]);
      ServeAppend(m, Concat(chunks[..n]), chunks[n]);
    }
  }

  // ----- A pipeline of commands -----

  predicate AreRequests(cmds: seq<Value>) { forall i :: 0 <= i < |cmds| ==> IsRequest(cmds[i]) }

  lemma ServeRequest(v: Value, rest: Str)
    requires IsRequest(v)
    ensures Serve(FRESH, Print(v) + rest) == Then([v], Serve(FRESH, rest))
  {
    RequestReadsBack(v, rest);
    ServeComplete(FRESH, Print(v) + rest, v, |Print(v)|);
    SplitFront(Print(v), rest, 0);
  }

  /** Commands at the front of the input come out first, in order, and use up exactly their bytes. */
  lemma {:induction false} ServeRequests(cmds: seq<Value>, rest: Str)
    requires AreRequests(cmds)
    ensures Serve(FRESH, PrintAll(cmds) + rest) == Then(cmds, Serve(FRESH, rest))
  {
    if cmds == [] {
      Unit(rest);
      ThenNothing(Serve(FRESH, rest));
    } else {
      var p, tail := Print(cmds[0]), PrintAll(cmds[1..]);
      Assoc(p, tail, rest);
      ServeRequest(cmds[0], tail + rest);
      ServeRequests(cmds[1..], rest);
      ThenAssoc([cmds[0]], cmds[1..], Serve(FRESH, rest));
      assert [cmds[0]] + cmds[1..] == cmds;
    }
  }

  /** How many commands lie wholly within the first n bytes. */
  function WholeIn(cmds: seq<Value>, n: nat): (k: nat)
    ensures k <= |cmds|
  {
    if cmds == [] || n < |Print(cmds[0])| then 0 else 1 + WholeIn(cmds[1..], n - |Print(cmds[0])|)
  }

  predicate SafeCut(cmds: seq<Value>, n: nat)
    requires AreRequests(cmds)
  {
    if cmds == [] then true
    else if n < |Print(cmds[0])| then SafeInRequest(cmds[0], n)
    else SafeCut(cmds[1..], n - |Print(cmds[0])|)
  }

  ghost predicate CutServed(s: Served, cmds: seq<Value>, n: nat)
    requires AreRequests(cmds)
  {
    && s.vs == cmds[..WholeIn(cmds, n)]
    && if SafeCut(cmds, n) then s.end.Waiting? else s.end.Hung?
  }

  lemma CutServedStep(s: Served, cmds: seq<Value>, n: nat)
    requires AreRequests(cmds) && cmds != [] && n >= |Print(cmds[0])|
    requires CutServed(s, cmds[1..], n - |Print(cmds[0])|)
    ensures CutServed(Then([cmds[0]], s), cmds, n)
  {
    var k := WholeIn(cmds[1..], n - |Print(cmds[0])|);
    assert [cmds[0]] + cmds[1..][..k] == cmds[..k + 1];
  }

  lemma ServeFirstCut(v: Value, n: nat)
    requires IsRequest(v) && n < |Print(v)|
    ensures var s := Serve(FRESH, Print(v)[..n]);
            s.vs == [] && if SafeInRequest(v, n) then s.end.Waiting? else s.end.Hung?
  {
    RequestCut(v, n);
  }

  /** A pipeline cut after any number of bytes: the whole commands come out, then the parser waits or hangs. */
  lemma {:induction false} ServeCut(cmds: seq<Value>, n: nat)
    requires AreRequests(cmds) && n <= |PrintAll(cmds)|
    ensures CutServed(Serve(FRESH, PrintAll(cmds)[..n]), cmds, n)
  {
    if cmds == [] {
      assert PrintAll(cmds)[..n] == [];
      assert Serve(FRESH, []) == Served([], Waiting(FRESH));
    } else {
      var p, tail := Print(cmds[0]), PrintAll(cmds[1..]);
      SplitFront(p, tail, n);
      if n < |p| {
        ServeFirstCut(cmds[0], n);
        assert cmds[..0] == [];
      } else {
        var rest := tail[..n - |p|];
        ServeRequest(cmds[0], rest);
        ServeCut(cmds[1..], n - |p|);
        CutServedStep(Serve(FRESH, rest), cmds, n);
      }
    }
  }

  /** Every chunk boundary, the last one included, is a safe cut. */
  ghost predicate AllSafe(cmds: seq<Value>, chunks: seq<Str>)
    requires AreRequests(cmds)
    decreases |chunks|
  {
    SafeCut(cmds, |Concat(chunks)|) && (chunks != [] ==> AllSafe(cmds, chunks[..|chunks| - 1]))
  }

  /**
    Chunks of a pipeline: with only safe cuts, exactly the commands that have arrived whole are handed
    on, in order, and the parser waits; with an unsafe cut it never comes back.
  */
  lemma {:induction false} FeedPipeline(cmds: seq<Value>, chunks: seq<Str>)
    requires AreRequests(cmds) && Concat(chunks) <= PrintAll(cmds)
    ensures AllSafe(cmds, chunks) ==> Feed(FRESH, chunks) == Serve(FRESH, Concat(chunks))
                                      && CutServed(Feed(FRESH, chunks), cmds, |Concat(chunks)|)
    ensures !AllSafe(cmds, chunks) ==> Feed(FRESH, chunks).end.Hung?
    decreases |chunks|
  {
    var d := Concat(chunks);
    assert d == PrintAll(cmds)[..|d|];
    ServeCut(cmds, |d|);
    if chunks == [] {
      assert chunks[..0] == [] && SafeCut(cmds, 0);
      assert Serve(FRESH, []) == Served([], Waiting(FRESH));
    } else {
      var n := |chunks| - 1;
      assert chunks == chunks[..n] + [chunks[n]];
      ConcatSnoc(chunks[..n], chunks[n]);
      FeedPipeline(cmds, chunks[..n]);
      if AllSafe(cmds, chunks[..n]) {
        ServeAppend(FRESH, Concat(chunks[..n]), chunks[n]);
      }
    }
  }

  lemma {:induction false} WholePipeline(cmds: seq<Value>)
    requires AreRequests(cmds)
    ensures WholeIn(cmds, |PrintAll(cmds)|) == |cmds| && SafeCut(cmds, |PrintAll(cmds)|)
  {
    if cmds != [] { WholePipeline(cmds[1..]); }
  }

  /**
    The whole pipeline, its last bytes x arriving together with any bytes y: all commands are handed
    on in order, and y is read as if it were the start of the input.
  */
  lemma PipelineThenMore(cmds: seq<Value>, chunks: seq<Str>, x: Str, y: Str)
    requires AreRequests(cmds) && Concat(chunks) + x == PrintAll(cmds) && AllSafe(cmds, chunks)
    ensures Feed(FRESH, chunks + [x + y]) == Then(cmds, Serve(FRESH, y))
  {
    FeedPipeline(cmds, chunks);
    var all := chunks + [x + y];
    assert all[..|all| - 1] == chunks && all[|all| - 1] == x + y;
    Assoc(Concat(chunks), x, y);
    ServeAppend(FRESH, Concat(chunks), x + y);
    ServeRequests(cmds, y);
  }

  function Values(commands: seq<seq<Str>>): seq<Value> {
    seq(|commands|, i requires 0 <= i < |commands| => Command(commands[i]))
  }

  lemma {:induction false} RequestsArePrinted(commands: seq<seq<Str>>)
    ensures RespClient.Requests(commands) == PrintAll(Values(commands))
  {
    if commands != [] {
      var n := |commands| - 1;
      RequestsArePrinted(commands[..n]);
      assert Values(commands) == Values(commands[..n]) + [Command(commands[n])];
      PrintAllSnoc(Values(commands[..n]), Command(commands[n]));
    }
  }

  /** Both ends together: what a client's pipeline sends, whatever follows it, is served command by command. */
  lemma ClientPipelineIsServed(commands: seq<seq<Str>>, rest: Str)
    requires AreRequests(Values(commands))
    ensures Serve(FRESH, RespClient.Requests(commands) + rest) == Then(Values(commands), Serve(FRESH, rest))
  {
    RequestsArePrinted(commands);
    ServeRequests(Values(commands), rest);
  }

  // ----- The connection's input state -----

  datatype Status = Fine | Overflow | BadFormat | NeverReturns

  const COMPACT_MIN: nat := 4096

  class Session {
    const parser: Parser
    var pendingInput: Str
    var pendingOffset: nat
    /** The commands handed on so far. */
    var dispatched: seq<Value>
    var closed: bool

    constructor ()
      ensures Valid() && fresh(parser) && parser.State() == FRESH
      ensures Unread() == [] && dispatched == [] && !closed
    {
      parser := new Parser();
      pendingInput, pendingOffset, dispatched, closed := [], 0, [], false;
    }

    ghost predicate Valid()
      reads this, parser
    {
      RespServer.Valid(parser.State()) && pendingOffset <= |pendingInput|
    }

    ghost function Unread(): Str
      reads this
    {
      if pendingOffset <= |pendingInput| then pendingInput[pendingOffset..] else []
    }

    /** Drops consumed input, now and then; what is unread stays. */
    method Compact()
      requires Valid()
      modifies this
      ensures Valid() && Unread() == old(Unread()) && dispatched == old(dispatched) && closed == old(closed)
      ensures old(Unread()) == [] ==> pendingInput == []
    {
      if pendingOffset >= |pendingInput| {
        pendingInput, pendingOffset := [], 0;
      } else if pendingOffset >= COMPACT_MIN && pendingOffset * 2 >= |pendingInput| {
        pendingInput, pendingOffset := pendingInput[pendingOffset..], 0;
      }
    }

    /** One call of the parser on the unread input; a finished value is handed on. */
    method ParseNext() returns (result: Result)
      requires Valid() && Unread() != []
      modifies this, parser
      ensures closed == old(closed) && result == Go(old(parser.State()), old(Unread()))
      ensures result.Failed? || result.Hang? ==> dispatched == old(dispatched)
      ensures result.Drained? ==>
                Valid() && Unread() == [] && parser.State() == result.m && dispatched == old(dispatched)
      ensures result.Complete? ==> Valid() && Unread() == old(Unread())[result.n..] && parser.State() == FRESH
                                   && dispatched == old(dispatched) + [result.v]
    {
      var before := parser.processed;
      result := parser.Parse(pendingInput[pendingOffset..]);
      if result.Failed? || result.Hang? { return; }
      pendingOffset := pendingOffset + (parser.processed - before);
      if result.Complete? {
        dispatched := dispatched + [result.v];
        parser.Reset();
      }
    }

    /** Hands on every complete value in the pending input. */
    method Drain() returns (end: End)
      requires Valid()
      modifies this, parser
      ensures closed == old(closed) && end == Serve(old(parser.State()), old(Unread())).end
      ensures dispatched == old(dispatched) + Serve(old(parser.State()), old(Unread())).vs
      ensures end.Waiting? ==> Valid() && Unread() == [] && parser.State() == end.m
    {
      ghost var s := Serve(parser.State(), Unread());
      ghost var vs: seq<Value> := [];
      ThenNothing(s);
      while pendingOffset < |pendingInput|
        invariant Valid() && closed == old(closed)
        invariant s == Then(vs, Serve(parser.State(), Unread())) && dispatched == old(dispatched) + vs
        decreases |Unread()|
      {
        ghost var m, unread := parser.State(), Unread();
        var result := ParseNext();
        if !result.Complete? {
          assert vs + [] == vs;
          return if result.Drained? then Waiting(result.m) else if result.Failed? then Broken else Hung;
        }
        ServeComplete(m, unread, result.v, result.n);
        ThenAssoc(vs, [result.v], Serve(FRESH, Unread()));
        assert old(dispatched) + vs + [result.v] == old(dispatched) + (vs + [result.v]);
        vs := vs + [result.v];
      }
      assert vs + [] == vs;
      end := Waiting(Machine(parser.mode, parser.stack));
    }

    /** One read event: afterwards everything that could be handed on has been, and nothing is left over. */
    method OnMessage(chunk: Str, maxPending: nat) returns (status: Status)
      requires Valid()
      modifies this, parser
      ensures var input := old(Unread()) + chunk; var s := Serve(old(parser.State()), input);
              if |input| > maxPending then status == Overflow && closed && dispatched == old(dispatched)
              else
                && dispatched == old(dispatched) + s.vs && closed == old(closed)
                && (status == Fine <==> s.end.Waiting?) && (status == BadFormat <==> s.end.Broken?)
                && (status == NeverReturns <==> s.end.Hung?)
                && (s.end.Waiting? ==> Valid() && Unread() == [] && pendingInput == [] && parser.State() == s.end.m)
    {
      pendingInput := pendingInput + chunk;
      assert Unread() == old(Unread()) + chunk;
      if |pendingInput| - pendingOffset > maxPending {
        closed := true;
        return Overflow;
      }
      var end := Drain();
      if end.Broken? { return BadFormat; }
      if end.Hung? { return NeverReturns; }
      Compact();
      status := Fine;
    }

    /** The first i chunks have been received and left the parser waiting; base was handed on before them. */
    ghost predicate Received(base: seq<Value>, start: Machine, chunks: seq<Str>, i: nat)
      requires RespServer.Valid(start) && i <= |chunks|
      reads this, parser
    {
      && Valid() && Unread() == []
      && Feed(start, chunks[..i]).end == Waiting(parser.State())
      && dispatched == base + Feed(start, chunks[..i]).vs
    }

    method ReceiveNext(ghost base: seq<Value>, ghost start: Machine, chunks: seq<Str>, i: nat, maxPending: nat)
      returns (status: Status)
      requires RespServer.Valid(start) && i < |chunks| && |chunks[i]| <= maxPending && Received(base, start, chunks, i)
      modifies this, parser
      ensures var s := Feed(start, chunks[..i + 1]);
              && dispatched == base + s.vs
              && (status == Fine <==> s.end.Waiting?) && (status == BadFormat <==> s.end.Broken?)
              && (status == NeverReturns <==> s.end.Hung?)
      ensures status == Fine ==> Received(base, start, chunks, i + 1)
      ensures closed == old(closed)
    {
      FeedNext(start, chunks, i);
      ghost var before := Feed(start, chunks[..i]);
      Unit(chunks[i]);
      AssocVs(base, before.vs, Serve(before.end.m, chunks[i]).vs);
      status := OnMessage(chunks[i], maxPending);
    }

    /**
      Read event after read event, until one does not end well. n is the number of chunks before the
      first one that is larger than the pending input may be.
    */
    method ReceiveAll(chunks: seq<Str>, maxPending: nat) returns (status: Status, ghost n: nat)
      requires Valid() && Unread() == [] && !closed
      modifies this, parser
      ensures FitsUpTo(chunks, maxPending, n)
      ensures var s := Feed(old(parser.State()), chunks[..n]);
              && dispatched == old(dispatched) + s.vs
              && (status == BadFormat <==> s.end.Broken?) && (status == NeverReturns <==> s.end.Hung?)
              && (status == Fine <==> s.end.Waiting? && n == |chunks|)
              && (status == Overflow <==> s.end.Waiting? && n < |chunks|) && closed == (status == Overflow)
              && (status == Fine ==> Valid() && Unread() == [] && parser.State() == s.end.m)
    {
      ghost var start, base := parser.State(), dispatched;
      n := CountFitting(chunks, maxPending);
      status := Fine;
      assert base + [] == base && chunks[..0] == [];
      for i := 0 to |chunks|
        invariant i <= n && status == Fine && !closed && Received(base, start, chunks, i)
      {
        if |chunks[i]| > maxPending {
          Unit(chunks[i]);
          status := OnMessage(chunks[i], maxPending);
          return;
        }
        status := ReceiveNext(base, start, chunks, i, maxPending);
        if status != Fine {
          assert chunks[..n][..i + 1] == chunks[..i + 1];
          FeedStops(start, chunks[..n], i + 1);
          return;
        }
      }
      assert chunks[..|chunks|] == chunks;
    }
  }

  /** Exactly the first n chunks are within the limit, up to the first that is not. */
  ghost predicate FitsUpTo(chunks: seq<Str>, limit: nat, n: nat) {
    n <= |chunks| && (forall i :: 0 <= i < n ==> |chunks[i]| <= limit) && (n < |chunks| ==> |chunks[n]| > limit)
  }

  lemma {:induction false} CountFitting(chunks: seq<Str>, limit: nat) returns (n: nat)
    ensures FitsUpTo(chunks, limit, n)
  {
    n := 0;
    if chunks != [] && |chunks[0]| <= limit {
      n := CountFitting(chunks[1..], limit);
      n := n + 1;
      assert forall i :: 0 < i < |chunks| ==> chunks[i] == chunks[1..][i - 1];
    }
  }

  lemma AssocVs(a: seq<Value>, b: seq<Value>, c: seq<Value>)
    ensures a + b + c == a + (b + c)
  {
  }

  lemma FeedNext(m: Machine, chunks: seq<Str>, i: nat)
    requires RespServer.Valid(m) && i < |chunks| && Feed(m, chunks[..i]).end.Waiting?
    ensures Feed(m, chunks[..i + 1]) == Then(Feed(m, chunks[..i]).vs, Serve(Feed(m, chunks[..i]).end.m, chunks[i]))
  {
    assert chunks[..i + 1][..i] == chunks[..i];
  }

  lemma {:induction false} FeedStops(m: Machine, chunks: seq<Str>, i: nat)
    requires RespServer.Valid(m) && i <= |chunks| && !Feed(m, chunks[..i]).end.Waiting?
    ensures Feed(m, chunks) == Feed(m, chunks[..i])
    decreases |chunks|
  {
    if i == |chunks| {
      assert chunks[..i] == chunks;
    } else {
      assert chunks[..|chunks| - 1][..i] == chunks[..i];
      FeedStops(m, chunks[..|chunks| - 1], i);
    }
  }
}
