/** What the request parser makes of printed values: whole ones, nested ones, and ones cut short. */
module Requests {
  import opened Bytes
  import opened Resp
  import opened RespServer

  /** An integer the parser can tell from its error mark. */
  predicate Readable(x: int) { -I63 < x < I63 - 1 }

  /** A value without non-empty arrays inside. */
  predicate Leaf(v: Value) {
    match v
    case Simple(s) => Plain(s)
    case Error(s) => Plain(s)
    case Int(n) => Readable(n)
    case Bulk(s) => Readable(|s|)
    case Arr(vs) => vs == []
    case _ => true
  }

  predicate AllLeaves(vs: seq<Value>) { forall i :: 0 <= i < |vs| ==> Leaf(vs[i]) }

  lemma LineEnds(line: Str, rest: Str)
    requires Plain(line)
    ensures CRLFAt(line + CRLF + rest, 0) == Some(|line|)
    ensures (line + CRLF + rest)[..|line|] == line
    ensures (line + CRLF + rest)[|line| + 2..] == rest
  {
    var d := line + CRLF + rest;
    forall j | 0 <= j < |line| ensures !IsCRLF(d, j) {
      assert !IsCRLF(line, j);
      if j + 1 < |line| { assert d[j] == line[j] && d[j + 1] == line[j + 1]; }
    }
    CRLFAtIs(d, 0, |line|);
  }

  /** The parser in state m takes the first n bytes of d in as turn t says, and goes on with rest. */
  ghost predicate Gives(m: Machine, d: Str, t: Turn, n: nat, rest: Str)
    requires Valid(m)
  {
    && (t.Moved? ==> Valid(t.m) && Go(m, d) == Shift(Go(t.m, rest), n))
    && (t.Done? ==> Go(m, d) == Complete(t.v, n))
    && (t.Bad? ==> Go(m, d).Failed?)
  }

  /** One turn in front of others. */
  lemma GivesAfter(m: Machine, d: Str, m1: Machine, k: nat, d1: Str, t: Turn, n: nat, rest: Str)
    requires Valid(m) && Valid(m1) && Go(m, d) == Shift(Go(m1, d1), k) && Gives(m1, d1, t, n, rest)
    ensures Gives(m, d, t, k + n, rest)
  {
    if t.Moved? { ShiftTwice(Go(t.m, rest), n, k); }
  }

  lemma GivesTurn(m: Machine, d: Str, t: Turn, rest: Str)
    requires Valid(m) && d != [] && Step(m, d) == t && (t.Moved? ==> d[t.n..] == rest)
    ensures Gives(m, d, t, if t.Moved? || t.Done? then t.n else 0, rest)
  {
    GoContinues(m, d);
  }

  /** A first line is read in two turns: its type byte, then the rest. */
  lemma GoLine(stack: seq<Frame>, kind: byte, line: Str, rest: Str)
    requires KnownKind(kind) && Plain(line)
    ensures Gives(Machine(Start, stack), HeadLine(kind, line) + rest, TakeLine(stack, kind, line), |line| + 3, rest)
  {
    var d, d1 := HeadLine(kind, line) + rest, line + CRLF + rest;
    var m, m1 := Machine(Start, stack), Machine(Line(kind), stack);
    assert d[0] == kind && d[1..] == d1;
    GoMoved(m, d, m1, 1);
    LineEnds(line, rest);
    TakeLineSize(stack, kind, line);
    var t := TakeLine(stack, kind, line);
    GivesTurn(m1, d1, t, rest);
    GivesAfter(m, d, m1, 1, d1, t, |line| + 2, rest);
  }

  /** A complete body is read in one turn. */
  lemma GoBody(stack: seq<Frame>, s: Str, rest: Str)
    ensures Gives(Machine(Body(|s|, []), stack), s + CRLF + rest, Finish(stack, Bulk(s), |s| + 2), |s| + 2, rest)
  {
    var d := s + CRLF + rest;
    assert d[..|s|] == s && d[|s|..|s| + 2] == CRLF && d[|s| + 2..] == rest;
    Unit(s);
    FinishSize(stack, Bulk(s), |s| + 2);
    GivesTurn(Machine(Body(|s|, []), stack), d, Finish(stack, Bulk(s), |s| + 2), rest);
  }

  /** A printed integer line. */
  lemma GoNumber(stack: seq<Frame>, kind: byte, x: i64, rest: Str)
    requires KnownKind(kind) && kind != PLUS && kind != MINUS && Readable(x)
    ensures var k := |Decimal(x)| + 3;
            Gives(Machine(Start, stack), HeadLine(kind, Decimal(x)) + rest, TakeNumber(stack, kind, x, k - 1), k, rest)
  {
    DecimalIsPlain(x);
    ServerIntRoundTripIff(x);
    GoLine(stack, kind, Decimal(x), rest);
  }

  /** The bulk string's header leads into its body. */
  lemma GoBulkHeader(stack: seq<Frame>, n: nat, rest: Str)
    requires Readable(n)
    ensures Go(Machine(Start, stack), HeadLine(DOLLAR, Decimal(n)) + rest)
            == Shift(Go(Machine(Body(n, []), stack), rest), |Decimal(n)| + 3)
  {
    GoNumber(stack, DOLLAR, n, rest);
  }

  /** The size of a turn does not matter where another one is given. */
  lemma GivesResized(m: Machine, d: Str, stack: seq<Frame>, v: Value, k: nat, n: nat, rest: Str)
    requires Valid(m) && Gives(m, d, Finish(stack, v, k), n, rest)
    ensures Gives(m, d, Finish(stack, v, n), n, rest)
  {
  }

  lemma GoBulk(stack: seq<Frame>, s: Str, rest: Str)
    requires Readable(|s|)
    ensures var p := Print(Bulk(s)); Gives(Machine(Start, stack), p + rest, Finish(stack, Bulk(s), |p|), |p|, rest)
  {
    var h, b := HeadLine(DOLLAR, Decimal(|s|)), s + CRLF;
    var m := Machine(Start, stack);
    Assoc(h, b, rest);
    GoBulkHeader(stack, |s|, b + rest);
    GoBody(stack, s, rest);
    GivesAfter(m, h + (b + rest), Machine(Body(|s|, []), stack), |h|, b + rest, Finish(stack, Bulk(s), |b|), |b|, rest);
    GivesResized(m, h + b + rest, stack, Bulk(s), |b|, |h + b|, rest);
  }

  /** A leaf is read whole and finished. */
  lemma GoLeaf(stack: seq<Frame>, v: Value, rest: Str)
    requires Leaf(v)
    ensures Gives(Machine(Start, stack), Print(v) + rest, Finish(stack, v, |Print(v)|), |Print(v)|, rest)
  {
    var m, n := Machine(Start, stack), |Print(v)|;
    match v {
      case Simple(s) => GoLine(stack, PLUS, s, rest); GivesResized(m, Print(v) + rest, stack, v, n - 1, n, rest);
      case Error(s) => GoLine(stack, MINUS, s, rest); GivesResized(m, Print(v) + rest, stack, v, n - 1, n, rest);
      case Int(x) => GoNumber(stack, COLON, x, rest); GivesResized(m, Print(v) + rest, stack, v, n - 1, n, rest);
      case Bulk(s) => GoBulk(stack, s, rest);
      case NullBulk => GoNumber(stack, DOLLAR, -1, rest); GivesResized(m, Print(v) + rest, stack, v, n - 1, n, rest);
      case NullArr => GoNumber(stack, STAR, -1, rest); GivesResized(m, Print(v) + rest, stack, v, n - 1, n, rest);
      case Arr(vs) =>
        GoNumber(stack, STAR, 0, rest);
        Unit(HeadLine(STAR, Decimal(0)));
        GivesResized(m, Print(v) + rest, stack, v, n - 1, n, rest);
    }
  }

  // ----- Arrays -----

  lemma {:induction false} PrintAllAppend(a: seq<Value>, b: seq<Value>)
    ensures PrintAll(a + b) == PrintAll(a) + PrintAll(b)
  {
    if a == [] {
      assert a + b == b;
      Unit(PrintAll(b));
    } else {
      PrintAllAppend(a[1..], b);
      assert (a + b)[1..] == a[1..] + b;
      Assoc(Print(a[0]), PrintAll(a[1..]), PrintAll(b));
    }
  }

  function Push(under: seq<Frame>, size: nat, elems: seq<Value>): seq<Frame> { under + [Frame(size, elems)] }

  lemma FinishPushed(under: seq<Frame>, size: nat, elems: seq<Value>, v: Value, n: nat)
    ensures Finish(Push(under, size, elems), v, n) ==
            if |elems| + 1 >= size then Done(Arr(elems + [v]), n)
            else Moved(Machine(Start, Push(under, size, elems + [v])), n)
  {
    var stack := Push(under, size, elems);
    assert stack[..|stack| - 1] == under;
  }

  ghost predicate LeadsBefore(m: Machine, p: Str, m': Machine, rest: Str)
    requires Valid(m) && Valid(m')
  {
    Go(m, p + rest) == Shift(Go(m', rest), |p|)
  }

  /** Input p takes the parser from m to m', whatever follows. */
  ghost predicate Leads(m: Machine, p: Str, m': Machine) {
    Valid(m) && Valid(m') && forall rest :: LeadsBefore(m, p, m', rest)
  }

  lemma LeadsNowhere(m: Machine)
    requires Valid(m)
    ensures Leads(m, [], m)
  {
    forall rest ensures LeadsBefore(m, [], m, rest) { Unit(rest); }
  }

  lemma LeadsOn(m: Machine, a: Str, m1: Machine, b: Str, m2: Machine)
    requires Leads(m, a, m1) && Leads(m1, b, m2)
    ensures Leads(m, a + b, m2)
  {
    forall rest ensures LeadsBefore(m, a + b, m2, rest) {
      assert LeadsBefore(m, a, m1, b + rest) && LeadsBefore(m1, b, m2, rest);
      Assoc(a, b, rest);
      ShiftTwice(Go(m2, rest), |b|, |a|);
    }
  }

  function Collecting(under: seq<Frame>, size: nat, elems: seq<Value>): (m: Machine)
    ensures Valid(m)
  {
    Machine(Start, Push(under, size, elems))
  }

  /** The next element of an array that waits for more than this one. */
  lemma ElementLeads(under: seq<Frame>, size: nat, elems: seq<Value>, v: Value)
    requires Leaf(v) && |elems| + 1 < size
    ensures Leads(Collecting(under, size, elems), Print(v), Collecting(under, size, elems + [v]))
  {
    FinishPushed(under, size, elems, v, |Print(v)|);
    var m, m' := Collecting(under, size, elems), Collecting(under, size, elems + [v]);
    forall rest ensures LeadsBefore(m, Print(v), m', rest) {
      GoLeaf(Push(under, size, elems), v, rest);
    }
  }

  lemma {:induction false} ElementsLead(under: seq<Frame>, size: nat, elems: seq<Value>, vs: seq<Value>)
    requires AllLeaves(vs) && |elems| + |vs| < size
    ensures Leads(Collecting(under, size, elems), PrintAll(vs), Collecting(under, size, elems + vs))
    decreases |vs|
  {
    if vs == [] {
      LeadsNowhere(Collecting(under, size, elems));
      assert elems + vs == elems;
    } else {
      ElementLeads(under, size, elems, vs[0]);
      ElementsLead(under, size, elems + [vs[0]], vs[1..]);
      assert elems + [vs[0]] + vs[1..] == elems + vs;
      LeadsOn(Collecting(under, size, elems), Print(vs[0]), Collecting(under, size, elems + [vs[0]]),
              PrintAll(vs[1..]), Collecting(under, size, elems + vs));
    }
  }

  lemma GoElements(under: seq<Frame>, size: nat, vs: seq<Value>, rest: Str)
    requires AllLeaves(vs) && |vs| < size
    ensures LeadsBefore(Collecting(under, size, []), PrintAll(vs), Collecting(under, size, vs), rest)
  {
    ElementsLead(under, size, [], vs);
    assert [] + vs == vs;
  }

  lemma ShiftComplete(v: Value, a: nat, b: nat)
    ensures Shift(Complete(v, a), b) == Complete(v, b + a)
  {
  }

  /** The elements an array still waits for finish it. */
  lemma GoLastElements(under: seq<Frame>, vs: seq<Value>, rest: Str)
    requires AllLeaves(vs) && vs != []
    ensures Go(Machine(Start, Push(under, |vs|, [])), PrintAll(vs) + rest) == Complete(Arr(vs), |PrintAll(vs)|)
  {
    var n := |vs| - 1;
    var front, last := vs[..n], vs[n];
    assert vs == front + [last];
    PrintAllSnoc(front, last);
    Assoc(PrintAll(front), Print(last), rest);
    GoElements(under, |vs|, front, Print(last) + rest);
    GoLeaf(Push(under, |vs|, front), last, rest);
    FinishPushed(under, |vs|, front, last, |Print(last)|);
    ShiftComplete(Arr(vs), |Print(last)|, |PrintAll(front)|);
  }

  lemma GoArrayHeader(stack: seq<Frame>, n: nat, rest: Str)
    requires 0 < n && Readable(n)
    ensures var r := Go(Machine(Start, stack), HeadLine(STAR, Decimal(n)) + rest);
            if |stack| >= MAX_NESTING then r.Failed?
            else r == Shift(Go(Machine(Start, Push(stack, n, [])), rest), |Decimal(n)| + 3)
  {
    GoNumber(stack, STAR, n, rest);
  }

  /** A value without arrays inside its elements. */
  predicate Flat(v: Value) { Leaf(v) || (v.Arr? && AllLeaves(v.elems)) }

  /** Every part of the value can be printed and read. */
  predicate Sendable(v: Value) {
    if v.Arr? then Readable(|v.elems|) && forall i :: 0 <= i < |v.elems| ==> Sendable(v.elems[i]) else Leaf(v)
  }

  /** The first element that is itself a non-empty array. */
  function FirstDeep(vs: seq<Value>): (i: nat)
    ensures i <= |vs| && AllLeaves(vs[..i]) && (i < |vs| ==> !Leaf(vs[i]))
  {
    if vs == [] || !Leaf(vs[0]) then 0 else 1 + FirstDeep(vs[1..])
  }

  /** The non-empty array that ends first. */
  function Innermost(v: Value): Value
    decreases v
  {
    if v.Arr? && FirstDeep(v.elems) < |v.elems| then Innermost(v.elems[FirstDeep(v.elems)]) else v
  }

  /** How deep it lies. */
  function Depth(v: Value): nat
    decreases v
  {
    if v.Arr? && FirstDeep(v.elems) < |v.elems| then 1 + Depth(v.elems[FirstDeep(v.elems)]) else 1
  }

  /** Where it ends in the printed form. */
  function EndOf(v: Value): nat
    decreases v
  {
    if v.Arr? && FirstDeep(v.elems) < |v.elems| then
      var i := FirstDeep(v.elems);
      |HeadLine(STAR, Decimal(|v.elems|))| + |PrintAll(v.elems[..i])| + EndOf(v.elems[i])
    else |Print(v)|
  }

  lemma PrintAround(vs: seq<Value>, i: nat)
    requires i < |vs|
    ensures PrintAll(vs) == PrintAll(vs[..i]) + (Print(vs[i]) + PrintAll(vs[i + 1..]))
  {
    assert vs == vs[..i] + vs[i..] && vs[i..][1..] == vs[i + 1..];
    PrintAllAppend(vs[..i], vs[i..]);
  }

  /** The inner value comes out of a larger one unchanged, only later. */
  lemma GoInto(m: Machine, h: Str, m1: Machine, front: Str, m2: Machine, p: Str, tail: Str, rest: Str)
    requires Valid(m) && Valid(m1) && Valid(m2)
    requires Go(m, h + (front + (p + (tail + rest)))) == Shift(Go(m1, front + (p + (tail + rest))), |h|)
    requires Go(m1, front + (p + (tail + rest))) == Shift(Go(m2, p + (tail + rest)), |front|)
    ensures Go(m, h + (front + (p + tail)) + rest) == Shift(Go(m2, p + (tail + rest)), |h| + |front|)
  {
    Assoc(h, front + (p + tail), rest);
    Assoc(front, p + tail, rest);
    Assoc(p, tail, rest);
    ShiftTwice(Go(m2, p + (tail + rest)), |front|, |h|);
  }

  lemma GoFlatArray(stack: seq<Frame>, vs: seq<Value>, rest: Str)
    requires vs != [] && AllLeaves(vs) && Readable(|vs|)
    ensures var r := Go(Machine(Start, stack), Print(Arr(vs)) + rest);
            if |stack| >= MAX_NESTING then r.Failed? else r == Complete(Arr(vs), |Print(Arr(vs))|)
  {
    var h, p := HeadLine(STAR, Decimal(|vs|)), PrintAll(vs);
    Assoc(h, p, rest);
    GoArrayHeader(stack, |vs|, p + rest);
    GoLastElements(stack, vs, rest);
    ShiftComplete(Arr(vs), |p|, |h|);
  }

  /** Of nested arrays the parser returns the one that ends first; past the nesting limit it fails. */
  lemma {:induction false} NestedGivesInnermost(stack: seq<Frame>, v: Value, rest: Str)
    requires Sendable(v) && !Leaf(v)
    ensures var r := Go(Machine(Start, stack), Print(v) + rest);
            if |stack| + Depth(v) > 128 then r.Failed? else r == Complete(Innermost(v), EndOf(v))
    decreases v
  {
    var vs := v.elems;
    var i := FirstDeep(vs);
    if i == |vs| {
      assert vs[..i] == vs;
      GoFlatArray(stack, vs, rest);
    } else {
      var h, front, p, tail := HeadLine(STAR, Decimal(|vs|)), PrintAll(vs[..i]), Print(vs[i]), PrintAll(vs[i + 1..]);
      PrintAround(vs, i);
      var inner := p + (tail + rest);
      GoArrayHeader(stack, |vs|, front + inner);
      Assoc(h, front + (p + tail), rest);
      Assoc(front, p + tail, rest);
      Assoc(p, tail, rest);
      if |stack| < MAX_NESTING {
        GoElements(stack, |vs|, vs[..i], inner);
        var stack' := Push(stack, |vs|, vs[..i]);
        NestedGivesInnermost(stack', vs[i], tail + rest);
        GoInto(Machine(Start, stack), h, Collecting(stack, |vs|, []), front, Machine(Start, stack'), p, tail, rest);
        ShiftComplete(Innermost(vs[i]), EndOf(vs[i]), |h| + |front|);
      }
    }
  }

  lemma {:induction false} InnermostIsSmaller(v: Value)
    requires v.Arr? && FirstDeep(v.elems) < |v.elems|
    ensures |Print(Innermost(v))| < |Print(v)|
    decreases v
  {
    var i := FirstDeep(v.elems);
    var w := v.elems[i];
    PrintAround(v.elems, i);
    if w.Arr? && FirstDeep(w.elems) < |w.elems| { InnermostIsSmaller(w); }
  }

  /** A printed value is read back whole exactly when it is flat, whatever follows it. */
  lemma WholeIffFlat(v: Value, rest: Str)
    requires Sendable(v)
    ensures Go(FRESH, Print(v) + rest) == Complete(v, |Print(v)|) <==> Flat(v)
  {
    if Leaf(v) {
      GoLeaf([], v, rest);
    } else {
      NestedGivesInnermost([], v, rest);
      var i := FirstDeep(v.elems);
      if i < |v.elems| {
        InnermostIsSmaller(v);
      } else {
        assert v.elems[..i] == v.elems;
      }
    }
  }

  // ----- Cut input -----

  /** After a cut the parser either waits for more, or its loop never ends. */
  predicate WaitsIff(r: Result, safe: bool) { if safe then r.Drained? else r.Hang? }

  /** A line is cut safely before it or right after its type byte. */
  lemma LineCut(stack: seq<Frame>, kind: byte, line: Str, r: nat)
    requires KnownKind(kind) && LF !in line && r < |HeadLine(kind, line)|
    ensures WaitsIff(Go(Machine(Start, stack), HeadLine(kind, line)[..r]), r <= 1)
  {
    if r > 0 {
      var m, m1, d := Machine(Start, stack), Machine(Line(kind), stack), HeadLine(kind, line)[..r];
      GoMoved(m, d, m1, 1);
      var cut := (line + CRLF)[..r - 1];
      assert d[1..] == cut;
      if r > 1 {
        CRLFAtFirst(cut, 0);
        GoContinues(m1, cut);
      }
    }
  }

  /** A body is cut safely anywhere up to its end, not inside its terminator. */
  lemma BodyCut(stack: seq<Frame>, s: Str, r: nat)
    requires r < |s| + 2
    ensures WaitsIff(Go(Machine(Body(|s|, []), stack), (s + CRLF)[..r]), r <= |s|)
  {
    var m := Machine(Body(|s|, []), stack);
    if 0 < r <= |s| {
      assert (s + CRLF)[..r] == s[..r];
      PartialBodyAbsorbs(stack, |s|, [], s[..r], []);
      Unit(s[..r]);
    } else if r == |s| + 1 {
      assert (s + CRLF)[..r] == s + [CR];
      var full := Machine(Body(|s|, s), stack);
      GoContinues(full, [CR]);
      if s == [] {
        Unit([CR]);
      } else {
        BodyAbsorbs(stack, |s|, [], s, [CR]);
        Unit(s);
      }
    }
  }

  /** A bulk string short enough to be announced. */
  predicate IsArg(v: Value) { v.Bulk? && Readable(|v.str|) }

  predicate AreArgs(vs: seq<Value>) { forall i :: 0 <= i < |vs| ==> IsArg(vs[i]) }

  predicate SafeInArg(s: Str, n: nat) {
    var h := |Decimal(|s|)| + 3;
    if n < h then n <= 1 else n - h <= |s|
  }

  lemma ArgCut(stack: seq<Frame>, s: Str, n: nat)
    requires Readable(|s|) && n < |Print(Bulk(s))|
    ensures WaitsIff(Go(Machine(Start, stack), Print(Bulk(s))[..n]), SafeInArg(s, n))
  {
    var h, b := HeadLine(DOLLAR, Decimal(|s|)), s + CRLF;
    DecimalIsPlain(|s|);
    SplitFront(h, b, n);
    if n < |h| {
      LineCut(stack, DOLLAR, Decimal(|s|), n);
    } else {
      GoBulkHeader(stack, |s|, b[..n - |h|]);
      BodyCut(stack, s, n - |h|);
    }
  }

  /** Whether a cut n bytes into the arguments leaves the parser able to go on. */
  predicate SafeInArgs(vs: seq<Value>, n: nat)
    requires AreArgs(vs)
  {
    if vs == [] then n == 0
    else
      var p := |Print(vs[0])|;
      if n < p then SafeInArg(vs[0].str, n) else SafeInArgs(vs[1..], n - p)
  }

  /** Whether the parser waits at a cut is decided behind the elements it has read. */
  lemma WaitsBehind(size: nat, elems: seq<Value>, v: Value, rest: Str, safe: bool)
    requires Leaf(v) && |elems| + 1 < size && WaitsIff(Go(Collecting([], size, elems + [v]), rest), safe)
    ensures WaitsIff(Go(Collecting([], size, elems), Print(v) + rest), safe)
  {
    ElementLeads([], size, elems, v);
    assert LeadsBefore(Collecting([], size, elems), Print(v), Collecting([], size, elems + [v]), rest);
  }

  lemma {:induction false} ArgsCut(size: nat, elems: seq<Value>, vs: seq<Value>, n: nat)
    requires AreArgs(vs) && |elems| + |vs| == size && n < |PrintAll(vs)|
    ensures WaitsIff(Go(Collecting([], size, elems), PrintAll(vs)[..n]), SafeInArgs(vs, n))
    decreases |vs|
  {
    var v, p, tail := vs[0], Print(vs[0]), PrintAll(vs[1..]);
    SplitFront(p, tail, n);
    if n < |p| {
      ArgCut(Push([], size, elems), v.str, n);
    } else {
      ArgsCut(size, elems + [v], vs[1..], n - |p|);
      WaitsBehind(size, elems, v, tail[..n - |p|], SafeInArgs(vs[1..], n - |p|));
    }
  }

  /** A command as the client sends it. */
  predicate IsRequest(v: Value) { v.Arr? && AreArgs(v.elems) && Readable(|v.elems|) }

  /**
    A cut inside a printed command is safe unless it falls between the type byte and the end of a
    header line, with at least one byte of it in view, or between the two bytes of a terminator.
  */
  predicate SafeInRequest(v: Value, n: nat)
    requires IsRequest(v)
  {
    var h := |Decimal(|v.elems|)| + 3;
    if n < h then n <= 1 else SafeInArgs(v.elems, n - h)
  }

  lemma RequestIsFlat(v: Value)
    requires IsRequest(v)
    ensures Sendable(v) && Flat(v)
  {
    assert forall i :: 0 <= i < |v.elems| ==> IsArg(v.elems[i]);
  }

  /** A command is read whole, whatever follows it. */
  lemma RequestReadsBack(v: Value, rest: Str)
    requires IsRequest(v)
    ensures Go(FRESH, Print(v) + rest) == Complete(v, |Print(v)|)
  {
    RequestIsFlat(v);
    WholeIffFlat(v, rest);
  }

  /** A command cut short makes the parser wait exactly at the safe cuts; at all others it never returns. */
  lemma RequestCut(v: Value, n: nat)
    requires IsRequest(v) && n < |Print(v)|
    ensures WaitsIff(Go(FRESH, Print(v)[..n]), SafeInRequest(v, n))
  {
    var vs := v.elems;
    var h, p := HeadLine(STAR, Decimal(|vs|)), PrintAll(vs);
    DecimalIsPlain(|vs|);
    SplitFront(h, p, n);
    if n < |h| {
      LineCut([], STAR, Decimal(|vs|), n);
    } else {
      GoArrayHeader([], |vs|, p[..n - |h|]);
      ArgsCut(|vs|, [], vs, n - |h|);
    }
  }
}
