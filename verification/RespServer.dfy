/** The server's incremental request parser: a machine that takes bytes in as they arrive. */
module RespServer {
  import opened Bytes
  import opened Resp

  const MAX_NESTING: nat := 128

  /** Where the parser stands: before a value, inside its first line, or inside a bulk string's body. */
  datatype Mode = Start | Line(kind: byte) | Body(size: nat, got: Str)

  /** An array under construction. */
  datatype Frame = Frame(size: nat, elems: seq<Value>)

  datatype Machine = Machine(mode: Mode, stack: seq<Frame>)

  const FRESH: Machine := Machine(Start, [])

  predicate KnownKind(k: byte) { k == PLUS || k == MINUS || k == COLON || k == DOLLAR || k == STAR }

  predicate Valid(m: Machine) {
    match m.mode
    case Start => true
    case Line(k) => KnownKind(k)
    case Body(size, got) => |got| <= size
  }

  /** 2^63 - 1 doubles as the error mark, so it cannot be read; a lone minus sign reads as zero. */
  function ServerInt(s: Str): (r: Option<i64>)
  {
    if s == [] then None
    else
      var digits := if s[0] == MINUS then s[1..] else s;
      if !AllDigits(digits) || Numeral(digits) >= I63 then None
      else if s[0] == MINUS then Some(0 - Numeral(digits))
      else if Numeral(digits) == I63 - 1 then None
      else Some(Numeral(digits))
  }

  /** One turn of the parse loop: bytes taken in, a value finished, an error, or no progress at all. */
  datatype Turn = Moved(m: Machine, n: nat) | Done(v: Value, n: nat) | Bad | Stuck

  /** A value is finished: the last one its array waits for finishes the array. */
  function Finish(stack: seq<Frame>, v: Value, n: nat): Turn {
    if stack == [] then Done(v, n)
    else
      var top := stack[|stack| - 1];
      var elems := top.elems + [v];
      if |elems| >= top.size then Done(Arr(elems), n)
      else Moved(Machine(Start, stack[..|stack| - 1] + [Frame(top.size, elems)]), n)
  }

  /** The first line of a value is complete. */
  function TakeLine(stack: seq<Frame>, kind: byte, line: Str): Turn {
    var n := |line| + 2;
    if kind == PLUS then Finish(stack, Simple(line), n)
    else if kind == MINUS then Finish(stack, Error(line), n)
    else if ServerInt(line).None? then Bad
    else TakeNumber(stack, kind, ServerInt(line).value, n)
  }

  function TakeNumber(stack: seq<Frame>, kind: byte, x: i64, n: nat): Turn {
    if kind == COLON then Finish(stack, Int(x), n)
    else if x < -1 then Bad
    else if kind == DOLLAR then
      if x == -1 then Finish(stack, NullBulk, n) else Moved(Machine(Body(x, []), stack), n)
    else if x == -1 then Finish(stack, NullArr, n)
    else if x == 0 then Finish(stack, Arr([]), n)
    else if |stack| >= MAX_NESTING then Bad
    else Moved(Machine(Start, stack + [Frame(x, [])]), n)
  }

  function TakeBody(stack: seq<Frame>, size: nat, got: Str, d: Str): Turn
    requires |got| <= size
  {
    var missing := size - |got|;
    if |d| < missing then Moved(Machine(Body(size, got + d), stack), |d|)
    else if missing + 2 > |d| then
      if missing == 0 then Stuck else Moved(Machine(Body(size, got + d[..missing]), stack), missing)
    else if d[missing..missing + 2] != CRLF then Bad
    else Finish(stack, Bulk(got + d[..missing]), missing + 2)
  }

  function Step(m: Machine, d: Str): (t: Turn)
    requires Valid(m) && d != []
    ensures t.Moved? ==> 0 < t.n <= |d| && Valid(t.m)
    ensures t.Done? ==> 0 < t.n <= |d|
  {
    match m.mode
    case Start => if KnownKind(d[0]) then Moved(Machine(Line(d[0]), m.stack), 1) else Bad
    case Line(kind) =>
      if CRLFAt(d, 0).None? then Stuck else TakeLine(m.stack, kind, d[..CRLFAt(d, 0).value])
    case Body(size, got) => TakeBody(m.stack, size, got, d)
  }

  /** A whole call of the parser. Hang: the loop turns forever, since a turn without progress repeats. */
  datatype Result = Complete(v: Value, n: nat) | Drained(m: Machine) | Hang | Failed

  function Shift(r: Result, n: nat): Result { if r.Complete? then Complete(r.v, n + r.n) else r }

  function Go(m: Machine, d: Str): (r: Result)
    requires Valid(m)
    ensures r.Complete? ==> 0 < r.n <= |d|
    ensures r.Drained? ==> Valid(r.m)
    decreases |d|
  {
    if d == [] then Drained(m)
    else
      var t := Step(m, d);
      if t.Bad? then Failed
      else if t.Stuck? then Hang
      else if t.Done? then Complete(t.v, t.n)
      else Shift(Go(t.m, d[t.n..]), t.n)
  }

  // ----- Bytes may arrive in pieces -----

  lemma CRLFAtStable(a: Str, b: Str, i: nat)
    requires CRLFAt(a, i).Some?
    ensures CRLFAt(a + b, i) == CRLFAt(a, i)
  {
    CRLFAtFirst(a, i);
    var e := CRLFAt(a, i).value;
    forall j | i <= j < e ensures !IsCRLF(a + b, j) { assert !IsCRLF(a, j); }
    CRLFAtIs(a + b, i, e);
  }

  lemma BodyStable(stack: seq<Frame>, size: nat, got: Str, a: Str, b: Str)
    requires |got| <= size && size - |got| + 2 <= |a|
    ensures TakeBody(stack, size, got, a + b) == TakeBody(stack, size, got, a)
  {
    var missing := size - |got|;
    SliceOfFront(a, b, missing, missing + 2);
    SliceOfFront(a, b, 0, missing);
  }

  /** The turn ended, and not inside the body it began in. */
  predicate Settled(m: Machine, t: Turn) {
    t.Done? || t.Bad? || (t.Moved? && !(m.mode.Body? && t.m.mode.Body?))
  }

  /** Such a turn is the same with more bytes in view. */
  lemma StepStable(m: Machine, a: Str, b: Str)
    requires Valid(m) && a != []
    ensures Settled(m, Step(m, a)) ==> Step(m, a + b) == Step(m, a)
  {
    match m.mode
    case Start =>
    case Line(kind) =>
      if CRLFAt(a, 0).Some? {
        CRLFAtStable(a, b, 0);
        SliceOfFront(a, b, 0, CRLFAt(a, 0).value);
      }
    case Body(size, got) =>
      if size - |got| + 2 <= |a| { BodyStable(m.stack, size, got, a, b); }
  }

  lemma GoMoved(m: Machine, d: Str, m': Machine, n: nat)
    requires Valid(m) && d != [] && Step(m, d) == Moved(m', n)
    ensures Go(m, d) == Shift(Go(m', d[n..]), n)
  {
  }

  /** A body that is still not complete after x + y. */
  lemma PartialBodyAbsorbs(stack: seq<Frame>, size: nat, got: Str, x: Str, y: Str)
    requires x != [] && |got| + |x| + |y| <= size
    ensures Go(Machine(Body(size, got), stack), x + y) == Drained(Machine(Body(size, got + x + y), stack))
  {
    var m, d := Machine(Body(size, got), stack), x + y;
    assert d[..|d|] == d && d[|d|..] == [];
    Assoc(got, x, y);
    GoMoved(m, d, Machine(Body(size, got + d), stack), |d|);
  }

  /** Turn t is turn t' that took in k more bytes. */
  predicate Longer(t: Turn, t': Turn, k: nat) {
    if t'.Moved? then t == Moved(t'.m, k + t'.n)
    else if t'.Done? then t == Done(t'.v, k + t'.n)
    else t'.Bad? && t.Bad?
  }

  /** The turn that completes a body, seen with and without its part x. */
  lemma CompleteBodyAbsorbs(stack: seq<Frame>, size: nat, got: Str, x: Str, y: Str)
    requires |got| + |x| <= size && size + 2 <= |got| + |x| + |y|
    ensures Longer(TakeBody(stack, size, got, x + y), TakeBody(stack, size, got + x, y), |x|)
  {
    var d, missing := x + y, size - |got|;
    assert got + d[..missing] == got + x + y[..missing - |x|];
    assert d[missing..missing + 2] == y[missing - |x|..missing - |x| + 2];
  }

  lemma ShiftTwice(r: Result, a: nat, b: nat)
    ensures Shift(Shift(r, a), b) == Shift(r, a + b)
  {
  }

  /** What follows a turn. */
  function Continue(t: Turn, d: Str): Result
    requires t.Moved? ==> t.n <= |d| && Valid(t.m)
  {
    if t.Bad? then Failed
    else if t.Stuck? then Hang
    else if t.Done? then Complete(t.v, t.n)
    else Shift(Go(t.m, d[t.n..]), t.n)
  }

  lemma ContinueLonger(t: Turn, t': Turn, x: Str, y: Str)
    requires t'.Moved? ==> t'.n <= |y| && Valid(t'.m)
    requires Longer(t, t', |x|)
    ensures Continue(t, x + y) == Shift(Continue(t', y), |x|)
  {
    if t'.Moved? {
      assert (x + y)[|x| + t'.n..] == y[t'.n..];
      ShiftTwice(Go(t'.m, y[t'.n..]), t'.n, |x|);
    }
  }

  lemma GoLonger(m: Machine, m': Machine, x: Str, y: Str)
    requires Valid(m) && Valid(m') && y != [] && Longer(Step(m, x + y), Step(m', y), |x|)
    ensures Go(m, x + y) == Shift(Go(m', y), |x|)
  {
    ContinueLonger(Step(m, x + y), Step(m', y), x, y);
  }

  lemma GoCompleteBodyAbsorbs(stack: seq<Frame>, size: nat, got: Str, x: Str, y: Str)
    requires |got| + |x| <= size && size + 2 <= |got| + |x| + |y|
    ensures Go(Machine(Body(size, got), stack), x + y) == Shift(Go(Machine(Body(size, got + x), stack), y), |x|)
  {
    CompleteBodyAbsorbs(stack, size, got, x, y);
    GoLonger(Machine(Body(size, got), stack), Machine(Body(size, got + x), stack), x, y);
  }

  /** The body is complete but its terminator is not all there. */
  lemma UnterminatedTurn(stack: seq<Frame>, size: nat, got: Str, x: Str, y: Str)
    requires |got| + |x| <= size && size < |got| + |x| + |y| < size + 2
    ensures var missing, full := size - |got|, got + x + y[..size - |got| - |x|];
            && (missing > 0 ==> TakeBody(stack, size, got, x + y) == Moved(Machine(Body(size, full), stack), missing))
            && (x + y)[missing..] == y[missing - |x|..]
  {
    var d, missing := x + y, size - |got|;
    assert d[..missing] == x + y[..missing - |x|];
    Assoc(got, x, y[..missing - |x|]);
  }

  /** Taking in what is missing of such a body, if anything is. */
  lemma GoUnterminated(stack: seq<Frame>, size: nat, got: Str, x: Str, y: Str)
    requires |got| + |x| <= size && size < |got| + |x| + |y| < size + 2
    ensures var missing := size - |got|; var full := Machine(Body(size, got + x + y[..missing - |x|]), stack);
            Go(Machine(Body(size, got), stack), x + y) == Shift(Go(full, y[missing - |x|..]), missing)
  {
    var missing := size - |got|;
    var full := Machine(Body(size, got + x + y[..missing - |x|]), stack);
    if missing > 0 {
      UnterminatedTurn(stack, size, got, x, y);
      GoMoved(Machine(Body(size, got), stack), x + y, full, missing);
    } else {
      assert x == [] && y[..0] == [] && y[0..] == y;
      Unit(y);
      Unit(got);
    }
  }

  lemma GoUnterminatedBodyAbsorbs(stack: seq<Frame>, size: nat, got: Str, x: Str, y: Str)
    requires x != [] && |got| + |x| <= size && size < |got| + |x| + |y| < size + 2
    ensures Go(Machine(Body(size, got), stack), x + y) == Shift(Go(Machine(Body(size, got + x), stack), y), |x|)
  {
    var missing := size - |got|;
    var full := Machine(Body(size, got + x + y[..missing - |x|]), stack);
    GoUnterminated(stack, size, got, x, y);
    GoUnterminated(stack, size, got + x, [], y);
    Unit(y);
    Unit(got + x);
    ShiftTwice(Go(full, y[missing - |x|..]), missing - |x|, |x|);
  }

  /** Part x of a body can be taken in first. */
  lemma BodyAbsorbs(stack: seq<Frame>, size: nat, got: Str, x: Str, y: Str)
    requires x != [] && |got| + |x| <= size
    ensures Go(Machine(Body(size, got), stack), x + y) == Shift(Go(Machine(Body(size, got + x), stack), y), |x|)
  {
    if |got| + |x| + |y| <= size {
      PartialBodyAbsorbs(stack, size, got, x, y);
      if y == [] {
        Unit(got + x);
      } else {
        PartialBodyAbsorbs(stack, size, got + x, y, []);
        Unit(y);
        Unit(got + x + y);
      }
    } else if |got| + |x| + |y| < size + 2 {
      GoUnterminatedBodyAbsorbs(stack, size, got, x, y);
    } else {
      GoCompleteBodyAbsorbs(stack, size, got, x, y);
    }
  }

  /** A turn that ends inside its body has taken in everything the body still missed, or all there is. */
  lemma BodyMoved(m: Machine, a: Str)
    requires Valid(m) && a != [] && m.mode.Body? && Step(m, a).Moved? && Step(m, a).m.mode.Body?
    ensures var x := a[..Step(m, a).n];
            && |m.mode.got| + |x| <= m.mode.size
            && Step(m, a).m == Machine(Body(m.mode.size, m.mode.got + x), m.stack)
  {
    assert a[..|a|] == a;
  }

  /** What more bytes make of a call's result. */
  ghost predicate Extends(m: Machine, a: Str, b: Str)
    requires Valid(m)
  {
    var r := Go(m, a);
    && (r.Complete? || r.Failed? ==> Go(m, a + b) == r)
    && (r.Drained? ==> Go(m, a + b) == Shift(Go(r.m, b), |a|))
  }

  lemma ExtendsStep(m: Machine, x: Str, y: Str, b: Str, m': Machine)
    requires Valid(m) && Valid(m') && Extends(m', y, b)
    requires Go(m, x + y) == Shift(Go(m', y), |x|) && Go(m, x + (y + b)) == Shift(Go(m', y + b), |x|)
    ensures Extends(m, x + y, b)
  {
    Assoc(x, y, b);
    var r := Go(m', y);
    if r.Drained? { ShiftTwice(Go(r.m, b), |y|, |x|); }
  }

  /** The parser can stop at the end of its input and go on with the next: the pieces do not matter. */
  lemma {:induction false} GoAppend(m: Machine, a: Str, b: Str)
    requires Valid(m)
    ensures Extends(m, a, b)
    decreases |a|
  {
    if a == [] {
      Unit(b);
    } else {
      var t := Step(m, a);
      StepStable(m, a, b);
      if t.Moved? {
        var x, y := a[..t.n], a[t.n..];
        assert a == x + y;
        GoAppend(t.m, y, b);
        GoMoved(m, a, t.m, t.n);
        if Settled(m, t) {
          GoMoved(m, a + b, t.m, t.n);
          Assoc(x, y, b);
          assert (x + (y + b))[|x|..] == y + b;
        } else {
          BodyMoved(m, a);
          BodyAbsorbs(m.stack, m.mode.size, m.mode.got, x, y + b);
        }
        ExtendsStep(m, x, y, b, t.m);
      }
    }
  }

  // ----- Integers -----

  lemma ServerNegative(digits: Str)
    requires AllDigits(digits)
    ensures ServerInt([MINUS] + digits) == if Numeral(digits) < I63 then Some(0 - Numeral(digits)) else None
  {
    assert ([MINUS] + digits)[1..] == digits;
  }

  lemma ServerPositive(digits: Str)
    requires AllDigits(digits) && digits != []
    ensures ServerInt(digits) == if Numeral(digits) < I63 - 1 then Some(Numeral(digits)) else None
  {
    DigitsOnly(digits);
  }

  /** Printed integers are read back except for the two extremes. */
  lemma ServerIntRoundTripIff(x: i64)
    ensures ServerInt(Decimal(x)) == Some(x) <==> -I63 < x < I63 - 1
  {
    if x < 0 {
      DigitsNumeral(0 - x);
      ServerNegative(Digits(0 - x));
    } else {
      DigitsNumeral(x);
      ServerPositive(Digits(x));
    }
  }

  lemma {:induction false} NumeralGrows(s: Str, k: nat)
    requires k <= |s| && AllDigits(s)
    ensures AllDigits(s[..k]) && Numeral(s[..k]) <= Numeral(s)
    decreases |s|
  {
    if k < |s| {
      NumeralGrows(s[..|s| - 1], k);
      assert s[..|s| - 1][..k] == s[..k];
    } else {
      assert s[..k] == s;
    }
  }

  lemma NumeralStep(s: Str, k: nat)
    requires k < |s| && AllDigits(s[..k])
    ensures AllDigits(s[..k + 1]) <==> 48 <= s[k] <= 57
    ensures AllDigits(s[..k + 1]) ==> Numeral(s[..k + 1]) == 10 * Numeral(s[..k]) + (s[k] - 48)
  {
    assert s[..k + 1][..k] == s[..k];
  }

  /** Digit by digit, refusing a digit that would take the value past 2^63 - 1. */
  method ParseDigits(s: Str) returns (r: Option<nat>)
    ensures r == if AllDigits(s) && Numeral(s) < I63 then Some(Numeral(s)) else None
  {
    var value: nat := 0;
    assert s[..0] == [];
    for i := 0 to |s|
      invariant AllDigits(s[..i]) && value == Numeral(s[..i]) < I63
    {
      NumeralStep(s, i);
      var c := s[i];
      if c < 48 || c > 57 {
        if AllDigits(s) { NumeralGrows(s, i + 1); }
        return None;
      }
      if value > (I63 - 1 - (c - 48)) / 10 {
        if AllDigits(s) { NumeralGrows(s, i + 1); }
        return None;
      }
      value := value * 10 + (c - 48);
    }
    assert s[..|s|] == s;
    r := Some(value);
  }

  method ParseInteger(s: Str) returns (r: Option<i64>)
    ensures r == ServerInt(s)
  {
    if s == [] { return None; }
    var negative := s[0] == MINUS;
    var digits := if negative then s[1..] else s;
    var value := ParseDigits(digits);
    if value.None? { return None; }
    var v: int := value.value;
    if negative { return Some(0 - v); }
    if value.value == I63 - 1 { return None; }
    r := Some(value.value);
  }

  // ----- The parser object -----

  lemma GoContinues(m: Machine, d: Str)
    requires Valid(m) && d != []
    ensures Go(m, d) == Continue(Step(m, d), d)
  {
  }

  /** The first pos bytes have brought the parser to m. */
  ghost predicate ReachedBy(start: Machine, data: Str, pos: nat, m: Machine)
    requires Valid(start)
  {
    pos <= |data| && Valid(m) && Go(start, data) == Shift(Go(m, data[pos..]), pos)
  }

  /** What turn t, taken at pos, means for the whole call. */
  ghost predicate Turned(start: Machine, data: Str, pos: nat, t: Turn)
    requires Valid(start)
  {
    && (t.Bad? ==> Go(start, data).Failed?)
    && (t.Stuck? ==> Go(start, data).Hang?)
    && (t.Done? ==> Go(start, data) == Complete(t.v, pos + t.n))
    && (t.Moved? ==> 0 < t.n && ReachedBy(start, data, pos + t.n, t.m))
  }

  lemma ReachedTurn(start: Machine, data: Str, pos: nat, m: Machine)
    requires Valid(start) && ReachedBy(start, data, pos, m) && pos < |data|
    ensures Turned(start, data, pos, Step(m, data[pos..]))
  {
    var t := Step(m, data[pos..]);
    GoContinues(m, data[pos..]);
    ContinueReached(data, pos, t);
  }

  lemma ReachedEnd(start: Machine, data: Str, pos: nat, m: Machine)
    requires Valid(start) && ReachedBy(start, data, pos, m) && pos == |data|
    ensures Go(start, data) == Drained(m)
  {
    assert data[pos..] == [];
  }

  lemma ContinueReached(data: Str, pos: nat, t: Turn)
    requires pos <= |data| && (t.Moved? ==> t.n <= |data| - pos && Valid(t.m))
    ensures t.Moved? ==> Shift(Continue(t, data[pos..]), pos) == Shift(Go(t.m, data[pos + t.n..]), pos + t.n)
  {
    if t.Moved? {
      assert data[pos..][t.n..] == data[pos + t.n..];
      ShiftTwice(Go(t.m, data[pos + t.n..]), t.n, pos);
    }
  }

  class Parser {
    var mode: Mode
    var stack: seq<Frame>
    var processed: nat

    ghost function State(): Machine
      reads this
    {
      Machine(mode, stack)
    }

    constructor ()
      ensures State() == FRESH && processed == 0
    {
      mode, stack, processed := Start, [], 0;
    }

    method Reset()
      modifies this
      ensures State() == FRESH && processed == 0
    {
      mode, stack, processed := Start, [], 0;
    }

    /** One turn of the loop. */
    method TakeTurn(data: Str, pos: nat, ghost start: Machine) returns (t: Turn)
      requires Valid(start) && pos < |data| && ReachedBy(start, data, pos, State())
      ensures Turned(start, data, pos, t)
    {
      t := Step(Machine(mode, stack), data[pos..]);
      ReachedTurn(start, data, pos, State());
    }

    /** One call: it returns what Go says, and counts the bytes taken in since the last reset. */
    method Parse(data: Str) returns (r: Result)
      requires Valid(State())
      modifies this
      ensures r == Go(old(State()), data)
      ensures r.Drained? ==> State() == r.m && processed == old(processed) + |data|
      ensures r.Complete? ==> processed == old(processed) + r.n
    {
      var pos: nat := 0;
      assert data[0..] == data;
      ghost var start := State();
      while pos < |data|
        invariant ReachedBy(start, data, pos, State()) && processed == old(processed) + pos
        decreases |data| - pos
      {
        var t := TakeTurn(data, pos, start);
        if t.Bad? { return Failed; }
        if t.Stuck? { return Hang; }
        if t.Done? {
          mode, processed := Start, processed + t.n;
          if stack != [] { stack := stack[..|stack| - 1]; }
          return Complete(t.v, pos + t.n);
        }
        mode, stack, processed, pos := t.m.mode, t.m.stack, processed + t.n, pos + t.n;
      }
      ReachedEnd(start, data, pos, State());
      r := Drained(Machine(mode, stack));
    }
  }

  lemma FinishSize(stack: seq<Frame>, v: Value, n: nat)
    ensures var t := Finish(stack, v, n); (t.Moved? || t.Done?) && t.n == n
  {
  }

  lemma TakeLineSize(stack: seq<Frame>, kind: byte, line: Str)
    ensures var t := TakeLine(stack, kind, line); t.Moved? || t.Done? ==> t.n == |line| + 2
    ensures !TakeLine(stack, kind, line).Stuck?
  {
  }

  lemma BodyStuckIff(stack: seq<Frame>, size: nat, got: Str, d: Str)
    requires |got| <= size && d != []
    ensures TakeBody(stack, size, got, d).Stuck? <==> |got| == size && |d| == 1
  {
    if size - |got| + 2 <= |d| { FinishSize(stack, Bulk(got + d[..size - |got|]), size - |got| + 2); }
  }

  /**
    The loop turns forever, since a turn without progress changes nothing, exactly when a first line
    or the second half of a terminator is still to come.
  */
  lemma StuckIff(m: Machine, d: Str)
    requires Valid(m) && d != []
    ensures Step(m, d).Stuck? <==> (m.mode.Line? && CRLFAt(d, 0).None?) ||
                                   (m.mode.Body? && |m.mode.got| == m.mode.size && |d| == 1)
  {
    if m.mode.Line? && CRLFAt(d, 0).Some? { TakeLineSize(m.stack, m.mode.kind, d[..CRLFAt(d, 0).value]); }
    if m.mode.Body? { BodyStuckIff(m.stack, m.mode.size, m.mode.got, d); }
  }
}
