/** RESP values, their printed form, and the pieces both parsers share: decimals and header lines. */
module Resp {
  import opened Bytes

  datatype Value =
    | Simple(str: Str)
    | Error(str: Str)
    | Int(n: i64)
    | Bulk(str: Str)
    | NullBulk
    | Arr(elems: seq<Value>)
    | NullArr

  const CR: byte := 13
  const LF: byte := 10
  const CRLF: Str := [13, 10]
  const PLUS: byte := 43
  const MINUS: byte := 45
  const COLON: byte := 58
  const DOLLAR: byte := 36
  const STAR: byte := 42

  // ----- Decimals -----

  function Digits(n: nat): (s: Str)
    ensures s != []
  {
    if n < 10 then [48 + n] else Digits(n / 10) + [48 + n % 10]
  }

  function Decimal(x: int): (s: Str)
    ensures s != []
  {
    if x < 0 then [MINUS] + Digits(0 - x) else Digits(x)
  }

  predicate AllDigits(s: Str) {
    s == [] || (48 <= s[|s| - 1] <= 57 && AllDigits(s[..|s| - 1]))
  }

  lemma {:induction false} DigitsOnly(s: Str)
    ensures AllDigits(s) <==> forall i :: 0 <= i < |s| ==> 48 <= s[i] <= 57
  {
    if s != [] { DigitsOnly(s[..|s| - 1]); }
  }

  function Numeral(s: Str): nat
    requires AllDigits(s)
  {
    if s == [] then 0 else 10 * Numeral(s[..|s| - 1]) + (s[|s| - 1] - 48)
  }

  /** A decimal that fills the whole line and fits 64 bits; a minus sign is allowed, a plus sign is not. */
  function ParseInt(s: Str): (r: Option<i64>)
  {
    var digits := if s != [] && s[0] == MINUS then s[1..] else s;
    if digits == [] || !AllDigits(digits) then None
    else
      var x: int := if s[0] == MINUS then 0 - Numeral(digits) else Numeral(digits);
      if -I63 <= x < I63 then Some(x) else None
  }

  lemma {:induction false} DigitsNumeral(n: nat)
    ensures AllDigits(Digits(n)) && Numeral(Digits(n)) == n
  {
    if n >= 10 {
      DigitsNumeral(n / 10);
      assert Digits(n)[..|Digits(n)| - 1] == Digits(n / 10);
    } else {
      assert Numeral([]) == 0;
    }
  }

  lemma ParseNegative(digits: Str)
    requires digits != [] && AllDigits(digits) && Numeral(digits) <= I63
    ensures ParseInt([MINUS] + digits) == Some(0 - Numeral(digits))
  {
    assert ([MINUS] + digits)[1..] == digits;
  }

  /** Printing and reading back a 64-bit integer. */
  lemma DecimalRoundTrip(x: i64)
    ensures ParseInt(Decimal(x)) == Some(x)
  {
    if x < 0 {
      DigitsNumeral(0 - x);
      ParseNegative(Digits(0 - x));
    } else {
      DigitsNumeral(x);
      DigitsOnly(Digits(x));
    }
  }

  lemma DecimalIsPlain(x: int)
    ensures Plain(Decimal(x)) && CR !in Decimal(x) && LF !in Decimal(x)
  {
    DigitsNumeral(if x < 0 then 0 - x else x);
    DigitsOnly(Digits(if x < 0 then 0 - x else x));
  }

  // ----- Header lines -----

  predicate IsCRLF(s: Str, i: nat) { i + 1 < |s| && s[i] == CR && s[i + 1] == LF }

  /** No line break inside. */
  predicate Plain(s: Str) { forall i :: 0 <= i < |s| ==> !IsCRLF(s, i) }

  /** The first line break at or after i. */
  function CRLFAt(s: Str, i: nat): (r: Option<nat>)
    ensures r.Some? ==> i <= r.value && r.value + 2 <= |s|
    decreases |s| - i
  {
    if i + 1 >= |s| then None else if s[i] == CR && s[i + 1] == LF then Some(i) else CRLFAt(s, i + 1)
  }

  ghost predicate NoneBetween(s: Str, i: nat, e: nat) { forall j :: i <= j < e ==> !IsCRLF(s, j) }

  /** It is a line break, and there is none before it. */
  lemma {:induction false} CRLFAtFirst(s: Str, i: nat)
    ensures CRLFAt(s, i).Some? ==> IsCRLF(s, CRLFAt(s, i).value) && NoneBetween(s, i, CRLFAt(s, i).value)
    ensures CRLFAt(s, i).None? ==> NoneBetween(s, i, |s|)
    decreases |s| - i
  {
    if i + 1 < |s| && !IsCRLF(s, i) { CRLFAtFirst(s, i + 1); }
  }

  lemma CRLFAtIs(s: Str, i: nat, e: nat)
    requires i <= e && IsCRLF(s, e) && NoneBetween(s, i, e)
    ensures CRLFAt(s, i) == Some(e)
  {
    CRLFAtFirst(s, i);
  }

  /** The first line of a buffer: its type byte, the text, and what follows the line break. */
  datatype Header = Header(kind: byte, line: Str, rest: Str)

  function Head(b: Str): (r: Option<Header>)
    requires b != []
    ensures r.Some? ==> |b| == |r.value.line| + 3 + |r.value.rest|
  {
    match CRLFAt(b, 1)
    case None => None
    case Some(e) => Some(Header(b[0], b[1..e], b[e + 2..]))
  }

  lemma HeadIsPlain(b: Str)
    requires b != [] && Head(b).Some?
    ensures Plain(Head(b).value.line)
  {
    CRLFAtFirst(b, 1);
    var line := Head(b).value.line;
    forall i | 0 <= i < |line| ensures !IsCRLF(line, i) { assert !IsCRLF(b, i + 1); }
  }

  function HeadLine(kind: byte, line: Str): (s: Str)
    ensures |s| == |line| + 3
  {
    [kind] + line + CRLF
  }

  lemma HeadOf(kind: byte, line: Str, rest: Str)
    requires Plain(line)
    ensures Head(HeadLine(kind, line) + rest) == Some(Header(kind, line, rest))
  {
    var b := HeadLine(kind, line) + rest;
    var e := |line| + 1;
    forall j | 1 <= j < e ensures !IsCRLF(b, j) {
      assert !IsCRLF(line, j - 1);
      assert j < e - 1 ==> b[j] == line[j - 1] && b[j + 1] == line[j];
    }
    CRLFAtIs(b, 1, e);
    assert b[1..e] == line && b[e + 2..] == rest;
  }

  lemma HeadStable(b: Str, more: Str)
    requires b != [] && Head(b).Some?
    ensures var h := Head(b).value; Head(b + more) == Some(Header(h.kind, h.line, h.rest + more))
  {
    var e := CRLFAt(b, 1).value;
    CRLFAtFirst(b, 1);
    forall j | 1 <= j < e ensures !IsCRLF(b + more, j) { assert !IsCRLF(b, j); }
    CRLFAtIs(b + more, 1, e);
    assert (b + more)[1..e] == b[1..e] && (b + more)[e + 2..] == b[e + 2..] + more;
  }

  // ----- Printing -----

  function Print(v: Value): (s: Str)
    ensures |s| >= 3
    decreases v
  {
    match v
    case Simple(s) => HeadLine(PLUS, s)
    case Error(s) => HeadLine(MINUS, s)
    case Int(n) => HeadLine(COLON, Decimal(n))
    case Bulk(s) => HeadLine(DOLLAR, Decimal(|s|)) + (s + CRLF)
    case NullBulk => HeadLine(DOLLAR, Decimal(-1))
    case Arr(vs) => HeadLine(STAR, Decimal(|vs|)) + PrintAll(vs)
    case NullArr => HeadLine(STAR, Decimal(-1))
  }

  function PrintAll(vs: seq<Value>): Str {
    if vs == [] then [] else Print(vs[0]) + PrintAll(vs[1..])
  }

  lemma {:induction false} PrintAllSnoc(vs: seq<Value>, v: Value)
    ensures PrintAll(vs + [v]) == PrintAll(vs) + Print(v)
  {
    if vs == [] {
      assert [v][1..] == [];
      assert PrintAll([v]) == Print(v) + PrintAll([]) == Print(v);
      Unit(Print(v));
      assert [] + [v] == [v];
    } else {
      PrintAllSnoc(vs[1..], v);
      assert (vs + [v])[1..] == vs[1..] + [v];
      Assoc(Print(vs[0]), PrintAll(vs[1..]), Print(v));
    }
  }

  /** The values that survive printing and parsing: no line break in a simple string or an error, no null array. */
  predicate Printable(v: Value) {
    match v
    case Simple(s) => Plain(s)
    case Error(s) => Plain(s)
    case Bulk(s) => |s| < I63
    case Arr(vs) => |vs| < I63 && forall i :: 0 <= i < |vs| ==> Printable(vs[i])
    case NullArr => false
    case _ => true
  }

  /** Appends the printed form of each element to the stream in turn. */
  method Encode(v: Value) returns (out: Str)
    ensures out == Print(v)
    decreases v
  {
    if !v.Arr? { return Print(v); }
    out := HeadLine(STAR, Decimal(|v.elems|));
    ghost var head := out;
    for i := 0 to |v.elems|
      invariant out == head + PrintAll(v.elems[..i])
    {
      var e := Encode(v.elems[i]);
      assert v.elems[..i + 1] == v.elems[..i] + [v.elems[i]];
      PrintAllSnoc(v.elems[..i], v.elems[i]);
      Assoc(head, PrintAll(v.elems[..i]), e);
      out := out + e;
    }
    assert v.elems[..|v.elems|] == v.elems;
  }

  /** A command as a value: an array of bulk strings. */
  function Command(args: seq<Str>): (v: Value)
    ensures v.Arr? && |v.elems| == |args| && forall i :: 0 <= i < |args| ==> v.elems[i] == Bulk(args[i])
  {
    Arr(seq(|args|, i requires 0 <= i < |args| => Bulk(args[i])))
  }

  /** The client's own printer agrees with the server's printed form of the command. */
  method EncodeRespArrayCommand(args: seq<Str>) returns (out: Str)
    ensures out == Print(Command(args))
  {
    var head := HeadLine(STAR, Decimal(|args|));
    out := head;
    ghost var vs := Command(args).elems;
    for i := 0 to |args|
      invariant out == head + PrintAll(vs[..i])
    {
      ghost var before := out;
      out := out + HeadLine(DOLLAR, Decimal(|args[i]|));
      out := out + args[i];
      out := out + CRLF;
      assert vs[..i + 1] == vs[..i] + [vs[i]];
      PrintAllSnoc(vs[..i], vs[i]);
      Assoc(before, HeadLine(DOLLAR, Decimal(|args[i]|)), args[i]);
      Assoc(before, HeadLine(DOLLAR, Decimal(|args[i]|)) + args[i], CRLF);
      Assoc(HeadLine(DOLLAR, Decimal(|args[i]|)), args[i], CRLF);
      Assoc(head, PrintAll(vs[..i]), Print(vs[i]));
    }
    assert vs[..|args|] == vs;
  }

  // ----- The bytes on the wire -----

  /** Numerals are base ten, most significant digit first, without leading zeros. */
  lemma DigitsAreBaseTen(n: nat, d: nat)
    requires d < 10
    ensures Digits(d) == [48 + d]
    ensures n > 0 ==> Digits(10 * n + d) == Digits(n) + [48 + d]
  {
    if n > 0 { assert (10 * n + d) / 10 == n && (10 * n + d) % 10 == d; }
  }

  lemma DecimalForm(x: int)
    ensures Decimal(x) == if x < 0 then [45] + Digits(-x) else Digits(x)
    ensures Decimal(-1) == [45, 49]
  {
    DigitsAreBaseTen(0, 1);
    assert Decimal(-1) == [45] + [49];
  }

  /** The printed form of every kind of value in plain bytes: '+', '-', ':', '$' and '*' lines end in CR LF. */
  lemma WireForm(v: Value)
    ensures Print(v) ==
            match v
            case Simple(s) => [43] + s + [13, 10]
            case Error(s) => [45] + s + [13, 10]
            case Int(n) => [58] + (if n < 0 then [45] + Digits(0 - n) else Digits(n)) + [13, 10]
            case Bulk(s) => [36] + Digits(|s|) + [13, 10] + s + [13, 10]
            case NullBulk => [36, 45, 49, 13, 10]
            case Arr(vs) => [42] + Digits(|vs|) + [13, 10] + PrintAll(vs)
            case NullArr => [42, 45, 49, 13, 10]
  {
    match v
    case Int(n) => DecimalForm(n);
    case Bulk(s) =>
      DecimalForm(|s|);
      Assoc([36] + Digits(|s|) + [13, 10], s, [13, 10]);
    case NullBulk =>
      DecimalForm(-1);
      assert [36] + [45, 49] + [13, 10] == [36, 45, 49, 13, 10];
    case Arr(vs) => DecimalForm(|vs|);
    case NullArr =>
      DecimalForm(-1);
      assert [42] + [45, 49] + [13, 10] == [42, 45, 49, 13, 10];
    case _ =>
  }

  /** The elements of an array follow one another with nothing between. */
  lemma {:induction false} ElementsFollow(vs: seq<Value>, ws: seq<Value>)
    ensures PrintAll(vs + ws) == PrintAll(vs) + PrintAll(ws) && (|vs| == 1 ==> PrintAll(vs) == Print(vs[0]))
    decreases |vs|
  {
    if vs == [] {
      assert vs + ws == ws;
      Unit(PrintAll(ws));
    } else {
      ElementsFollow(vs[1..], ws);
      assert (vs + ws)[1..] == vs[1..] + ws;
      Assoc(Print(vs[0]), PrintAll(vs[1..]), PrintAll(ws));
      if |vs| == 1 { assert vs[1..] == []; Unit(Print(vs[0])); }
    }
  }

  /** For example the request PING: "*1\r\n$4\r\nPING\r\n". */
  lemma PingOnTheWire()
    ensures Print(Command([[80, 73, 78, 71]])) == [42, 49, 13, 10, 36, 52, 13, 10, 80, 73, 78, 71, 13, 10]
  {
    var ping: Str := [80, 73, 78, 71];
    var vs := Command([ping]).elems;
    assert vs == [Bulk(ping)];
    ElementsFollow(vs, []);
    DigitsAreBaseTen(0, 1);
    DigitsAreBaseTen(0, 4);
    WireForm(Bulk(ping));
    WireForm(Arr(vs));
    assert Print(Bulk(ping)) == [36, 52, 13, 10, 80, 73, 78, 71, 13, 10];
  }
}
