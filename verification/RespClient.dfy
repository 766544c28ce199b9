/** The client's response parser and the receive loop that feeds it from the socket. */
module RespClient {
  import opened Bytes
  import opened Framing
  import opened Resp

  // ----- One value from the front of a buffer -----

  predicate KnownKind(k: byte) { k == PLUS || k == MINUS || k == COLON || k == DOLLAR || k == STAR }

  /** A bulk string of n bytes whose header took size bytes. */
  function ParseBulk(n: i64, rest: Str, size: nat): (d: Decoded<Value>)
    ensures d.Ok? ==> size <= d.size <= size + |rest|
  {
    if n == -1 then Ok(NullBulk, size)
    else if n < -1 then Corrupt
    else if n + 2 > |rest| then Incomplete
    else if rest[n..n + 2] != CRLF then Corrupt
    else Ok(Bulk(rest[..n]), size + n + 2)
  }

  /** An array, once its elements are known. */
  function Collect(d: Decoded<seq<Value>>, size: nat): Decoded<Value> {
    match d
    case Ok(vs, n) => Ok(Arr(vs), size + n)
    case Incomplete => Incomplete
    case Corrupt => Corrupt
  }

  function ParseOne(b: Str): (d: Decoded<Value>)
    ensures d.Ok? ==> 0 < d.size <= |b|
    decreases |b|, 0
  {
    if b == [] then Incomplete
    else if !KnownKind(b[0]) then Corrupt
    else
      match Head(b)
      case None => Incomplete
      case Some(h) => ParseBody(h)
  }

  /** What follows a header line. */
  function ParseBody(h: Header): (d: Decoded<Value>)
    requires KnownKind(h.kind)
    ensures d.Ok? ==> 0 < d.size <= |h.line| + 3 + |h.rest|
    decreases |h.rest|, 2
  {
    var size := |h.line| + 3;
    if h.kind == PLUS then Ok(Simple(h.line), size)
    else if h.kind == MINUS then Ok(Error(h.line), size)
    else
      match ParseInt(h.line)
      case None => Corrupt
      case Some(n) =>
        if h.kind == COLON then Ok(Int(n), size)
        else if h.kind == DOLLAR then ParseBulk(n, h.rest, size)
        else if n < 0 then Corrupt
        else Collect(ParseElems(h.rest, n), size)
  }

  function ParseElems(b: Str, n: nat): (d: Decoded<seq<Value>>)
    ensures d.Ok? ==> d.size <= |b|
    decreases |b|, 1
  {
    if n == 0 then Ok([], 0)
    else
      match ParseOne(b)
      case Incomplete => Incomplete
      case Corrupt => Corrupt
      case Ok(v, k) => Append([v], k, ParseElems(b[k..], n - 1))
  }

  // ----- Stability: a verdict does not change when more bytes arrive -----

  lemma BulkStable(n: i64, rest: Str, size: nat, more: Str)
    requires !ParseBulk(n, rest, size).Incomplete?
    ensures ParseBulk(n, rest + more, size) == ParseBulk(n, rest, size)
  {
    if 0 <= n && n + 2 <= |rest| {
      SliceOfFront(rest, more, n, n + 2);
      SliceOfFront(rest, more, 0, n);
    }
  }

  lemma ParserIsSound()
    ensures Sound(ParseOne)
  {
    forall b ensures SoundAt(ParseOne, b) {}
  }

  lemma {:induction false} ElemsAreRepeated(b: Str, n: nat)
    ensures Sound(ParseOne) && ParseElems(b, n) == Repeat(ParseOne, b, n)
    decreases n
  {
    ParserIsSound();
    if n > 0 && ParseOne(b).Ok? { ElemsAreRepeated(b[ParseOne(b).size..], n - 1); }
  }

  lemma BodyStable(h: Header, more: Str)
    requires StableUpTo(ParseOne, |h.rest|) && KnownKind(h.kind) && !ParseBody(h).Incomplete?
    ensures ParseBody(Header(h.kind, h.line, h.rest + more)) == ParseBody(h)
  {
    if h.kind != PLUS && h.kind != MINUS && ParseInt(h.line).Some? {
      var n := ParseInt(h.line).value;
      if h.kind == DOLLAR {
        BulkStable(n, h.rest, |h.line| + 3, more);
      } else if h.kind == STAR && n >= 0 {
        ElemsAreRepeated(h.rest, n);
        ElemsAreRepeated(h.rest + more, n);
        RepeatStable(ParseOne, h.rest, n, more);
      }
    }
  }

  lemma {:induction false} StableTo(len: nat)
    ensures StableUpTo(ParseOne, len)
  {
    forall b, more | |b| <= len ensures StableAt(ParseOne, b, more) {
      if b != [] && KnownKind(b[0]) && Head(b).Some? && !ParseOne(b).Incomplete? {
        HeadStable(b, more);
        StableTo(|Head(b).value.rest|);
        BodyStable(Head(b).value, more);
      }
    }
  }

  lemma ParserIsFraming()
    ensures Sound(ParseOne) && Stable(ParseOne)
  {
    ParserIsSound();
    forall b, more ensures StableAt(ParseOne, b, more) { StableTo(|b|); }
  }

  // ----- The parser undoes the printer -----

  lemma LineGives(kind: byte, line: Str, rest: Str)
    requires KnownKind(kind) && Plain(line)
    ensures ParseOne(HeadLine(kind, line) + rest) == ParseBody(Header(kind, line, rest))
  {
    HeadOf(kind, line, rest);
  }

  lemma NumberGives(kind: byte, n: i64, rest: Str)
    requires KnownKind(kind)
    ensures ParseInt(Decimal(n)) == Some(n)
    ensures ParseOne(HeadLine(kind, Decimal(n)) + rest) == ParseBody(Header(kind, Decimal(n), rest))
  {
    DecimalIsPlain(n);
    DecimalRoundTrip(n);
    LineGives(kind, Decimal(n), rest);
  }

  lemma BulkValueReadsBack(s: Str, rest: Str)
    requires |s| < I63
    ensures ParseOne(Print(Bulk(s)) + rest) == Ok(Bulk(s), |Print(Bulk(s))|)
  {
    var h := HeadLine(DOLLAR, Decimal(|s|));
    Assoc(h, s + CRLF, rest);
    NumberGives(DOLLAR, |s|, s + CRLF + rest);
    BulkReadsBack(s, rest, |h|);
  }

  lemma ArrayBody(line: Str, n: nat, b: Str, vs: seq<Value>, k: nat)
    requires n < I63 && ParseInt(line) == Some(n) && ParseElems(b, n) == Ok(vs, k)
    ensures ParseBody(Header(STAR, line, b)) == Ok(Arr(vs), |line| + 3 + k)
  {
  }

  lemma ArrayParses(line: Str, vs: seq<Value>, p: Str, rest: Str)
    requires Plain(line) && |vs| < I63 && ParseInt(line) == Some(|vs|)
    requires ParseElems(p + rest, |vs|) == Ok(vs, |p|)
    ensures ParseOne(HeadLine(STAR, line) + p + rest) == Ok(Arr(vs), |HeadLine(STAR, line) + p|)
  {
    Assoc(HeadLine(STAR, line), p, rest);
    LineGives(STAR, line, p + rest);
    ArrayBody(line, |vs|, p + rest, vs, |p|);
  }

  lemma ArrayReadsBack(vs: seq<Value>, rest: Str)
    requires |vs| < I63 && ParseElems(PrintAll(vs) + rest, |vs|) == Ok(vs, |PrintAll(vs)|)
    ensures ParseOne(Print(Arr(vs)) + rest) == Ok(Arr(vs), |Print(Arr(vs))|)
  {
    DecimalIsPlain(|vs|);
    DecimalRoundTrip(|vs|);
    ArrayParses(Decimal(|vs|), vs, PrintAll(vs), rest);
  }

  lemma {:induction false} OneReadsBack(v: Value, rest: Str)
    requires Printable(v)
    ensures ParseOne(Print(v) + rest) == Ok(v, |Print(v)|)
    decreases v
  {
    match v {
      case Simple(s) => LineGives(PLUS, s, rest);
      case Error(s) => LineGives(MINUS, s, rest);
      case Int(n) => NumberGives(COLON, n, rest);
      case Bulk(s) => BulkValueReadsBack(s, rest);
      case NullBulk => NumberGives(DOLLAR, -1, rest);
      case Arr(vs) =>
        ElemsReadBack(vs, rest);
        ArrayReadsBack(vs, rest);
    }
  }

  lemma BulkReadsBack(s: Str, rest: Str, size: nat)
    requires |s| < I63
    ensures ParseBulk(|s|, s + CRLF + rest, size) == Ok(Bulk(s), size + |s| + 2)
  {
    var b := s + CRLF + rest;
    assert b[..|s|] == s && b[|s|..|s| + 2] == CRLF;
  }

  lemma {:induction false} ElemsReadBack(vs: seq<Value>, rest: Str)
    requires forall i :: 0 <= i < |vs| ==> Printable(vs[i])
    ensures ParseElems(PrintAll(vs) + rest, |vs|) == Ok(vs, |PrintAll(vs)|)
    decreases vs
  {
    if vs != [] {
      var p, tail := Print(vs[0]), PrintAll(vs[1..]);
      OneReadsBack(vs[0], tail + rest);
      ElemsReadBack(vs[1..], rest);
      Assoc(p, tail, rest);
      assert (p + (tail + rest))[|p|..] == tail + rest;
      assert [vs[0]] + vs[1..] == vs;
    }
  }

  /** Whatever the parser returns is printable. */
  lemma {:induction false} OneYieldsPrintable(b: Str)
    requires ParseOne(b).Ok? && |b| < I63
    ensures Printable(ParseOne(b).m)
    decreases |b|, 0
  {
    var h := Head(b).value;
    HeadIsPlain(b);
    if h.kind == STAR {
      var n := ParseInt(h.line).value;
      ElemsYieldPrintable(h.rest, n);
    }
  }

  lemma {:induction false} ElemsYieldPrintable(b: Str, n: nat)
    requires ParseElems(b, n).Ok? && |b| < I63
    ensures |ParseElems(b, n).m| == n && forall i :: 0 <= i < n ==> Printable(ParseElems(b, n).m[i])
    decreases |b|, 1
  {
    if n > 0 {
      OneYieldsPrintable(b);
      ElemsYieldPrintable(b[ParseOne(b).size..], n - 1);
    }
  }

  /** A value comes back whole, with its exact size and whatever follows it, exactly when it is printable. */
  lemma RoundTripIff(v: Value, rest: Str)
    requires |Print(v) + rest| < I63
    ensures ParseOne(Print(v) + rest) == Ok(v, |Print(v)|) <==> Printable(v)
  {
    if Printable(v) { OneReadsBack(v, rest); }
    if ParseOne(Print(v) + rest) == Ok(v, |Print(v)|) { OneYieldsPrintable(Print(v) + rest); }
  }

  /** Every strict prefix of a printed value is incomplete. */
  lemma CutIsIncomplete(v: Value, n: nat)
    requires Printable(v) && n < |Print(v)|
    ensures ParseOne(Print(v)[..n]).Incomplete?
  {
    ParserIsFraming();
    OneReadsBack(v, []);
    Unit(Print(v));
    CutFromStable(ParseOne, Print(v), v, n);
  }

  ghost predicate AllPrintable(vs: seq<Value>) { forall i :: 0 <= i < |vs| ==> Printable(vs[i]) }

  lemma ValuesAreFramed(vs: seq<Value>)
    requires AllPrintable(vs)
    ensures AllFramed(ParseOne, Print, vs)
  {
    forall i | 0 <= i < |vs| ensures Framed(ParseOne, Print, vs[i]) {
      forall rest ensures ReadsBack(ParseOne, Print, vs[i], rest) { OneReadsBack(vs[i], rest); }
      forall n: nat ensures CutTolerated(ParseOne, Print, vs[i], n) {
        if 0 < n < |Print(vs[i])| { CutIsIncomplete(vs[i], n); }
      }
    }
  }

  // ----- The parser as it runs -----

  method FindCRLF(input: Str, start: nat) returns (r: Option<nat>)
    ensures r == CRLFAt(input, start)
  {
    var i := start;
    while i + 1 < |input|
      invariant CRLFAt(input, start) == CRLFAt(input, i)
    {
      if input[i] == CR && input[i + 1] == LF { return Some(i); }
      i := i + 1;
    }
    r := None;
  }

  method Parse(input: Str) returns (d: Decoded<Value>)
    ensures d == ParseOne(input)
    decreases |input|, 1
  {
    if input == [] { return Incomplete; }
    var kind := input[0];
    if !KnownKind(kind) { return Corrupt; }
    var end := FindCRLF(input, 1);
    if end.None? { return Incomplete; }
    var line, rest := input[1..end.value], input[end.value + 2..];
    assert Head(input) == Some(Header(kind, line, rest));
    if kind == PLUS { return Ok(Simple(line), end.value + 2); }
    if kind == MINUS { return Ok(Error(line), end.value + 2); }
    var n := ParseInt(line);
    if n.None? { return Corrupt; }
    if kind == COLON { return Ok(Int(n.value), end.value + 2); }
    if kind == DOLLAR {
      d := ParseBulk(n.value, rest, end.value + 2);
    } else if n.value < 0 {
      d := Corrupt;
    } else {
      var elems := ParseElements(rest, n.value);
      d := Collect(elems, end.value + 2);
    }
  }

  /** One element, and what it means for the whole array. */
  method ParseElement(input: Str, ghost n: nat, ghost elems: seq<Value>, offset: nat) returns (sub: Decoded<Value>)
    requires Sound(ParseOne) && |elems| < n && offset <= |input| && RepeatedTo(ParseOne, input, n, elems, offset)
    ensures RepeatStepped(ParseOne, input, n, elems, offset, sub)
    decreases |input|, 2
  {
    RepeatedToStep(ParseOne, input, n, elems, offset);
    sub := Parse(input[offset..]);
  }

  method ParseElements(input: Str, n: nat) returns (d: Decoded<seq<Value>>)
    ensures d == ParseElems(input, n)
    decreases |input|, 4
  {
    ElemsAreRepeated(input, n);
    d := ParseRepeated(input, n);
  }

  /** The element loop. */
  method ParseRepeated(input: Str, n: nat) returns (d: Decoded<seq<Value>>)
    requires Sound(ParseOne)
    ensures d == Repeat(ParseOne, input, n)
    decreases |input|, 3
  {
    RepeatedToStart(ParseOne, input, n);
    var offset: nat, elems: seq<Value> := 0, [];
    while |elems| < n
      invariant offset <= |input| && RepeatedTo(ParseOne, input, n, elems, offset)
    {
      var sub := ParseElement(input, n, elems, offset);
      if !sub.Ok? {
        return if sub.Incomplete? then Incomplete else Corrupt;
      }
      offset := offset + sub.size;
      elems := elems + [sub.m];
    }
    RepeatedToEnd(ParseOne, input, n, elems, offset);
    d := Ok(elems, offset);
  }

  // ----- Receiving responses -----

  /** Whether a response ends the pipeline early. */
  function Stops(failOnError: bool): Value -> bool { (v: Value) => failOnError && v.Error? }

  /** What a pipeline of n commands returns for the bytes b, and the bytes it leaves unread. */
  ghost function Responses(b: Str, acc: seq<Value>, n: nat, failOnError: bool): (Received<Value>, Str)
    requires |acc| <= n
  {
    ParserIsSound();
    Receive(ParseOne, Stops(failOnError), b, acc, n)
  }

  ghost predicate NoErrors(vs: seq<Value>) { forall i :: 0 <= i < |vs| ==> !vs[i].Error? }

  /** The responses the server printed come back in order, and nothing after them is touched. */
  lemma PipelineReadsResponses(vs: seq<Value>, rest: Str, failOnError: bool)
    requires AllPrintable(vs) && (failOnError ==> NoErrors(vs))
    ensures Responses(Framing.Encode(Print, vs) + rest, [], |vs|, failOnError) == (Values(vs), rest)
  {
    ParserIsSound();
    ValuesAreFramed(vs);
    ReceiveFrames(ParseOne, Print, Stops(failOnError), vs, rest, [], |vs|);
    assert [] + vs == vs;
  }

  /** With failOnError the first error response ends the pipeline and names its command. */
  lemma PipelineStopsAtError(vs: seq<Value>, e: Value, rest: Str, n: nat)
    requires AllPrintable(vs) && NoErrors(vs) && Printable(e) && e.Error? && n > |vs|
    ensures Responses(Framing.Encode(Print, vs) + (Print(e) + rest), [], n, true) == (StoppedAt(|vs|), rest)
  {
    ParserIsSound();
    ValuesAreFramed(vs);
    ReceiveFrames(ParseOne, Print, Stops(true), vs, Print(e) + rest, [], n);
    assert [] + vs == vs;
    OneReadsBack(e, rest);
    ReceiveOne(ParseOne, Stops(true), Print(e), rest, e, vs, n);
  }

  /** What happens at one turn of the receive loop: bytes, an interrupted call, a timeout or an error. */
  datatype Arrival = Data(bytes: Str) | Interrupted | TimedOut | Broken

  datatype Reply = Got(v: Value) | BadReply | Timeout | Disconnected

  /** The bytes that arrive before the first failure; when nothing more arrives the peer has closed. */
  function Delivered(arrivals: seq<Arrival>): Str {
    if arrivals == [] then []
    else
      match arrivals[0]
      case Data(s) => s + Delivered(arrivals[1..])
      case Interrupted => Delivered(arrivals[1..])
      case _ => []
  }

  /** The failure they end in. */
  function Failure(arrivals: seq<Arrival>): Reply {
    if arrivals == [] || arrivals[0].Broken? then Disconnected
    else if arrivals[0].TimedOut? then Timeout
    else Failure(arrivals[1..])
  }

  datatype PipelineReply =
    | Responded(vs: seq<Value>)
    | Refused(index: nat)
    | BadResponse
    | NoResponse
    | LostConnection
    | NotSent
    | BadArgument
    | NotConnected

  /** What the buffered bytes say about the value at the front of everything to come. */
  method ParseBuffered(inbuf: Str, ghost rest: Str) returns (d: Decoded<Value>)
    ensures d.Ok? ==> d.size <= |inbuf|
    ensures !d.Incomplete? || rest == [] ==> ParseOne(inbuf + rest) == d
  {
    ParserIsFraming();
    assert StableAt(ParseOne, inbuf, rest);
    d := Parse(inbuf);
    if rest == [] { Unit(inbuf); }
  }

  class Connection {
    var connected: bool
    var inbuf: Str
    var arrivals: seq<Arrival>
    /** What has been handed to the socket. */
    ghost var sent: Str

    constructor (arrivals: seq<Arrival>)
      ensures connected && inbuf == [] && this.arrivals == arrivals && sent == []
    {
      connected, inbuf, this.arrivals, sent := true, [], arrivals, [];
    }

    ghost function Unread(): Str
      reads this
    {
      inbuf + Delivered(arrivals)
    }

    method Close()
      modifies this`connected, this`inbuf
      ensures !connected && inbuf == []
    {
      connected, inbuf := false, [];
    }

    /** However the bytes are divided into chunks, the next value is the one at their front. */
    method RecvOne() returns (r: Reply)
      modifies this`inbuf, this`arrivals
      ensures match ParseOne(old(Unread()))
              case Ok(v, k) =>
                r == Got(v) && Unread() == old(Unread())[k..] && Failure(arrivals) == old(Failure(arrivals))
              case Corrupt => r == BadReply && Unread() == old(Unread())
              case Incomplete => r == old(Failure(arrivals)) && inbuf == old(Unread())
    {
      ghost var all, failure := Unread(), Failure(arrivals);
      while true
        invariant Unread() == all && Failure(arrivals) == failure
        decreases |arrivals|
      {
        var parsed := ParseBuffered(inbuf, Delivered(arrivals));
        if parsed.Corrupt? { return BadReply; }
        if parsed.Ok? {
          inbuf := inbuf[parsed.size..];
          return Got(parsed.m);
        }
        Unit(inbuf);
        if arrivals == [] { return Disconnected; }
        var a := arrivals[0];
        if a.Data? { Assoc(inbuf, a.bytes, Delivered(arrivals[1..])); }
        arrivals := arrivals[1..];
        if a.TimedOut? { return Timeout; }
        if a.Broken? { return Disconnected; }
        if a.Data? { inbuf := inbuf + a.bytes; }
      }
    }

    /** The socket takes the request piece by piece, or fails on the way. */
    method SendAll(request: Str) returns (ok: bool)
      modifies this`sent
      ensures old(sent) <= sent <= old(sent) + request && (ok <==> sent == old(sent) + request)
    {
      var off := 0;
      Unit(sent);
      assert request[..0] == [];
      while off < |request|
        invariant 0 <= off <= |request| && sent == old(sent) + request[..off]
      {
        var n: int :| n <= |request| - off;
        if n <= 0 { return false; }
        assert request[..off] + request[off..off + n] == request[..off + n];
        Assoc(old(sent), request[..off], request[off..off + n]);
        sent := sent + request[off..off + n];
        off := off + n;
      }
      assert request[..off] == request;
      ok := true;
    }

    /** The state and the answer of a pipeline after its responses: what was received decides both. */
    twostate predicate Answered(n: nat, failOnError: bool, closeOnError: bool, r: PipelineReply)
      reads this
    {
      var (res, left) := Responses(old(Unread()), [], n, failOnError);
      match res
      case Values(vs) => r == Responded(vs) && Unread() == left && connected
      case Malformed => r == BadResponse && Unread() == left && connected
      case StoppedAt(i) =>
        r == Refused(i) && if closeOnError then !connected && inbuf == [] else Unread() == left && connected
      case RanOut =>
        if old(Failure(arrivals)).Timeout? then r == NoResponse && inbuf == left && connected
        else r == LostConnection && !connected && inbuf == []
    }

    /** One response per command, in order. */
    method ReceiveResponses(n: nat, failOnError: bool, closeOnError: bool) returns (r: PipelineReply)
      requires connected
      modifies this`inbuf, this`arrivals, this`connected
      ensures Answered(n, failOnError, closeOnError, r)
    {
      var out: seq<Value> := [];
      ghost var all, failure := Unread(), Failure(arrivals);
      FailureKinds(arrivals);
      while |out| < n
        invariant |out| <= n && connected && Failure(arrivals) == failure
        invariant Responses(all, [], n, failOnError) == Responses(Unread(), out, n, failOnError)
      {
        var rr := RecvOne();
        if rr.BadReply? { return BadResponse; }
        if rr.Timeout? { return NoResponse; }
        if rr.Disconnected? {
          Close();
          return LostConnection;
        }
        if failOnError && rr.v.Error? {
          if closeOnError { Close(); }
          return Refused(|out|);
        }
        out := out + [rr.v];
      }
      r := Responded(out);
    }

    /** All commands in one request, then one response each. */
    method Pipeline(commands: seq<seq<Str>>, failOnError: bool, closeOnError: bool) returns (r: PipelineReply)
      modifies this
      ensures !old(connected) ==> r == NotConnected && sent == old(sent)
      ensures old(connected) && (commands == [] || [] in commands) ==> r == BadArgument && sent == old(sent)
      ensures r != NotConnected && r != BadArgument && r != NotSent ==>
                sent == old(sent) + Requests(commands) && Answered(|commands|, failOnError, closeOnError, r)
      ensures r == NotSent ==> old(sent) <= sent < old(sent) + Requests(commands) && Unread() == old(Unread())
    {
      if !connected { return NotConnected; }
      if commands == [] { return BadArgument; }
      var request := [];
      for i := 0 to |commands|
        invariant request == Requests(commands[..i]) && [] !in commands[..i]
        invariant connected && inbuf == old(inbuf) && arrivals == old(arrivals) && sent == old(sent)
      {
        if commands[i] == [] { return BadArgument; }
        var e := EncodeRespArrayCommand(commands[i]);
        assert commands[..i + 1] == commands[..i] + [commands[i]];
        RequestsSnoc(commands[..i], commands[i]);
        request := request + e;
      }
      assert commands[..|commands|] == commands;
      var ok := SendAll(request);
      if !ok { return NotSent; }
      r := ReceiveResponses(|commands|, failOnError, closeOnError);
    }
  }

  lemma {:induction false} FailureKinds(arrivals: seq<Arrival>)
    ensures Failure(arrivals).Timeout? || Failure(arrivals).Disconnected?
  {
    if arrivals != [] { FailureKinds(arrivals[1..]); }
  }

  /** The printed commands one after the other. */
  function Requests(commands: seq<seq<Str>>): Str {
    if commands == [] then [] else Requests(commands[..|commands| - 1]) + Print(Command(commands[|commands| - 1]))
  }

  lemma RequestsSnoc(commands: seq<seq<Str>>, c: seq<Str>)
    ensures Requests(commands + [c]) == Requests(commands) + Print(Command(c))
  {
    assert (commands + [c])[..|commands|] == commands;
  }
}
