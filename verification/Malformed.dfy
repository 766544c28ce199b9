/** Input that both RESP parsers turn down, told in bytes. */
module Malformed {
  import opened Bytes
  import opened Framing
  import opened Resp
  import RespClient
  import RespServer

  predicate TypeByte(b: byte) { b == 43 || b == 45 || b == 58 || b == 36 || b == 42 }

  /** Only digits are numbers, behind at most one minus sign, and only within 64 bits. */
  lemma NumbersAreDigits(s: Str)
    ensures ParseInt(s).Some? ==> s != [] && s != [45]
    ensures ParseInt(s).Some? ==> forall i :: 0 <= i < |s| ==> 48 <= s[i] <= 57 || (i == 0 && s[i] == 45)
  {
    var digits := if s != [] && s[0] == 45 then s[1..] else s;
    DigitsOnly(digits);
    if ParseInt(s).Some? {
      forall i | 0 <= i < |s| ensures 48 <= s[i] <= 57 || (i == 0 && s[i] == 45) {
        if s[0] == 45 && i > 0 { assert s[i] == digits[i - 1]; }
      }
    }
  }

  // ----- The client -----

  /** A value must begin with one of the five type bytes. */
  lemma ClientWantsType(b: Str)
    requires b != [] && !TypeByte(b[0])
    ensures RespClient.ParseOne(b).Corrupt?
  {
  }

  /** ':', '$' and '*' want a number, which may be -1 for '$' only and must not be less. */
  lemma ClientWantsNumber(kind: byte, line: Str, rest: Str)
    requires (kind == 58 || kind == 36 || kind == 42) && Plain(line)
    requires ParseInt(line).None? || (kind == 36 && ParseInt(line).value < -1)
             || (kind == 42 && ParseInt(line).value < 0)
    ensures RespClient.ParseOne([kind] + line + [13, 10] + rest).Corrupt?
  {
    HeadOf(kind, line, rest);
  }

  /** The body of a bulk string must be followed by CR LF. */
  lemma ClientWantsTerminator(line: Str, rest: Str, n: nat)
    requires Plain(line) && ParseInt(line) == Some(n) && n + 2 <= |rest| && rest[n..n + 2] != [13, 10]
    ensures RespClient.ParseOne([36] + line + [13, 10] + rest).Corrupt?
  {
    HeadOf(36, line, rest);
    assert RespClient.ParseBulk(n, rest, |line| + 3).Corrupt?;
    assert RespClient.ParseBody(Header(36, line, rest)) == RespClient.ParseBulk(n, rest, |line| + 3);
  }

  // ----- The server -----

  lemma ServerWantsType(stack: seq<RespServer.Frame>, d: Str)
    requires d != [] && !TypeByte(d[0])
    ensures RespServer.Go(RespServer.Machine(RespServer.Start, stack), d).Failed?
  {
  }

  lemma LineThenBreak(line: Str, rest: Str)
    requires Plain(line)
    ensures var d := line + [13, 10] + rest; CRLFAt(d, 0) == Some(|line|) && d[..|line|] == line
  {
    var d := line + [13, 10] + rest;
    forall j | 0 <= j < |line| ensures !IsCRLF(d, j) {
      assert !IsCRLF(line, j);
      assert d[j] == line[j] && (j + 1 < |line| ==> d[j + 1] == line[j + 1]);
    }
    CRLFAtIs(d, 0, |line|);
  }

  /** The server reads numbers its own way; -1 is allowed for '$' and '*', less is not. */
  lemma ServerWantsNumber(stack: seq<RespServer.Frame>, kind: byte, line: Str, rest: Str)
    requires (kind == 58 || kind == 36 || kind == 42) && Plain(line)
    requires RespServer.ServerInt(line).None? || (kind != 58 && RespServer.ServerInt(line).value < -1)
    ensures RespServer.Go(RespServer.Machine(RespServer.Line(kind), stack), line + [13, 10] + rest).Failed?
  {
    LineThenBreak(line, rest);
    var m, d := RespServer.Machine(RespServer.Line(kind), stack), line + [13, 10] + rest;
    assert RespServer.Step(m, d) == RespServer.TakeLine(stack, kind, line);
  }

  lemma ServerWantsTerminator(stack: seq<RespServer.Frame>, size: nat, got: Str, d: Str)
    requires |got| <= size && size - |got| + 2 <= |d| && d[size - |got|..size - |got| + 2] != [13, 10]
    ensures RespServer.Go(RespServer.Machine(RespServer.Body(size, got), stack), d).Failed?
  {
    var m := RespServer.Machine(RespServer.Body(size, got), stack);
    assert RespServer.Step(m, d) == RespServer.TakeBody(stack, size, got, d);
  }

  /** The server's numbers: digits behind at most one minus sign; a lone minus sign passes. */
  lemma ServerNumbersAreDigits(s: Str)
    ensures RespServer.ServerInt(s).Some? ==> s != []
    ensures RespServer.ServerInt(s).Some? ==> forall i :: 0 <= i < |s| ==> 48 <= s[i] <= 57 || (i == 0 && s[i] == 45)
  {
    var digits := if s != [] && s[0] == 45 then s[1..] else s;
    DigitsOnly(digits);
    if RespServer.ServerInt(s).Some? {
      forall i | 0 <= i < |s| ensures 48 <= s[i] <= 57 || (i == 0 && s[i] == 45) {
        if s[0] == 45 && i > 0 { assert s[i] == digits[i - 1]; }
      }
    }
  }
}
