/** Bytes, machine integers and the length-prefixed strings shared by every codec. */
module Bytes {
  type byte = b: int | 0 <= b < 256
  type Str = seq<byte>

  const U32: nat := 0x1_0000_0000
  const U64: nat := 0x1_0000_0000_0000_0000
  const I63: int := 0x8000_0000_0000_0000

  type i64 = x: int | -0x8000_0000_0000_0000 <= x < 0x8000_0000_0000_0000
  type u64 = x: int | 0 <= x < 0x1_0000_0000_0000_0000

  datatype Option<+T> = None | Some(value: T)

  /** Two's-complement reinterpretation of a 64-bit pattern. */
  function ToSigned(u: nat): (v: i64)
    requires u < U64
    ensures v % U64 == u
  {
    if u < I63 then u else u - U64
  }

  /** Signed 64-bit arithmetic that wraps on overflow. */
  function Wrap64(x: int): (v: i64)
    ensures v % U64 == x % U64
    ensures -I63 <= x < I63 ==> v == x
  {
    ToSigned(x % U64)
  }

  function Pow256(n: nat): (p: nat)
    ensures p > 0
  {
    if n == 0 then 1 else 256 * Pow256(n - 1)
  }

  lemma Pow256Widths()
    ensures Pow256(4) == U32 && Pow256(8) == U64
  {
    assert Pow256(2) == 0x1_0000;
    assert Pow256(4) == 256 * (256 * Pow256(2));
    assert Pow256(6) == 256 * (256 * Pow256(4));
    assert Pow256(8) == 256 * (256 * Pow256(6));
  }

  /** The low n bytes of v, least significant first; higher bytes are cut off. */
  function LE(v: nat, n: nat): (s: Str)
    ensures |s| == n
  {
    if n == 0 then [] else [v % 256] + LE(v / 256, n - 1)
  }

  function UnLE(s: Str): (v: nat)
  {
    if s == [] then 0 else s[0] + 256 * UnLE(s[1..])
  }

  lemma {:induction false} UnLEBound(s: Str)
    ensures UnLE(s) < Pow256(|s|)
  {
    if s != [] {
      UnLEBound(s[1..]);
    }
  }

  lemma {:induction false} UnLEInvertsLE(v: nat, n: nat)
    requires v < Pow256(n)
    ensures UnLE(LE(v, n)) == v
  {
    if n != 0 {
      UnLEInvertsLE(v / 256, n - 1);
      assert LE(v, n)[1..] == LE(v / 256, n - 1);
    }
  }

  /** The 32-bit little-endian word at offset off. */
  function U32At(b: Str, off: nat): (v: nat)
    requires off + 4 <= |b|
    ensures v < U32
  {
    UnLEBound(b[off..off + 4]);
    Pow256Widths();
    UnLE(b[off..off + 4])
  }

  function U64At(b: Str, off: nat): (v: nat)
    requires off + 8 <= |b|
    ensures v < U64
  {
    UnLEBound(b[off..off + 8]);
    Pow256Widths();
    UnLE(b[off..off + 8])
  }

  lemma U32AtLE(b: Str, off: nat, v: nat)
    requires off + 4 <= |b| && b[off..off + 4] == LE(v, 4)
    requires v < U32
    ensures U32At(b, off) == v
  {
    Pow256Widths();
    UnLEInvertsLE(v, 4);
  }

  lemma U64AtLE(b: Str, off: nat, v: nat)
    requires off + 8 <= |b| && b[off..off + 8] == LE(v, 8)
    requires v < U64
    ensures U64At(b, off) == v
  {
    Pow256Widths();
    UnLEInvertsLE(v, 8);
  }

  /** A length-prefixed string: u32 length, then the bytes. */
  function EncStr(s: Str): (b: Str)
    ensures |b| == 4 + |s|
  {
    LE(|s|, 4) + s
  }

  /** Reads one length-prefixed string from the front of b; the result pairs it with the bytes after it. */
  function StrFrom(b: Str): (r: Option<(Str, Str)>)
    ensures r.Some? ==> |r.value.0| < U32 && |b| == 4 + |r.value.0| + |r.value.1|
    ensures r.Some? ==> b[4 + |r.value.0|..] == r.value.1
  {
    if |b| < 4 then None
    else
      var n := U32At(b, 0);
      if 4 + n > |b| then None else Some((b[4..4 + n], b[4 + n..]))
  }

  lemma StrFromEncStr(s: Str, rest: Str)
    requires |s| < U32
    ensures StrFrom(EncStr(s) + rest) == Some((s, rest))
  {
    U32AtLE(EncStr(s) + rest, 0, |s|);
  }

  lemma Assoc(a: Str, b: Str, c: Str)
    ensures a + b + c == a + (b + c)
  {
  }

  lemma Unit(a: Str)
    ensures [] + a == a == a + []
  {
  }

  lemma SliceOfFront(b: Str, more: Str, i: nat, j: nat)
    requires i <= j <= |b|
    ensures (b + more)[i..j] == b[i..j]
  {
  }

  /** The four parts of a concatenation, by offset. */
  lemma FourParts(a: Str, b: Str, c: Str, d: Str)
    ensures var e, i, j, k := a + b + c + d, |a|, |a| + |b|, |a| + |b| + |c|;
            |e| == k + |d| && e[..i] == a && e[i..j] == b && e[j..k] == c && e[k..] == d
  {
    var e := a + b + c + d;
    assert e[..|a| + |b| + |c|] == a + b + c;
  }

  /** A buffer that starts with e: dropping e, or cutting before and after its end. */
  lemma SplitFront(e: Str, rest: Str, n: nat)
    requires n <= |e| + |rest|
    ensures (e + rest)[|e|..] == rest
    ensures n <= |e| ==> (e + rest)[..n] == e[..n]
    ensures n >= |e| ==> (e + rest)[..n] == e + rest[..n - |e|]
  {
  }

  function Concat(parts: seq<Str>): (b: Str)
  {
    if parts == [] then [] else parts[0] + Concat(parts[1..])
  }

  lemma {:induction false} ConcatAppend(a: seq<Str>, b: seq<Str>)
    ensures Concat(a + b) == Concat(a) + Concat(b)
  {
    if a == [] {
      assert a + b == b;
      Unit(Concat(b));
    } else {
      ConcatAppend(a[1..], b);
      assert (a + b)[1..] == a[1..] + b;
      Assoc(a[0], Concat(a[1..]), Concat(b));
    }
  }

  lemma ConcatSnoc(a: seq<Str>, x: Str)
    ensures Concat(a + [x]) == Concat(a) + x
  {
    ConcatAppend(a, [x]);
    assert [x][1..] == [];
    assert Concat([x]) == x + Concat([x][1..]);
  }

  // ----- The in-place readers and writers -----

  lemma {:induction false} UnLESnoc(s: Str, b: byte)
    ensures UnLE(s + [b]) == UnLE(s) + b * Pow256(|s|)
  {
    if s == [] {
      assert [b][1..] == [];
    } else {
      UnLESnoc(s[1..], b);
      assert (s + [b])[1..] == s[1..] + [b];
      assert b * Pow256(|s|) == 256 * (b * Pow256(|s| - 1));
    }
  }

  method AppendLE(buf: Str, v: nat, n: nat) returns (out: Str)
    ensures out == buf + LE(v, n)
  {
    out := buf;
    var u := v;
    for i := 0 to n
      invariant out + LE(u, n - i) == buf + LE(v, n)
    {
      Assoc(out, [u % 256], LE(u / 256, n - i - 1));
      out := out + [u % 256];
      u := u / 256;
    }
    Unit(out);
  }

  method AppendString(buf: Str, s: Str) returns (out: Str)
    ensures out == buf + EncStr(s)
  {
    out := AppendLE(buf, |s|, 4);
    Assoc(buf, LE(|s|, 4), s);
    out := out + s;
  }

  /** Reads an n-byte little-endian word; the offset moves only on success. */
  method ReadLE(data: Str, off: nat, n: nat) returns (ok: bool, v: nat, next: nat)
    ensures ok <==> off + n <= |data|
    ensures ok ==> v == UnLE(data[off..off + n]) && next == off + n
    ensures !ok ==> next == off
  {
    v, next := 0, off;
    ok := off + n <= |data|;
    if ok {
      var scale: nat := 1;
      for i := 0 to n
        invariant scale == Pow256(i) && v == UnLE(data[off..off + i])
      {
        UnLESnoc(data[off..off + i], data[off + i]);
        assert data[off..off + i] + [data[off + i]] == data[off..off + i + 1];
        v := v + data[off + i] * scale;
        scale := 256 * scale;
      }
      next := off + n;
    }
  }

  method ReadString(data: Str, off: nat) returns (ok: bool, s: Str, next: nat)
    requires off <= |data|
    ensures ok <==> StrFrom(data[off..]).Some?
    ensures ok ==> off < next <= |data| && StrFrom(data[off..]).value == (s, data[next..])
  {
    var n;
    s := [];
    ok, n, next := ReadLE(data, off, 4);
    if ok {
      assert data[off..][0..4] == data[off..off + 4];
      ok := next + n <= |data|;
      if ok {
        s := data[next..next + n];
        assert data[off..][4..4 + n] == s && data[off..][4 + n..] == data[next + n..];
        next := next + n;
      }
    }
  }
}
