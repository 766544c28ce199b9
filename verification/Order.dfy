/** The order of std::set and std::map keys: lexicographic on unsigned bytes. */
module Order {
  import opened Bytes

  predicate Le(a: Str, b: Str) {
    a == [] || (b != [] && (a[0] < b[0] || (a[0] == b[0] && Le(a[1..], b[1..]))))
  }

  lemma {:induction false} LeTotal(a: Str, b: Str)
    ensures Le(a, b) || Le(b, a)
  {
    if a != [] && b != [] {
      LeTotal(a[1..], b[1..]);
    }
  }

  lemma {:induction false} LeAntisymmetric(a: Str, b: Str)
    requires Le(a, b) && Le(b, a)
    ensures a == b
  {
    if a != [] && b != [] {
      LeAntisymmetric(a[1..], b[1..]);
      assert a == [a[0]] + a[1..] && b == [b[0]] + b[1..];
    }
  }

  lemma {:induction false} LeTransitive(a: Str, b: Str, c: Str)
    requires Le(a, b) && Le(b, c)
    ensures Le(a, c)
  {
    if a != [] && a[0] == b[0] == c[0] {
      LeTransitive(a[1..], b[1..], c[1..]);
    }
  }

  predicate IsMin(m: Str, s: set<Str>) {
    m in s && forall x :: x in s ==> Le(m, x)
  }

  lemma {:induction false} MinExists(s: set<Str>) returns (m: Str)
    requires s != {}
    ensures IsMin(m, s)
    decreases |s|
  {
    var p :| p in s;
    LeTotal(p, p);
    if s != {p} {
      var rest := s - {p};
      assert s == {p} + rest;
      var q := MinExists(rest);
      LeTotal(p, q);
      if Le(p, q) {
        forall x | x in s ensures Le(p, x) {
          if x != p { LeTransitive(p, q, x); }
        }
        m := p;
      } else {
        m := q;
      }
    } else {
      m := p;
    }
  }

  function Min(s: set<Str>): (m: Str)
    requires s != {}
    ensures IsMin(m, s)
  {
    assert exists m :: IsMin(m, s) by { var m := MinExists(s); }
    assert forall a, b | IsMin(a, s) && IsMin(b, s) :: a == b by {
      forall a, b | IsMin(a, s) && IsMin(b, s) ensures a == b {
        LeAntisymmetric(a, b);
      }
    }
    var m :| m in s && IsMin(m, s);
    m
  }

  predicate StrictlySorted(q: seq<Str>) {
    forall i, j :: 0 <= i < j < |q| ==> Le(q[i], q[j]) && q[i] != q[j]
  }

  /** The members of s in container iteration order. */
  function Sorted(s: set<Str>): (q: seq<Str>)
    ensures |q| == |s|
    ensures forall x :: x in q <==> x in s
  {
    if s == {} then []
    else
      var m := Min(s);
      assert s == {m} + (s - {m});
      [m] + Sorted(s - {m})
  }

  lemma ConsSorted(m: Str, rest: seq<Str>)
    requires StrictlySorted(rest)
    requires forall x :: x in rest ==> Le(m, x) && m != x
    ensures StrictlySorted([m] + rest)
  {
    var q := [m] + rest;
    forall i, j | 0 <= i < j < |q| ensures Le(q[i], q[j]) && q[i] != q[j] {
      assert q[j] == rest[j - 1];
    }
  }

  lemma {:induction false} SortedIsSorted(s: set<Str>)
    ensures StrictlySorted(Sorted(s))
  {
    if s != {} {
      var m := Min(s);
      SortedIsSorted(s - {m});
      ConsSorted(m, Sorted(s - {m}));
    }
  }
}
