/** The sort by printed name, `sorted_by_str` of site_scons/libdeps.py. */
module StableOrder {

  /** Lexicographic order of strings. */
  predicate AtMost(a: string, b: string) {
    a == [] || (b != [] && (a[0] < b[0] || (a[0] == b[0] && AtMost(a[1..], b[1..]))))
  }

  lemma {:induction false} AtMostTotal(a: string, b: string)
    ensures AtMost(a, b) || AtMost(b, a)
  {
    if a != [] && b != [] && a[0] == b[0] { AtMostTotal(a[1..], b[1..]); }
  }

  lemma {:induction false} AtMostAntisymmetric(a: string, b: string)
    requires AtMost(a, b) && AtMost(b, a)
    ensures a == b
  {
    if a != [] && b != [] {
      AtMostAntisymmetric(a[1..], b[1..]);
      assert a == [a[0]] + a[1..] && b == [b[0]] + b[1..];
    }
  }

  lemma {:induction false} AtMostTransitive(a: string, b: string, c: string)
    requires AtMost(a, b) && AtMost(b, c)
    ensures AtMost(a, c)
  {
    if a != [] && a[0] == b[0] && b[0] == c[0] { AtMostTransitive(a[1..], b[1..], c[1..]); }
  }

  /** The first difference decides, and a prefix comes first. */
  lemma {:induction false} AtMostForm(p: string, u: string, v: string)
    ensures AtMost(p + u, p + v) <==> u == [] || (v != [] && (u[0] < v[0] || (u[0] == v[0] && AtMost(u, v))))
  {
    if p == [] {
      assert p + u == u && p + v == v;
    } else {
      AtMostForm(p[1..], u, v);
      assert (p + u)[1..] == p[1..] + u && (p + v)[1..] == p[1..] + v;
    }
  }

  /** `r` lists the nodes of `s` once each, by name. */
  ghost predicate Lists<N>(r: seq<N>, s: set<N>, str: N -> string) {
    && (forall x :: x in s ==> x in r)
    && (forall i :: 0 <= i < |r| ==> r[i] in s)
    && (forall i, j :: 0 <= i < j < |r| ==> r[i] != r[j] && AtMost(str(r[i]), str(r[j])))
  }

  method SortedByStr<N>(s: set<N>, str: N -> string) returns (r: seq<N>)
    ensures Lists(r, s, str)
  {
    r := [];
    var rest := s;
    while rest != {}
      invariant rest <= s && Lists(r, s - rest, str)
      invariant forall x, y :: x in r && y in rest ==> AtMost(str(x), str(y))
      decreases rest
    {
      var least := Least(rest, str);
      r := r + [least];
      rest := rest - {least};
    }
  }

  /** Some node of the set with the least name, whichever the iteration meets. */
  method Least<N>(s: set<N>, str: N -> string) returns (m: N)
    requires s != {}
    ensures m in s && forall x :: x in s ==> AtMost(str(m), str(x))
  {
    m :| m in s;
    AtMostTotal(str(m), str(m));
    var rest := s - {m};
    while rest != {}
      invariant rest <= s && m in s - rest
      invariant forall x :: x in s - rest ==> AtMost(str(m), str(x))
      decreases rest
    {
      var y :| y in rest;
      AtMostTotal(str(m), str(y));
      AtMostTotal(str(y), str(y));
      rest := rest - {y};
      if AtMost(str(y), str(m)) {
        forall x | x in s - rest ensures AtMost(str(y), str(x)) {
          if x != y { AtMostTransitive(str(y), str(m), str(x)); }
        }
        m := y;
      }
    }
  }

  ghost predicate NamesDiffer<N>(s: set<N>, str: N -> string) {
    forall x, y :: x in s && y in s && x != y ==> str(x) != str(y)
  }

  lemma FirstOf<N>(r: seq<N>, s: set<N>, str: N -> string)
    requires Lists(r, s, str) && r != []
    ensures r[0] in s && forall x :: x in s ==> AtMost(str(r[0]), str(x))
  {
    assert r[0] in r;
    forall x | x in s ensures AtMost(str(r[0]), str(x)) {
      var i :| 0 <= i < |r| && r[i] == x;
      AtMostTotal(str(x), str(x));
    }
  }

  lemma RestOf<N>(r: seq<N>, s: set<N>, str: N -> string)
    requires Lists(r, s, str) && r != []
    ensures Lists(r[1..], s - {r[0]}, str)
  {
    assert r == [r[0]] + r[1..];
    forall x | x in s - {r[0]} ensures x in r[1..] { assert x in r; }
  }

  /** With different names there is only one such list, whatever order the set is visited in. */
  lemma {:induction false} OneOrder<N>(a: seq<N>, b: seq<N>, s: set<N>, str: N -> string)
    requires NamesDiffer(s, str) && Lists(a, s, str) && Lists(b, s, str)
    ensures a == b
    decreases |a|
  {
    if a == [] {
      assert forall x :: x in s ==> x in a;
    } else {
      assert a[0] in s && a[0] in b;
      FirstOf(a, s, str);
      FirstOf(b, s, str);
      AtMostAntisymmetric(str(a[0]), str(b[0]));
      RestOf(a, s, str);
      RestOf(b, s, str);
      OneOrder(a[1..], b[1..], s - {a[0]}, str);
      assert a == [a[0]] + a[1..] && b == [b[0]] + b[1..];
    }
  }

  /** Two nodes that print alike can be listed either way round. */
  lemma TwoOrders<N>(a: seq<N>, s: set<N>, str: N -> string, i: nat, j: nat) returns (b: seq<N>)
    requires Lists(a, s, str) && i < j < |a| && str(a[i]) == str(a[j])
    ensures Lists(b, s, str) && a != b
  {
    b := a[i := a[j]][j := a[i]];
    forall x | x in s ensures x in b {
      var k :| 0 <= k < |a| && a[k] == x;
      assert b[if k == i then j else if k == j then i else k] == x;
    }
    forall k, l | 0 <= k < l < |b| ensures b[k] != b[l] && AtMost(str(b[k]), str(b[l])) {
      assert str(b[k]) == str(a[k]) && str(b[l]) == str(a[l]);
    }
  }
}
