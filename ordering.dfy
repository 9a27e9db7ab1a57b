/** Python's ordering of strings (lexicographic by code point) and the
    sorted list of a set of column keys. */
module Ordering {

  /** `a < b` on Python strings. */
  predicate StrLt(a: string, b: string) {
    if a == [] then b != []
    else if b == [] then false
    else a[0] < b[0] || (a[0] == b[0] && StrLt(a[1..], b[1..]))
  }

  lemma {:induction false} StrLtIrreflexive(a: string)
    ensures !StrLt(a, a)
  {
    if a != [] {
      StrLtIrreflexive(a[1..]);
    }
  }

  lemma {:induction false} StrLtTransitive(a: string, b: string, c: string)
    requires StrLt(a, b) && StrLt(b, c)
    ensures StrLt(a, c)
  {
    if a != [] && b != [] && c != [] && a[0] == b[0] && b[0] == c[0] {
      StrLtTransitive(a[1..], b[1..], c[1..]);
    }
  }

  lemma {:induction false} StrLtTotal(a: string, b: string)
    ensures a == b || StrLt(a, b) || StrLt(b, a)
  {
    if a != [] && b != [] && a[0] == b[0] {
      StrLtTotal(a[1..], b[1..]);
      if a[1..] == b[1..] {
        assert a == [a[0]] + a[1..] && b == [b[0]] + b[1..];
      }
    }
  }

  predicate StrictlySorted(s: seq<string>) {
    forall i, j :: 0 <= i < j < |s| ==> StrLt(s[i], s[j])
  }

  /** m is the least element of s. */
  predicate IsLeast(m: string, s: set<string>) {
    m in s && forall x :: x in s && x != m ==> StrLt(m, x)
  }

  lemma {:induction false} LeastExists(s: set<string>)
    requires s != {}
    ensures exists m :: IsLeast(m, s)
    decreases |s|
  {
    var x :| x in s;
    if s == {x} {
      assert IsLeast(x, s);
    } else {
      LeastExists(s - {x});
      var m :| IsLeast(m, s - {x});
      StrLtTotal(m, x);
      if StrLt(m, x) {
        assert IsLeast(m, s);
      } else {
        forall y | y in s && y != x ensures StrLt(x, y) {
          if y != m {
            StrLtTransitive(x, m, y);
          }
        }
        assert IsLeast(x, s);
      }
    }
  }

  lemma LeastUnique(m: string, n: string, s: set<string>)
    requires IsLeast(m, s) && IsLeast(n, s)
    ensures m == n
  {
    if m != n {
      assert StrLt(m, n) && StrLt(n, m);
      StrLtTransitive(m, n, m);
      StrLtIrreflexive(m);
    }
  }

  /** The elements of s in ascending order: `sorted(s)`. */
  ghost function SortedOf(s: set<string>): (r: seq<string>)
    ensures |r| == |s|
    ensures forall x :: x in r <==> x in s
    ensures StrictlySorted(r)
    decreases |s|
  {
    if s == {} then []
    else
      LeastExists(s);
      var m :| IsLeast(m, s);
      var rest := SortedOf(s - {m});
      assert forall k :: 0 <= k < |rest| ==> rest[k] in s - {m};
      [m] + rest
  }

  /** The head of a strictly sorted list is the least of its elements,
      and the tail holds the rest. */
  lemma HeadIsLeast(t: seq<string>, s: set<string>)
    requires t != [] && StrictlySorted(t)
    requires forall x :: x in t <==> x in s
    ensures IsLeast(t[0], s)
    ensures forall x :: x in t[1..] <==> x in s - {t[0]}
  {
    forall x | x in s && x != t[0] ensures StrLt(t[0], x) {
      var k :| 0 <= k < |t| && t[k] == x;
    }
    forall x | x in t[1..] ensures x != t[0] {
      var k :| 1 <= k < |t| && t[k] == x;
      StrLtIrreflexive(x);
    }
    forall x | x in s - {t[0]} ensures x in t[1..] {
      var k :| 0 <= k < |t| && t[k] == x;
      assert t[1..][k - 1] == x;
    }
  }

  /** A strictly sorted list holding exactly the elements of s is
      SortedOf(s): the sorted order is the only one. */
  lemma {:induction false} SortedUnique(t: seq<string>, s: set<string>)
    requires StrictlySorted(t)
    requires forall x :: x in t <==> x in s
    ensures t == SortedOf(s)
    decreases |t|
  {
    var r := SortedOf(s);
    if t == [] {
      assert s == {};
    } else {
      assert t[0] in s;
      HeadIsLeast(t, s);
      HeadIsLeast(r, s);
      LeastUnique(t[0], r[0], s);
      SortedUnique(t[1..], s - {t[0]});
      SortedUnique(r[1..], s - {t[0]});
      assert t == [t[0]] + t[1..] && r == [r[0]] + r[1..];
    }
  }

  /** `sorted(keys)`: repeatedly takes the least remaining key. */
  method SortedKeys(s: set<string>) returns (r: seq<string>)
    ensures r == SortedOf(s)
  {
    r := [];
    var rest := s;
    while rest != {}
      invariant rest <= s
      invariant StrictlySorted(r)
      invariant forall x :: x in r <==> x in s - rest
      invariant forall x, y :: x in r && y in rest ==> StrLt(x, y)
      decreases |rest|
    {
      LeastExists(rest);
      var m :| IsLeast(m, rest);
      forall i | 0 <= i < |r| ensures StrLt(r[i], m) {
        assert r[i] in r;
      }
      forall x, y | x in r + [m] && y in rest - {m} ensures StrLt(x, y) {
        if x == m {
          assert IsLeast(m, rest);
        }
      }
      r := r + [m];
      rest := rest - {m};
    }
    SortedUnique(r, s);
  }
}
