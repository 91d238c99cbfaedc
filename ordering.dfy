/**
 * The order in which Python's `sorted` puts strings: lexicographic by
 * character code, a proper prefix coming first. `Sorted` gives the unique
 * strictly increasing listing of a finite set of strings.
 */
module Ordering {

  /** `a` is at most `b` in lexicographic order. */
  predicate AtMost(a: string, b: string)
    decreases |a|
  {
    a == [] || (b != [] && (a[0] < b[0] || (a[0] == b[0] && AtMost(a[1..], b[1..]))))
  }

  predicate Less(a: string, b: string) {
    AtMost(a, b) && a != b
  }

  predicate StrictlyIncreasing(s: seq<string>) {
    forall i, j :: 0 <= i < j < |s| ==> Less(s[i], s[j])
  }

  lemma {:induction false} AtMostReflexive(a: string)
    ensures AtMost(a, a)
    decreases |a|
  {
    if a != [] {
      AtMostReflexive(a[1..]);
    }
  }

  lemma {:induction false} AtMostAntisymmetric(a: string, b: string)
    requires AtMost(a, b) && AtMost(b, a)
    ensures a == b
    decreases |a|
  {
    if a != [] {
      AtMostAntisymmetric(a[1..], b[1..]);
      assert a == [a[0]] + a[1..] && b == [b[0]] + b[1..];
    }
  }

  lemma {:induction false} AtMostTransitive(a: string, b: string, c: string)
    requires AtMost(a, b) && AtMost(b, c)
    ensures AtMost(a, c)
    decreases |a|
  {
    if a != [] && a[0] == b[0] && b[0] == c[0] {
      AtMostTransitive(a[1..], b[1..], c[1..]);
    }
  }

  lemma {:induction false} AtMostTotal(a: string, b: string)
    ensures AtMost(a, b) || AtMost(b, a)
    decreases |a|
  {
    if a != [] && b != [] && a[0] == b[0] {
      AtMostTotal(a[1..], b[1..]);
    }
  }

  lemma AtMostAntisymmetricAll()
    ensures forall a, b :: AtMost(a, b) && AtMost(b, a) ==> a == b
  {
    forall a, b | AtMost(a, b) && AtMost(b, a) ensures a == b {
      AtMostAntisymmetric(a, b);
    }
  }

  predicate IsLeast(m: string, s: set<string>) {
    m in s && forall x :: x in s ==> AtMost(m, x)
  }

  lemma {:induction false} LeastExists(s: set<string>)
    requires s != {}
    ensures exists m :: m in s && IsLeast(m, s)
    decreases |s|
  {
    var y :| y in s;
    if s != {y} {
      LeastExists(s - {y});
      var m :| m in s - {y} && IsLeast(m, s - {y});
      AtMostTotal(y, m);
      if AtMost(y, m) {
        forall x | x in s ensures AtMost(y, x) {
          if x == y { AtMostReflexive(y); } else { AtMostTransitive(y, m, x); }
        }
        assert IsLeast(y, s);
      } else {
        assert IsLeast(m, s);
      }
    } else {
      AtMostReflexive(y);
      assert IsLeast(y, s);
    }
  }

  lemma LeastIsBelowRest(m: string, s: set<string>)
    requires IsLeast(m, s)
    ensures forall x :: x in s - {m} ==> Less(m, x)
  {
  }

  /** The elements of `s` in increasing order, as `sorted(s)` lists them. */
  function Sorted(s: set<string>): (r: seq<string>)
    ensures StrictlyIncreasing(r)
    ensures forall x :: x in r <==> x in s
    decreases |s|
  {
    if s == {} then []
    else
      LeastExists(s);
      AtMostAntisymmetricAll();
      var m :| m in s && IsLeast(m, s);
      var rest := Sorted(s - {m});
      LeastIsBelowRest(m, s);
      assert forall i :: 0 <= i < |rest| ==> rest[i] in rest && Less(m, rest[i]);
      [m] + rest
  }

  /** The first element of a strictly increasing sequence is at most every element. */
  lemma FirstIsLeast(a: seq<string>, x: string)
    requires StrictlyIncreasing(a) && x in a
    ensures AtMost(a[0], x)
  {
    if x == a[0] { AtMostReflexive(x); }
  }

  lemma HeadIsElement(s: seq<string>)
    ensures s != [] ==> s[0] in s
  {
  }

  /** Two strictly increasing sequences with the same elements are equal. */
  lemma {:induction false} IncreasingUnique(a: seq<string>, b: seq<string>)
    requires StrictlyIncreasing(a) && StrictlyIncreasing(b)
    requires forall x :: x in a <==> x in b
    ensures a == b
    decreases |a|
  {
    if a != [] {
      assert a[0] in b;
      assert b != [] && b[0] in a;
      FirstIsLeast(a, b[0]);
      FirstIsLeast(b, a[0]);
      AtMostAntisymmetric(a[0], b[0]);
      forall x ensures x in a[1..] <==> x in b[1..] {
        if x in a[1..] {
          var i :| 1 <= i < |a| && a[i] == x;
          assert Less(a[0], a[i]);
        }
        if x in b[1..] {
          var j :| 1 <= j < |b| && b[j] == x;
          assert Less(b[0], b[j]);
        }
        assert x in a <==> x == a[0] || x in a[1..];
        assert x in b <==> x == b[0] || x in b[1..];
      }
      IncreasingUnique(a[1..], b[1..]);
      assert a == [a[0]] + a[1..] && b == [b[0]] + b[1..];
    } else {
      HeadIsElement(b);
    }
  }

  /** `Sorted(s)` is the only strictly increasing listing of `s`. */
  lemma SortedUnique(a: seq<string>, s: set<string>)
    requires StrictlyIncreasing(a)
    requires forall x :: x in a <==> x in s
    ensures a == Sorted(s)
  {
    IncreasingUnique(a, Sorted(s));
  }
}
