/** Python's order on `str` (code point by code point, a proper prefix first)
    and the sorted listing that `sorted` produces from a collection of names. */
module Ordering {

  /** `a < b` on Python strings. */
  predicate LexLess(a: string, b: string)
  {
    if a == [] then b != []
    else if b == [] then false
    else a[0] < b[0] || (a[0] == b[0] && LexLess(a[1..], b[1..]))
  }

  lemma {:induction false} LexLessIrreflexive(a: string)
    ensures !LexLess(a, a)
  {
    if a != [] {
      LexLessIrreflexive(a[1..]);
    }
  }

  lemma {:induction false} LexLessAsymmetric(a: string, b: string)
    requires LexLess(a, b)
    ensures !LexLess(b, a)
  {
    if a != [] && b != [] && a[0] == b[0] {
      LexLessAsymmetric(a[1..], b[1..]);
    }
  }

  lemma {:induction false} LexLessTransitive(a: string, b: string, c: string)
    requires LexLess(a, b) && LexLess(b, c)
    ensures LexLess(a, c)
  {
    if a != [] && a[0] == b[0] && b[0] == c[0] {
      LexLessTransitive(a[1..], b[1..], c[1..]);
    }
  }

  lemma {:induction false} LexLessTotal(a: string, b: string)
    requires a != b
    ensures LexLess(a, b) || LexLess(b, a)
  {
    if a != [] && b != [] && a[0] == b[0] {
      assert a == [a[0]] + a[1..] && b == [b[0]] + b[1..];
      LexLessTotal(a[1..], b[1..]);
    }
  }

  /** Comparing two concatenations whose first parts have the same length
      decides on the first parts, and on the second parts only when the
      first parts are equal. */
  lemma {:induction false} LexLessConcat(x1: string, y1: string, x2: string, y2: string)
    requires |x1| == |x2|
    ensures x1 + y1 == x2 + y2 <==> x1 == x2 && y1 == y2
    ensures LexLess(x1 + y1, x2 + y2) <==> LexLess(x1, x2) || (x1 == x2 && LexLess(y1, y2))
  {
    if x1 + y1 == x2 + y2 {
      assert x1 == (x1 + y1)[..|x1|] && x2 == (x2 + y2)[..|x2|];
      assert y1 == (x1 + y1)[|x1|..] && y2 == (x2 + y2)[|x2|..];
    }
    if x1 != [] {
      assert (x1 + y1)[1..] == x1[1..] + y1;
      assert (x2 + y2)[1..] == x2[1..] + y2;
      assert x1 == [x1[0]] + x1[1..] && x2 == [x2[0]] + x2[1..];
      LexLessConcat(x1[1..], y1, x2[1..], y2);
    } else {
      assert x1 + y1 == y1 && x2 + y2 == y2;
    }
  }

  /** Every name in the sequence comes before every later one. */
  predicate StrictlySorted(s: seq<string>)
  {
    forall i, j :: 0 <= i < j < |s| ==> LexLess(s[i], s[j])
  }

  predicate IsLeast(m: string, names: set<string>)
  {
    m in names && forall n :: n in names && n != m ==> LexLess(m, n)
  }

  lemma {:induction false} LeastExists(names: set<string>)
    requires names != {}
    ensures exists m :: IsLeast(m, names)
    decreases names
  {
    var x :| x in names;
    if names - {x} == {} {
      assert names == {x};
      assert IsLeast(x, names);
    } else {
      LeastExists(names - {x});
      var m :| IsLeast(m, names - {x});
      if LexLess(x, m) {
        forall n | n in names && n != x
          ensures LexLess(x, n)
        {
          if n != m {
            LexLessTransitive(x, m, n);
          }
        }
        assert IsLeast(x, names);
      } else {
        LexLessTotal(x, m);
        assert IsLeast(m, names);
      }
    }
  }

  lemma LeastIsUnique(names: set<string>)
    ensures forall m1, m2 :: IsLeast(m1, names) && IsLeast(m2, names) ==> m1 == m2
  {
    forall m1, m2 | IsLeast(m1, names) && IsLeast(m2, names)
      ensures m1 == m2
    {
      if m1 != m2 {
        LexLessAsymmetric(m1, m2);
      }
    }
  }

  /** `sorted(names)` for a collection of distinct names: the names in
      ascending order, each exactly once. */
  function SortedNames(names: set<string>): (r: seq<string>)
    ensures StrictlySorted(r)
    ensures forall n :: n in r <==> n in names
    decreases names
  {
    if names == {} then []
    else
      LeastExists(names);
      LeastIsUnique(names);
      var m :| IsLeast(m, names);
      var rest := SortedNames(names - {m});
      assert forall j :: 0 <= j < |rest| ==> LexLess(m, rest[j]);
      [m] + rest
  }

  /** A strictly sorted sequence is determined by the names it holds, so the
      listing is the only ascending arrangement of those names. */
  lemma {:induction false} SortedUnique(a: seq<string>, b: seq<string>)
    requires StrictlySorted(a) && StrictlySorted(b)
    requires forall n :: n in a <==> n in b
    ensures a == b
  {
    if b != [] {
      assert b[0] in a;
    }
    if a != [] {
      assert a[0] in b;
      if a[0] != b[0] {
        var i :| 0 <= i < |b| && b[i] == a[0];
        var j :| 0 <= j < |a| && a[j] == b[0];
        assert LexLess(b[0], a[0]) && LexLess(a[0], b[0]);
        LexLessAsymmetric(a[0], b[0]);
      }
      forall n
        ensures n in a[1..] <==> n in b[1..]
      {
        if n in a[1..] {
          var i :| 1 <= i < |a| && a[i] == n;
          LexLessIrreflexive(n);
          assert n in b && n != b[0];
          var k :| 0 <= k < |b| && b[k] == n;
          assert b[1..][k - 1] == n;
        }
        if n in b[1..] {
          var i :| 1 <= i < |b| && b[i] == n;
          LexLessIrreflexive(n);
          assert n in a && n != a[0];
          var k :| 0 <= k < |a| && a[k] == n;
          assert a[1..][k - 1] == n;
        }
      }
      SortedUnique(a[1..], b[1..]);
      assert a == [a[0]] + a[1..] && b == [b[0]] + b[1..];
    }
  }
}
