/**
  The order a `std::map` keyed by `std::array<int, DIM>` keeps its keys in:
  `std::array`'s `operator<`, which is a lexicographical comparison, and the
  ascending enumeration of a finite set of positions under that order.
 */
module Order {

  /** Lexicographic "strictly less" on integer sequences (a proper prefix is less). */
  predicate Less(a: seq<int>, b: seq<int>)
    decreases |a|
  {
    if |a| == 0 then |b| > 0
    else if |b| == 0 then false
    else a[0] < b[0] || (a[0] == b[0] && Less(a[1..], b[1..]))
  }

  /** The length of the longest common prefix of `a` and `b`. */
  function CommonPrefix(a: seq<int>, b: seq<int>): (n: nat)
    ensures n <= |a| && n <= |b|
    ensures a[..n] == b[..n]
    ensures n < |a| && n < |b| ==> a[n] != b[n]
    decreases |a|
  {
    if |a| == 0 || |b| == 0 || a[0] != b[0] then 0
    else
      var n := 1 + CommonPrefix(a[1..], b[1..]);
      assert a[..n] == [a[0]] + a[1..][..n - 1];
      assert b[..n] == [b[0]] + b[1..][..n - 1];
      n
  }

  /**
    The order by its usual textbook definition: at the first position where
    `a` and `b` differ, `a` is smaller, or `a` is a proper prefix of `b`.
   */
  lemma {:induction false} LessAtFirstDifference(a: seq<int>, b: seq<int>)
    ensures var n := CommonPrefix(a, b);
      Less(a, b) <==> (n == |a| && n < |b|) || (n < |a| && n < |b| && a[n] < b[n])
    decreases |a|
  {
    if |a| > 0 && |b| > 0 && a[0] == b[0] {
      LessAtFirstDifference(a[1..], b[1..]);
    }
  }

  lemma {:induction false} LessIrreflexive(a: seq<int>)
    ensures !Less(a, a)
    decreases |a|
  {
    if |a| > 0 { LessIrreflexive(a[1..]); }
  }

  lemma {:induction false} LessAsymmetric(a: seq<int>, b: seq<int>)
    ensures Less(a, b) ==> !Less(b, a)
    decreases |a|
  {
    if |a| > 0 && |b| > 0 { LessAsymmetric(a[1..], b[1..]); }
  }

  lemma {:induction false} LessTransitive(a: seq<int>, b: seq<int>, c: seq<int>)
    requires Less(a, b) && Less(b, c)
    ensures Less(a, c)
    decreases |a|
  {
    if |a| > 0 && a[0] == b[0] && b[0] == c[0] {
      LessTransitive(a[1..], b[1..], c[1..]);
    }
  }

  lemma {:induction false} LessTotal(a: seq<int>, b: seq<int>)
    ensures a == b || Less(a, b) || Less(b, a)
    decreases |a|
  {
    if |a| > 0 && |b| > 0 && a[0] == b[0] {
      LessTotal(a[1..], b[1..]);
      if a[1..] == b[1..] {
        assert a == [a[0]] + a[1..] && b == [b[0]] + b[1..];
      }
    }
  }

  /** `s` is strictly ascending: no repeats, and each element below the next. */
  predicate StrictlyAscending(s: seq<seq<int>>)
  {
    forall i, j {:trigger Less(s[i], s[j])} :: 0 <= i < j < |s| ==> Less(s[i], s[j])
  }

  /** `m` is the least element of `s`. */
  predicate IsLeast(m: seq<int>, s: set<seq<int>>)
  {
    m in s && forall x {:trigger Less(m, x)} :: x in s && x != m ==> Less(m, x)
  }

  /** Every non-empty finite set of sequences has a least element. */
  lemma {:induction false} MinimumExists(s: set<seq<int>>)
    requires s != {}
    ensures exists m :: IsLeast(m, s)
    decreases |s|
  {
    var y :| y in s;
    if s == {y} {
      assert IsLeast(y, s);
    } else {
      var rest := s - {y};
      MinimumExists(rest);
      var m :| IsLeast(m, rest);
      LessTotal(m, y);
      if Less(m, y) {
        forall x | x in s && x != m ensures Less(m, x) {
          if x != y { assert x in rest; }
        }
        assert IsLeast(m, s);
      } else {
        forall x | x in s && x != y ensures Less(y, x) {
          if x != m {
            assert x in rest && Less(m, x);
            LessTransitive(y, m, x);
          }
        }
        assert IsLeast(y, s);
      }
    }
  }

  /** Two least elements of the same set are the same element. */
  lemma LeastUnique(m1: seq<int>, m2: seq<int>, s: set<seq<int>>)
    requires IsLeast(m1, s) && IsLeast(m2, s)
    ensures m1 == m2
  {
    if m1 != m2 {
      assert Less(m1, m2) && Less(m2, m1);
      LessAsymmetric(m1, m2);
    }
  }

  /** The least element of a non-empty finite set of sequences. */
  function Minimum(s: set<seq<int>>): (m: seq<int>)
    requires s != {}
    ensures IsLeast(m, s)
  {
    MinimumExists(s);
    LeastUniqueAll(s);
    var m :| IsLeast(m, s);
    m
  }

  lemma LeastUniqueAll(s: set<seq<int>>)
    ensures forall m1, m2 :: IsLeast(m1, s) && IsLeast(m2, s) ==> m1 == m2
  {
    forall m1, m2 | IsLeast(m1, s) && IsLeast(m2, s) ensures m1 == m2 {
      LeastUnique(m1, m2, s);
    }
  }

  /**
    The elements of `s` in ascending order: what walking a `std::map` whose
    key set is `s` from `begin()` to `end()` visits.
   */
  function SortedKeys(s: set<seq<int>>): (r: seq<seq<int>>)
    ensures |r| == |s|
    ensures forall x :: x in r <==> x in s
    ensures StrictlyAscending(r)
    decreases |s|
  {
    if s == {} then []
    else
      var m := Minimum(s);
      [m] + SortedKeys(s - {m})
  }

  /**
    The ascending enumeration is the only strictly ascending sequence holding
    exactly the elements of `s`.
   */
  lemma {:induction false} SortedKeysUnique(r: seq<seq<int>>, s: set<seq<int>>)
    requires StrictlyAscending(r)
    requires forall x :: x in r <==> x in s
    ensures r == SortedKeys(s)
    decreases |r|
  {
    if r == [] {
      assert s == {};
    } else {
      assert r[0] in s;
      var m := Minimum(s);
      assert r[0] == m by {
        if r[0] != m {
          var j :| 0 <= j < |r| && r[j] == m;
          assert Less(m, r[0]);
          if j == 0 { } else { LessAsymmetric(r[0], m); }
        }
      }
      var tail := r[1..];
      forall x ensures x in tail <==> x in s - {m} {
        if x in tail {
          var j :| 0 <= j < |tail| && tail[j] == x;
          assert Less(r[0], r[j + 1]);
          LessIrreflexive(x);
        }
        if x in s - {m} {
          assert x in r;
          var j :| 0 <= j < |r| && r[j] == x;
          assert j != 0;
          assert tail[j - 1] == x;
        }
      }
      SortedKeysUnique(tail, s - {m});
    }
  }

  /** In a strictly ascending sequence, distinct indices hold distinct elements. */
  lemma AscendingInjective(r: seq<seq<int>>)
    requires StrictlyAscending(r)
    ensures forall i, j :: 0 <= i < |r| && 0 <= j < |r| && r[i] == r[j] ==> i == j
  {
    forall i, j | 0 <= i < |r| && 0 <= j < |r| && r[i] == r[j] ensures i == j {
      if i < j { LessIrreflexive(r[i]); }
      if j < i { LessIrreflexive(r[j]); }
    }
  }
}
