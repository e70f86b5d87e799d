/** Facts about duplicate-free sequences of natural numbers. */
module Seqs {

  /** No element occurs twice. */
  predicate Distinct(s: seq<nat>) {
    forall i, j :: 0 <= i < j < |s| ==> s[i] != s[j]
  }

  /** The identifiers 0 .. n-1. */
  function Below(n: nat): (r: set<nat>)
    ensures forall x: nat :: x in r <==> x < n
    ensures |r| == n
  {
    if n == 0 then {} else Below(n - 1) + {n - 1}
  }

  /** The set of elements of `s`. */
  function Elements(s: seq<nat>): set<nat> {
    set x | x in s
  }

  /** A duplicate-free sequence has as many elements as its set of elements. */
  lemma {:induction false} DistinctCard(s: seq<nat>)
    requires Distinct(s)
    ensures |Elements(s)| == |s|
  {
    if |s| > 0 {
      var t := s[1..];
      assert Distinct(t) by {
        forall i, j | 0 <= i < j < |t| ensures t[i] != t[j] {
          assert t[i] == s[i + 1] && t[j] == s[j + 1];
        }
      }
      DistinctCard(t);
      assert Elements(s) == {s[0]} + Elements(t) by {
        forall x | x in s ensures x == s[0] || x in t {
          var k :| 0 <= k < |s| && s[k] == x;
          if k > 0 { assert t[k - 1] == x; }
        }
      }
      assert s[0] !in Elements(t) by {
        forall k | 0 <= k < |t| ensures t[k] != s[0] {
          assert t[k] == s[k + 1];
        }
      }
    }
  }

  /** Pigeonhole: a duplicate-free sequence of values below n has at most n elements. */
  lemma DistinctBounded(s: seq<nat>, n: nat)
    requires Distinct(s)
    requires forall k :: 0 <= k < |s| ==> s[k] < n
    ensures |s| <= n
  {
    DistinctCard(s);
    var e := Elements(s);
    var b := Below(n);
    assert e <= b;
    assert |b| == |e| + |b - e| by {
      assert b == e + (b - e);
    }
  }

  /** The two halves of a duplicate-free concatenation share no element. */
  lemma DistinctHalvesDisjoint(a: seq<nat>, b: seq<nat>)
    requires Distinct(a + b)
    ensures forall x :: x in b ==> x !in a
  {
    forall x | x in b ensures x !in a {
      var j :| 0 <= j < |b| && b[j] == x;
      assert (a + b)[|a| + j] == x;
      assert forall i :: 0 <= i < |a| ==> (a + b)[i] == a[i];
    }
  }
}
