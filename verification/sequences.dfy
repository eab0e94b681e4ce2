/** Vocabulary about sequences that several parts share. */
module Sequences {
  predicate Distinct<T(==)>(s: seq<T>)
  {
    forall i, j :: 0 <= i < j < |s| ==> s[i] != s[j]
  }

  /** The newest `n` of a sequence, or all of it. */
  function Newest<T>(s: seq<T>, n: nat): seq<T>
  {
    if |s| <= n then s else s[|s| - n..]
  }

  lemma DistinctConcat<T>(a: seq<T>, b: seq<T>)
    requires Distinct(a) && Distinct(b)
    requires forall x :: x in b ==> x !in a
    ensures Distinct(a + b)
  {
    forall i, j | 0 <= i < j < |a + b| ensures (a + b)[i] != (a + b)[j] {
      if i < |a| <= j {
        assert b[j - |a|] in b;
      }
    }
  }

  /** The pigeonhole: a duplicate-free sequence drawn from a set is no longer than it. */
  lemma {:induction false} DistinctBound<T>(s: seq<T>, pool: set<T>)
    requires Distinct(s)
    requires forall i :: 0 <= i < |s| ==> s[i] in pool
    ensures |s| <= |pool|
  {
    if s != [] {
      var last := s[|s| - 1];
      DistinctBound(s[..|s| - 1], pool - {last});
    }
  }

  function Members<T(==)>(s: seq<T>): set<T>
  {
    set x | x in s
  }

  lemma {:induction false} MembersBound<T>(s: seq<T>)
    ensures |Members(s)| <= |s|
  {
    if s != [] {
      MembersBound(s[1..]);
      assert Members(s) == Members(s[1..]) + {s[0]};
    }
  }

  lemma {:induction false} DistinctOnce<T>(s: seq<T>, x: T)
    requires Distinct(s)
    ensures multiset(s)[x] == if x in s then 1 else 0
  {
    if s != [] {
      DistinctOnce(s[1..], x);
      assert s == [s[0]] + s[1..];
    }
  }

  /** Of two duplicate-free sequences, one inside the other, the lengths agree exactly when the contents do. */
  lemma SameLengthSameContents<T>(a: seq<T>, b: seq<T>)
    requires Distinct(a) && Distinct(b)
    requires forall x :: x in a ==> x in b
    ensures |a| == |b| <==> forall x :: x in b ==> x in a
    ensures (forall x :: x in b ==> x in a) ==> multiset(a) == multiset(b)
  {
    if forall x :: x in b ==> x in a {
      forall x ensures multiset(a)[x] == multiset(b)[x] {
        DistinctOnce(a, x);
        DistinctOnce(b, x);
      }
      assert multiset(a) == multiset(b);
      assert |multiset(a)| == |a| && |multiset(b)| == |b|;
    } else {
      var y :| y in b && y !in a;
      DistinctBound(a + [y], Members(b));
      MembersBound(b);
    }
  }
}
