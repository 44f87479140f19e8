/** Sizes of finite sets of numbers. */
module Sets {

  /** The numbers from 0 up to n. */
  ghost function Upto(n: nat): (s: set<int>)
    ensures |s| == n
    ensures forall i :: i in s <==> 0 <= i < n
  {
    if n == 0 then {} else Upto(n - 1) + {n - 1}
  }

  lemma UptoNext(n: nat)
    ensures Upto(n + 1) == Upto(n) + {n}
  {
  }

  lemma Member<T>(s: set<T>) returns (x: T)
    requires |s| > 0
    ensures x in s
  {
    x :| x in s;
  }

  lemma SubsetSize<T>(a: set<T>, b: set<T>)
    requires a <= b
    ensures |a| <= |b| && (|a| == |b| ==> a == b)
  {
    assert b == a + (b - a);
  }

  /** Distinct numbers below n are at most n, and if they are n then they are all of them. */
  lemma Bounded(s: set<int>, n: nat)
    requires forall x | x in s :: 0 <= x < n
    ensures |s| <= n
    ensures |s| == n ==> s == Upto(n)
  {
    assert s <= Upto(n);
    SubsetSize(s, Upto(n));
  }

  /** A list without repetitions is as long as the set of its members. */
  lemma {:induction false} SizeOf<T>(s: seq<T>, members: set<T>)
    requires forall i, j | 0 <= i < j < |s| :: s[i] != s[j]
    requires forall x :: x in s <==> x in members
    ensures |s| == |members|
  {
    if s == [] {
      assert members == {};
    } else {
      var rest := members - {s[0]};
      forall x
        ensures x in s[1..] <==> x in rest
      {
        assert x in s <==> x == s[0] || x in s[1..];
      }
      SizeOf(s[1..], rest);
    }
  }
}
