/** Sums of a function over finite sets and over sequences of keys. */
module Sums {
  import Sets

  ghost function Pick<T>(s: set<T>): (x: T)
    requires |s| > 0
    ensures x in s
  {
    var x :| x in s; x
  }

  ghost function Sum(f: nat -> int, s: set<nat>): int {
    if |s| == 0 then 0 else f(Pick(s)) + Sum(f, s - {Pick(s)})
  }

  lemma SumEmpty(f: nat -> int, s: set<nat>)
    requires |s| == 0
    ensures Sum(f, s) == 0
  {
  }

  /** Any member can be taken out first. */
  lemma {:induction false} SumRemove(f: nat -> int, s: set<nat>, x: nat)
    requires x in s
    ensures Sum(f, s) == f(x) + Sum(f, s - {x})
    decreases |s|
  {
    hide Pick;
    var y := Pick(s);
    if y != x {
      SumRemove(f, s - {y}, x);
      SumRemove(f, s - {x}, y);
      assert s - {y} - {x} == s - {x} - {y};
    }
  }

  lemma SumAdd(f: nat -> int, s: set<nat>, x: nat)
    requires x !in s
    ensures Sum(f, s + {x}) == Sum(f, s) + f(x)
  {
    SumRemove(f, s + {x}, x);
    assert s + {x} - {x} == s;
  }

  lemma {:induction false} SumUnion(f: nat -> int, a: set<nat>, b: set<nat>)
    requires a !! b
    ensures Sum(f, a + b) == Sum(f, a) + Sum(f, b)
    decreases |b|
  {
    if |b| > 0 {
      var x := Sets.Member(b);
      SumRemove(f, a + b, x);
      SumRemove(f, b, x);
      assert a + b - {x} == a + (b - {x});
      SumUnion(f, a, b - {x});
    } else {
      assert a + b == a;
    }
  }

  lemma {:induction false} SumSubset(f: nat -> int, a: set<nat>, b: set<nat>)
    requires a <= b && forall x :: f(x) >= 0
    ensures Sum(f, a) <= Sum(f, b)
    decreases |b|
  {
    if |b - a| > 0 {
      var x := Sets.Member(b - a);
      SumRemove(f, b, x);
      SumSubset(f, a, b - {x});
    } else {
      assert a == b;
    }
  }

  lemma {:induction false} SumNonNegative(f: nat -> int, s: set<nat>)
    requires forall x :: f(x) >= 0
    ensures Sum(f, s) >= 0
    decreases |s|
  {
    if |s| > 0 {
      SumNonNegative(f, s - {Pick(s)});
    }
  }

  function Total(f: nat -> int, s: seq<nat>): int {
    if s == [] then 0 else Total(f, s[..|s| - 1]) + f(s[|s| - 1])
  }

  lemma TotalAppend(f: nat -> int, s: seq<nat>, x: nat)
    ensures Total(f, s + [x]) == Total(f, s) + f(x)
  {
    assert (s + [x])[..|s|] == s;
  }

  lemma {:induction false} TotalConcat(f: nat -> int, a: seq<nat>, b: seq<nat>)
    ensures Total(f, a + b) == Total(f, a) + Total(f, b)
    decreases |b|
  {
    if b == [] {
      assert a + b == a;
    } else {
      var n := |b| - 1;
      TotalConcat(f, a, b[..n]);
      assert (a + b)[..|a + b| - 1] == a + b[..n];
    }
  }

  /** For a list without repetitions both sums agree. */
  lemma {:induction false} TotalIsSum(f: nat -> int, s: seq<nat>, members: set<nat>)
    requires forall i, j | 0 <= i < j < |s| :: s[i] != s[j]
    requires forall x :: x in s <==> x in members
    ensures Total(f, s) == Sum(f, members)
    decreases |s|
  {
    if s == [] {
      if |members| > 0 {
        var x := Sets.Member(members);
      }
    } else {
      var n := |s| - 1;
      var rest := members - {s[n]};
      forall x
        ensures x in s[..n] <==> x in rest
      {
        assert x in s <==> x in s[..n] || x == s[n];
      }
      TotalIsSum(f, s[..n], rest);
      SumRemove(f, members, s[n]);
    }
  }
}
