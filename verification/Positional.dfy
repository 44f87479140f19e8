/** Numbers as digits in a base, most significant first. */
module Positional {
  import Arith

  function Pow(b: nat, n: nat): nat {
    if n == 0 then 1 else b * Pow(b, n - 1)
  }

  lemma PowNext(b: nat, n: nat)
    ensures Pow(b, n + 1) == b * Pow(b, n)
  {
  }

  lemma {:induction false} PowAdd(b: nat, m: nat, n: nat)
    ensures Pow(b, m + n) == Pow(b, m) * Pow(b, n)
  {
    if m > 0 {
      PowAdd(b, m - 1, n);
      Arith.Associate(b, Pow(b, m - 1), Pow(b, n));
    }
  }

  lemma {:induction false} PowPositive(b: nat, n: nat)
    requires b >= 1
    ensures Pow(b, n) >= 1
  {
    if n > 0 {
      PowPositive(b, n - 1);
      Arith.MulLe(1, b, Pow(b, n - 1));
    }
  }

  function Pow2(k: nat): (r: nat)
    ensures r >= 1
  {
    PowPositive(2, k);
    Pow(2, k)
  }

  lemma Pow2Zero()
    ensures Pow2(0) == 1
  {
  }

  lemma Pow2Next(k: nat)
    requires k > 0
    ensures Pow2(k) == 2 * Pow2(k - 1)
  {
  }

  lemma {:induction false} PowMonotone(b: nat, m: nat, n: nat)
    requires b >= 1 && m <= n
    ensures Pow(b, m) <= Pow(b, n)
    decreases n
  {
    if m < n {
      PowMonotone(b, m, n - 1);
      PowPositive(b, n - 1);
      Arith.MulLe(1, b, Pow(b, n - 1));
    }
  }

  predicate DigitsBelow(s: seq<nat>, b: nat) {
    forall i | 0 <= i < |s| :: s[i] < b
  }

  function Value(s: seq<nat>, b: nat): nat {
    if s == [] then 0 else Value(s[..|s| - 1], b) * b + s[|s| - 1]
  }

  lemma ValueAppend(s: seq<nat>, d: nat, b: nat)
    ensures Value(s + [d], b) == Value(s, b) * b + d
  {
    assert (s + [d])[..|s|] == s;
  }

  /** Splitting off the first digits. */
  lemma {:induction false} ValueConcat(s: seq<nat>, t: seq<nat>, b: nat)
    ensures Value(s + t, b) == Value(s, b) * Pow(b, |t|) + Value(t, b)
    decreases |t|
  {
    if t == [] {
      assert s + t == s;
    } else {
      hide Value, Pow;
      var n := |t| - 1;
      ValueConcat(s, t[..n], b);
      assert s + t == (s + t[..n]) + [t[n]] && t == t[..n] + [t[n]];
      ValueAppend(s + t[..n], t[n], b);
      ValueAppend(t[..n], t[n], b);
      PowNext(b, n);
      Arith.Expand(Value(s, b), Pow(b, n), Value(t[..n], b), b);
    }
  }

  lemma {:induction false} ValueBelow(s: seq<nat>, b: nat)
    requires b >= 1 && DigitsBelow(s, b)
    ensures Value(s, b) < Pow(b, |s|)
  {
    if s != [] {
      var n := |s| - 1;
      ValueBelow(s[..n], b);
      Arith.MulLe(Value(s[..n], b) + 1, Pow(b, n), b);
      Arith.Distribute(Value(s[..n], b), 1, b);
    }
  }

  lemma {:induction false} ValueOfZeros(s: seq<nat>, b: nat)
    requires forall i | 0 <= i < |s| :: s[i] == 0
    ensures Value(s, b) == 0
  {
    if s != [] {
      ValueOfZeros(s[..|s| - 1], b);
    }
  }

  /** The digits of a number, without leading zeros. */
  function Digits(v: nat, b: nat): (r: seq<nat>)
    requires b >= 2
    ensures DigitsBelow(r, b)
    ensures r != [] ==> r[0] != 0
    decreases v
  {
    if v == 0 then [] else
      Arith.QuotientSmaller(v, b);
      Digits(v / b, b) + [v % b]
  }

  lemma DigitsStep(v: nat, b: nat)
    requires b >= 2 && v > 0
    ensures Digits(v, b) == Digits(v / b, b) + [v % b]
  {
  }

  predicate NoLeadingZero(s: seq<nat>) {
    s != [] ==> s[0] != 0
  }

  lemma {:induction false} DigitsValue(v: nat, b: nat)
    requires b >= 2
    ensures Value(Digits(v, b), b) == v
    decreases v
  {
    if v > 0 {
      hide Value, Digits;
      var q, r := LastDigit(v, b);
      DigitsValue(q, b);
      DigitsValueOf(v, b, q, r);
    }
  }

  lemma LastDigit(v: nat, b: nat) returns (q: nat, r: nat)
    requires b >= 2 && v > 0
    ensures q < v && v == q * b + r && Digits(v, b) == Digits(q, b) + [r]
  {
    hide Digits;
    q, r := v / b, v % b;
    Arith.QuotientSmaller(v, b);
    Arith.DivMod(v, b);
    DigitsStep(v, b);
  }

  lemma DigitsValueOf(v: nat, b: nat, q: nat, r: nat)
    requires b >= 2 && v == q * b + r && Digits(v, b) == Digits(q, b) + [r] && Value(Digits(q, b), b) == q
    ensures Value(Digits(v, b), b) == v
  {
    hide Value, Digits;
    ValueAppend(Digits(q, b), r, b);
  }

  lemma {:induction false} ValuePositive(s: seq<nat>, b: nat)
    requires b >= 2 && s != [] && s[0] != 0
    ensures Value(s, b) > 0
  {
    if |s| > 1 {
      ValuePositive(s[..|s| - 1], b);
      Arith.MulLe(1, Value(s[..|s| - 1], b), b);
    }
  }

  lemma {:induction false} ValueDigits(s: seq<nat>, b: nat)
    requires b >= 2 && DigitsBelow(s, b) && NoLeadingZero(s)
    ensures Digits(Value(s, b), b) == s
  {
    if s != [] {
      var n := |s| - 1;
      ValueDigits(s[..n], b);
      ValuePositive(s, b);
      QuotientIs(Value(s[..n], b), s[n], b);
      assert s == s[..n] + [s[n]];
    }
  }

  lemma QuotientIs(q: nat, r: nat, b: nat)
    requires r < b
    ensures (q * b + r) / b == q && (q * b + r) % b == r
  {
    Arith.DivMod(q * b + r, b);
    var q', r' := (q * b + r) / b, (q * b + r) % b;
    if q' < q {
      Arith.MulLe(q' + 1, q, b);
      Arith.Distribute(q', 1, b);
    } else if q < q' {
      Arith.MulLe(q + 1, q', b);
      Arith.Distribute(q, 1, b);
    }
  }

  /** q is v divided by d, rounded down. */
  ghost predicate IsQuotient(v: nat, d: nat, q: nat) {
    q * d <= v < q * d + d
  }

  lemma QuotientOf(v: nat, d: nat, q: nat)
    requires IsQuotient(v, d, q)
    ensures d > 0 && v / d == q
  {
    QuotientIs(q, v - q * d, d);
  }
}
