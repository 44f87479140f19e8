/** 256-bit numbers as eight 32-bit limbs, least significant first, and the arithmetic behind the loops over them. */
module Limbs {
  import Arith
  import opened Positional

  const B: nat := 0x1_0000_0000

  const WIDTH := 8

  predicate LimbsOk(s: seq<nat>) {
    forall i | 0 <= i < |s| :: s[i] < B
  }

  function Val(s: seq<nat>): nat {
    if s == [] then 0 else Val(s[..|s| - 1]) + s[|s| - 1] * Pow(B, |s| - 1)
  }

  /** 2 to the 256. */
  function Top(): nat {
    Pow(B, WIDTH)
  }

  lemma NoLimbs()
    ensures Val([]) == 0 && Pow(B, 0) == 1
  {
  }

  lemma ValNext(s: seq<nat>, i: nat)
    requires i < |s|
    ensures Val(s[..i + 1]) == Val(s[..i]) + s[i] * Pow(B, i)
  {
    assert s[..i + 1][..i] == s[..i];
  }

  lemma ValAll(s: seq<nat>)
    ensures Val(s[..|s|]) == Val(s)
  {
    assert s[..|s|] == s;
  }

  lemma {:induction false} ValBelow(s: seq<nat>)
    requires LimbsOk(s)
    ensures Val(s) < Pow(B, |s|)
  {
    if s != [] {
      hide Pow;
      var n := |s| - 1;
      ValBelow(s[..n]);
      PowNext(B, n);
      Arith.MulLe(s[n] + 1, B, Pow(B, n));
      Arith.Distribute(s[n], 1, Pow(B, n));
    } else {
      NoLimbs();
    }
  }

  /** The number of two lists of limbs, one after the other. */
  lemma {:induction false} ValConcat(s: seq<nat>, t: seq<nat>)
    ensures Val(s + t) == Val(s) + Pow(B, |s|) * Val(t)
    decreases |t|
  {
    if t == [] {
      NoLimbs();
      assert s + t == s;
    } else {
      hide Val, Pow;
      var n := |t| - 1;
      ValConcat(s, t[..n]);
      assert (s + t)[..|s| + n] == s + t[..n] && (s + t)[..|s| + n + 1] == s + t && t[..n + 1] == t;
      ValNext(s + t, |s| + n);
      ValNext(t, n);
      PowAdd(B, |s|, n);
      SplitTerm(Pow(B, |s|), Val(t[..n]), t[n], Pow(B, n));
    }
  }

  lemma SplitTerm(p: nat, v: nat, x: nat, q: nat)
    ensures p * (v + x * q) == p * v + x * (p * q)
  {
    Arith.Distribute(v, x * q, p);
    Arith.Associate(x, q, p);
  }

  lemma {:induction false} ValZeros(s: seq<nat>)
    requires forall i | 0 <= i < |s| :: s[i] == 0
    ensures Val(s) == 0
  {
    if s != [] {
      ValZeros(s[..|s| - 1]);
    }
  }

  // ---------- One limb of a loop with a carry ----------

  function LowLimb(t: nat): (r: nat)
    ensures r < B
  {
    t % B
  }

  function Carry(t: nat): nat {
    t / B
  }

  lemma CarryStep(v: nat, c: nat, p: nat, w: int, x: nat)
    requires v + c * p == w
    ensures v + LowLimb(c + x) * p + Carry(c + x) * (B * p) == w + x * p
  {
    var t := c + x;
    assert t == Carry(t) * B + LowLimb(t);
    Arith.Associate(Carry(t), B, p);
    Arith.Distribute(Carry(t) * B, LowLimb(t), p);
    Arith.Distribute(c, x, p);
  }

  /** What is left of a sum when the carry is dropped. */
  lemma Wrapped(v: nat, c: nat, p: nat, w: nat)
    requires v + c * p == w && v < p
    ensures v == w % p
  {
    QuotientIs(c, v, p);
  }

  /** The first i limbs, with the carry, stand for the total. */
  ghost predicate Summed(now: seq<nat>, i: nat, carry: nat, total: int)
    requires i <= |now|
  {
    Val(now[..i]) + carry * Pow(B, i) == total
  }

  lemma SummedStart(now: seq<nat>, i: nat)
    requires i <= |now|
    ensures Summed(now, i, 0, Val(now[..i]))
  {
  }

  lemma SummedStep(now: seq<nat>, i: nat, carry: nat, total: int, x: nat)
    requires i < |now| && Summed(now, i, carry, total)
    ensures Summed(now[i := LowLimb(carry + x)], i + 1, Carry(carry + x), total + x * Pow(B, i))
  {
    hide Val, Pow;
    var after := now[i := LowLimb(carry + x)];
    assert after[..i] == now[..i];
    ValNext(after, i);
    PowNext(B, i);
    CarryStep(Val(now[..i]), carry, Pow(B, i), total, x);
  }

  /** When all limbs are done the carry is dropped. */
  lemma SummedEnd(now: seq<nat>, carry: nat, total: nat)
    requires |now| == WIDTH && LimbsOk(now) && Summed(now, WIDTH, carry, total)
    ensures Val(now) == total % Top()
  {
    hide Val, Pow;
    ValAll(now);
    ValBelow(now);
    Wrapped(Val(now), carry, Pow(B, WIDTH), total);
  }

  // ---------- Totals of the different loops ----------

  lemma AddTotal(a: seq<nat>, b: seq<nat>, i: nat)
    requires i < |a| && i < |b|
    ensures Val(a[..i + 1]) + Val(b[..i + 1]) == Val(a[..i]) + Val(b[..i]) + (a[i] + b[i]) * Pow(B, i)
  {
    hide Val, Pow;
    ValNext(a, i);
    ValNext(b, i);
    Arith.Distribute(a[i], b[i], Pow(B, i));
  }

  lemma ScaleTotal(a: seq<nat>, f: nat, i: nat)
    requires i < |a|
    ensures Val(a[..i + 1]) * f == Val(a[..i]) * f + (f * a[i]) * Pow(B, i)
  {
    hide Val, Pow;
    ValNext(a, i);
    Arith.Distribute(Val(a[..i]), a[i] * Pow(B, i), f);
    Arith.Associate(f, a[i], Pow(B, i));
  }

  /** Row j of the long multiplication, limb i. */
  lemma RowTotal(start: seq<nat>, x: nat, j: nat, b: seq<nat>, i: nat)
    requires j + i < |start| && i < |b|
    ensures Val(start[..j + i + 1]) + x * (Pow(B, j) * Val(b[..i + 1])) ==
            Val(start[..j + i]) + x * (Pow(B, j) * Val(b[..i])) + (start[j + i] + x * b[i]) * Pow(B, j + i)
  {
    hide Val, Pow;
    ValNext(start, j + i);
    ValNext(b, i);
    PowAdd(B, j, i);
    var p, q, v := Pow(B, j), Pow(B, i), Val(b[..i]);
    SplitTerm(p, v, b[i], q);
    Arith.Distribute(p * v, b[i] * (p * q), x);
    Arith.Associate(x, b[i], p * q);
    Arith.Distribute(start[j + i], x * b[i], p * q);
  }

  /** What a row adds up to after i of its limbs. */
  ghost function RowSum(start: seq<nat>, x: nat, j: nat, b: seq<nat>, i: nat): int
    requires j + i <= |start| && i <= |b|
  {
    Val(start[..j + i]) + x * (Pow(B, j) * Val(b[..i]))
  }

  lemma RowStart(start: seq<nat>, x: nat, j: nat, b: seq<nat>)
    requires j <= |start|
    ensures Summed(start, j, 0, RowSum(start, x, j, b, 0))
  {
    hide Val, Pow;
    NoLimbs();
    assert b[..0] == [] && x * (Pow(B, j) * 0) == 0;
    SummedStart(start, j);
  }

  lemma RowStep(start: seq<nat>, now: seq<nat>, x: nat, j: nat, b: seq<nat>, i: nat, carry: nat)
    requires j + i < |start| == |now| && i < |b| && now[i + j] == start[j + i] < B && x < B && b[i] < B && carry < B
    requires Summed(now, j + i, carry, RowSum(start, x, j, b, i))
    ensures
      var n := carry + (now[i + j] + x * b[i]);
      && 0 <= n < B * B && Carry(n) < B
      && Summed(now[i + j := LowLimb(n)], j + i + 1, Carry(n), RowSum(start, x, j, b, i + 1))
  {
    hide Val, Pow, Summed, LowLimb, Carry;
    FitsWord(carry, now[i + j], x, b[i]);
    SummedStep(now, j + i, carry, RowSum(start, x, j, b, i), start[j + i] + x * b[i]);
    RowTotal(start, x, j, b, i);
  }

  /** The limbs of b that a row leaves out only matter beyond the top. */
  lemma RowRest(x: nat, j: nat, b: seq<nat>)
    requires |b| == WIDTH && j <= WIDTH
    ensures (x * Pow(B, j)) * Val(b) == x * (Pow(B, j) * Val(b[..WIDTH - j])) + (x * Val(b[WIDTH - j..])) * Top()
  {
    hide Val, Pow;
    var n := WIDTH - j;
    assert b == b[..n] + b[n..];
    ValConcat(b[..n], b[n..]);
    PowAdd(B, j, n);
    RowProduct(x, Pow(B, j), Pow(B, n), Val(b[..n]), Val(b[n..]));
  }

  lemma RowProduct(x: nat, p: nat, q: nat, v: nat, w: nat)
    ensures (x * p) * (v + q * w) == x * (p * v) + (x * w) * (p * q)
  {
    calc {
      (x * p) * (v + q * w);
      { Arith.Distribute(v, q * w, x * p); }
      (x * p) * v + (x * p) * (q * w);
      { Arith.Associate(x, p, v); }
      x * (p * v) + (x * p) * (q * w);
      { Regrouped(x, p, q, w); }
      x * (p * v) + (x * w) * (p * q);
    }
  }

  lemma Regrouped(x: nat, p: nat, q: nat, w: nat)
    ensures (x * p) * (q * w) == (x * w) * (p * q)
  {
    calc {
      (x * p) * (q * w);
      { Arith.Associate(x * p, q, w); }
      ((x * p) * q) * w;
      { Arith.Associate(x, p, q); }
      (x * (p * q)) * w;
      { Arith.Associate(w, x, p * q); }
      (x * w) * (p * q);
    }
  }

  /** Equal limbs above, and a smaller one here: a smaller number. */
  lemma LessAt(a: seq<nat>, b: seq<nat>, i: nat)
    requires |a| == |b| && i < |a| && LimbsOk(a) && LimbsOk(b) && a[i + 1..] == b[i + 1..] && a[i] < b[i]
    ensures Val(a) < Val(b)
  {
    hide Val, Pow;
    assert a == a[..i + 1] + a[i + 1..] && b == b[..i + 1] + b[i + 1..];
    ValConcat(a[..i + 1], a[i + 1..]);
    ValConcat(b[..i + 1], b[i + 1..]);
    ValNext(a, i);
    ValNext(b, i);
    ValBelow(a[..i]);
    Arith.MulLe(a[i] + 1, b[i], Pow(B, i));
    Arith.Distribute(a[i], 1, Pow(B, i));
  }

  // ---------- Words of 64 bits suffice ----------

  lemma FitsWord(c: nat, d: nat, a: nat, b: nat)
    requires c < B && d < B && a < B && b < B
    ensures a * b >= 0 && c + (d + a * b) < B * B && Carry(c + (d + a * b)) < B
  {
    Arith.MulLe(0, a, b);
    Arith.MulLe(a, B - 1, b);
    Arith.MulLe(b, B - 1, B - 1);
    assert (B - 1) * (B - 1) == B * B - 2 * B + 1;
  }

  // ---------- Complement and increment ----------

  lemma ComplementTotal(a: seq<nat>, r: seq<nat>, i: nat)
    requires i < |a| && i < |r| && r[i] == B - 1 - a[i] && Val(r[..i]) + Val(a[..i]) == Pow(B, i) - 1
    ensures Val(r[..i + 1]) + Val(a[..i + 1]) == Pow(B, i + 1) - 1
  {
    hide Val, Pow;
    ValNext(a, i);
    ValNext(r, i);
    PowNext(B, i);
    Arith.Distribute(a[i], r[i], Pow(B, i));
    Arith.Distribute(B - 1, 1, Pow(B, i));
  }

  /** Once nothing is carried, the other limbs can stay. */
  lemma SettledAt(a: seq<nat>, now: seq<nat>, i: nat, d: int)
    requires |a| == |now| && i <= |a| && now[i..] == a[i..] && Summed(now, i, 0, Val(a[..i]) + d)
    ensures Val(now) == Val(a) + d
  {
    hide Val, Pow;
    assert a == a[..i] + a[i..] && now == now[..i] + now[i..];
    ValConcat(a[..i], a[i..]);
    ValConcat(now[..i], now[i..]);
  }
}
