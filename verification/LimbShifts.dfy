/** Shifting a number by bits, on its limbs. */
module LimbShifts {
  import Arith
  import opened Positional
  import opened Limbs

  // ---------- Bitwise or ----------

  function BitOr(x: nat, y: nat): nat {
    if x == 0 then y
    else if y == 0 then x
    else 2 * BitOr(x / 2, y / 2) + if x % 2 == 1 || y % 2 == 1 then 1 else 0
  }

  /** Numbers without common bits are joined by adding them. */
  lemma {:induction false} BitOrDisjoint(x: nat, q: nat, k: nat)
    requires x < Pow(2, k)
    ensures BitOr(x, q * Pow(2, k)) == BitOr(q * Pow(2, k), x) == x + q * Pow(2, k)
  {
    if k == 0 {
      assert x == 0;
    } else {
      var y := q * Pow(2, k - 1);
      assert q * Pow(2, k) == 2 * y;
      BitOrDisjoint(x / 2, q, k - 1);
    }
  }

  // ---------- Powers of two ----------

  lemma WordPower()
    ensures Pow(2, 32) == B
  {
    PowAdd(2, 8, 8);
    PowAdd(2, 16, 16);
    assert Pow(2, 4) == 16;
    PowAdd(2, 4, 4);
  }

  lemma {:induction false} LimbPower(k: nat)
    ensures Pow(2, 32 * k) == Pow(B, k)
  {
    if k > 0 {
      LimbPower(k - 1);
      hide Pow;
      PowAdd(2, 32, 32 * (k - 1));
      WordPower();
      PowNext(B, k - 1);
    } else {
      assert Pow(2, 0) == 1;
    }
  }

  /** The parts of a bit shift within a word. */
  lemma WordSplit(s: nat)
    requires s < 32
    ensures Pow(2, s) >= 1 && Pow(2, 32 - s) >= 1 && Pow(2, s) * Pow(2, 32 - s) == B
  {
    hide Pow;
    PowPositive(2, s);
    PowPositive(2, 32 - s);
    PowAdd(2, s, 32 - s);
    WordPower();
  }

  lemma ShiftPower(shift: nat)
    ensures Pow(2, shift) == Pow(2, shift % 32) * Pow(B, shift / 32)
  {
    hide Pow;
    PowAdd(2, shift % 32, 32 * (shift / 32));
    LimbPower(shift / 32);
  }

  // ---------- Left ----------

  /** The bits of x that go over into the next limb. */
  function Over(x: nat, s: nat): nat
    requires s < 32
  {
    x / Pow2(32 - s)
  }

  function Stay(x: nat, s: nat): (r: nat)
    ensures r < B
  {
    x * Pow2(s) % B
  }

  /** Both parts together are the shifted limb. */
  lemma OverAndStay(x: nat, s: nat)
    requires s < 32 && x < B
    ensures x * Pow2(s) == Over(x, s) * B + Stay(x, s) && Over(x, s) < Pow2(s)
    ensures Stay(x, s) == (x % Pow2(32 - s)) * Pow2(s) && Stay(x, s) + Pow2(s) <= B
  {
    hide Pow;
    WordSplit(s);
    var S, T := Pow2(s), Pow2(32 - s);
    Arith.DivMod(x, T);
    var q, r := x / T, x % T;
    assert x * S == q * (S * T) + r * S by {
      Arith.Distribute(q * T, r, S);
      Arith.Associate(q, T, S);
    }
    Arith.MulLe(r + 1, T, S);
    Arith.Distribute(r, 1, S);
    QuotientIs(q, r * S, B);
    if q >= S {
      Arith.MulLe(S, q, T);
    }
  }

  /** The limb of the shifted number, from a limb and the one below it. */
  function Joined(x: nat, below: nat, s: nat): (r: nat)
    requires s < 32
  {
    Stay(x, s) + Over(below, s)
  }

  lemma JoinedIs(x: nat, below: nat, s: nat)
    requires s < 32 && x < B && below < B
    ensures BitOr(Over(below, s), Stay(x, s)) == Joined(x, below, s) < B
  {
    hide BitOr, Pow2, Over, Stay;
    OverAndStay(x, s);
    OverAndStay(below, s);
    JoinBits(Over(below, s), x % Pow2(32 - s), s);
  }

  lemma JoinBits(x: nat, q: nat, k: nat)
    requires x < Pow2(k)
    ensures q * Pow2(k) >= 0 && BitOr(x, q * Pow2(k)) == BitOr(q * Pow2(k), x) == x + q * Pow2(k)
  {
    hide BitOr, Pow;
    BitOrDisjoint(x, q, k);
  }

  function LimbBelow(a: seq<nat>, j: nat): nat
    requires j <= |a|
  {
    if j == 0 then 0 else a[j - 1]
  }

  /** All limbs joined, and what goes over the last one: the number times a power of two. */
  ghost predicate IsJoined(a: seq<nat>, d: seq<nat>, s: nat)
    requires s < 32
  {
    |d| == |a| && forall j | 0 <= j < |a| :: d[j] == Joined(a[j], LimbBelow(a, j), s)
  }

  ghost predicate JoinedUpTo(a: seq<nat>, d: seq<nat>, s: nat, i: nat)
    requires s < 32 && i <= |a| && i <= |d|
  {
    Val(d[..i]) + Over(LimbBelow(a, i), s) * Pow(B, i) == Val(a[..i]) * Pow2(s)
  }

  lemma JoinedNext(a: seq<nat>, d: seq<nat>, s: nat, k: nat)
    requires s < 32 && LimbsOk(a) && IsJoined(a, d, s) && k < |a| && JoinedUpTo(a, d, s, k)
    ensures JoinedUpTo(a, d, s, k + 1)
  {
    hide Val, Pow, Pow2, Over, Stay;
    ValNext(a, k);
    ValNext(d, k);
    PowNext(B, k);
    OverAndStay(a[k], s);
    var v, c, p, w, f := Val(d[..k]), Over(LimbBelow(a, k), s), Pow(B, k), Val(a[..k]), Pow2(s);
    JoinStep(v, c, p, w, f, a[k], Over(a[k], s), Stay(a[k], s));
    assert d[k] == Stay(a[k], s) + c;
  }

  lemma JoinedStart(a: seq<nat>, d: seq<nat>, s: nat)
    requires s < 32
    ensures JoinedUpTo(a, d, s, 0)
  {
    hide Val, Pow, Pow2, Over;
    NoLimbs();
    assert a[..0] == [] && d[..0] == [];
    OverNothing(s);
  }

  lemma {:induction false} JoinedValue(a: seq<nat>, d: seq<nat>, s: nat, i: nat)
    requires s < 32 && LimbsOk(a) && IsJoined(a, d, s) && i <= |a|
    ensures JoinedUpTo(a, d, s, i)
  {
    hide JoinedUpTo;
    if i == 0 {
      JoinedStart(a, d, s);
    } else {
      JoinedValue(a, d, s, i - 1);
      JoinedNext(a, d, s, i - 1);
    }
  }

  lemma OverNothing(s: nat)
    requires s < 32
    ensures Over(0, s) == 0
  {
  }

  lemma JoinStep(v: nat, c: nat, p: nat, w: nat, f: nat, x: nat, o: nat, y: nat)
    requires v + c * p == w * f && x * f == o * B + y
    ensures v + (y + c) * p + o * (B * p) == (w + x * p) * f
  {
    Arith.Distribute(y, c, p);
    Arith.Associate(o, B, p);
    Arith.Distribute(o * B, y, p);
    Arith.Distribute(w, x * p, f);
    Arith.Associate(f, x, p);
  }

  /** The result of a left shift, limb by limb. */
  ghost predicate ShiftedLeft(a: seq<nat>, r: seq<nat>, k: nat, s: nat)
    requires s < 32
  {
    && |r| == |a|
    && forall j | 0 <= j < |r| :: r[j] == if j < k then 0 else Joined(a[j - k], LimbBelow(a, j - k), s)
  }

  lemma ShiftedLeftValue(a: seq<nat>, r: seq<nat>, k: nat, s: nat)
    requires s < 32 && |a| == WIDTH && LimbsOk(a) && LimbsOk(r) && ShiftedLeft(a, r, k, s)
    ensures Val(r) == (Val(a) * (Pow2(s) * Pow(B, k))) % Top()
  {
    hide Val, Pow, Pow2, Joined, Over, Top;
    var d := AllJoined(a, s);
    JoinedValue(a, d, s, WIDTH);
    ValAll(a);
    ValAll(d);
    if k >= WIDTH {
      ValZeros(r);
      BeyondTop(Val(a), Pow2(s), k);
    } else {
      MovedUp(d, r, k);
      ValBelow(r);
      PartBeyond(Val(a), Pow2(s), Pow(B, k), Pow(B, WIDTH - k), Val(d[..WIDTH - k]), Val(d[WIDTH - k..]),
                 Over(LimbBelow(a, WIDTH), s), Val(r), Top());
    }
  }

  lemma BeyondTop(a: nat, f: nat, k: nat)
    requires k >= WIDTH
    ensures (a * (f * Pow(B, k))) % Top() == 0
  {
    hide Pow;
    PowAdd(B, WIDTH, k - WIDTH);
    PowPositive(B, WIDTH);
    AllBeyond(a * f, Pow(B, WIDTH), Pow(B, k - WIDTH), a, f, Pow(B, k));
  }

  /** Limbs moved up by k places. */
  lemma MovedUp(d: seq<nat>, r: seq<nat>, k: nat)
    requires |d| == |r| == WIDTH && k < WIDTH && forall j | 0 <= j < WIDTH :: r[j] == if j < k then 0 else d[j - k]
    ensures Val(r) == Pow(B, k) * Val(d[..WIDTH - k])
    ensures Val(d) == Val(d[..WIDTH - k]) + Pow(B, WIDTH - k) * Val(d[WIDTH - k..])
    ensures Pow(B, WIDTH) == Top() == Pow(B, k) * Pow(B, WIDTH - k)
  {
    hide Val, Pow;
    var n := WIDTH - k;
    assert d == d[..n] + d[n..] && r == r[..k] + r[k..];
    assert r[k..] == d[..n];
    ValConcat(d[..n], d[n..]);
    ValConcat(r[..k], r[k..]);
    ValZeros(r[..k]);
    PowAdd(B, k, n);
  }

  lemma AllBeyond(v: nat, top: nat, rest: nat, a: nat, f: nat, p: nat)
    requires v == a * f && p == top * rest && top > 0
    ensures (a * (f * p)) % top == 0
  {
    Arith.Associate(a, f, p);
    Arith.Associate(v, rest, top);
    QuotientIs(v * rest, 0, top);
  }

  lemma PartBeyond(a: nat, f: nat, p: nat, q: nat, low: nat, high: nat, over: nat, r: nat, top: nat)
    requires low + q * high + over * top == a * f && top == p * q && r == p * low < top
    ensures r == (a * (f * p)) % top
  {
    calc {
      a * (f * p);
      { Arith.Associate(a, f, p); }
      (low + q * high + over * top) * p;
      { Arith.Distribute(low + q * high, over * top, p); }
      (low + q * high) * p + (over * top) * p;
      { Arith.Distribute(low, q * high, p); }
      r + (q * high) * p + (over * top) * p;
      { Arith.Associate(p, q, high); Arith.Associate(over, top, p); }
      r + high * top + (over * p) * top;
      { Arith.Distribute(high, over * p, top); }
      (high + over * p) * top + r;
    }
    QuotientIs(high + over * p, r, top);
  }

  function AllJoined(a: seq<nat>, s: nat): (d: seq<nat>)
    requires s < 32
    ensures IsJoined(a, d, s)
  {
    seq(|a|, j requires 0 <= j < |a| => Joined(a[j], LimbBelow(a, j), s))
  }

  // ---------- Right ----------

  function LimbAt(a: seq<nat>, j: nat): nat {
    if j < |a| then a[j] else 0
  }

  /** The limb of the number shifted right, from a limb and the one above it. */
  function Parted(x: nat, above: nat, s: nat): nat
    requires s < 32
  {
    Down(x, s) + Stay(above, 32 - s)
  }

  function Down(x: nat, s: nat): nat {
    x / Pow2(s)
  }

  /** The bits that a right shift drops from a limb. */
  function Dropped(x: nat, s: nat): nat {
    x % Pow2(s)
  }

  lemma StayAbove(y: nat, s: nat)
    requires s < 32 && y < B
    ensures Stay(y, 32 - s) == Dropped(y, s) * Pow2(32 - s) && Stay(y, 32 - s) + Pow2(32 - s) <= B
  {
    hide Pow;
    if s > 0 {
      OverAndStay(y, 32 - s);
    } else {
      WordPower();
      NoLimbs();
      Pow2Zero();
      QuotientIs(y, 0, B);
    }
  }

  lemma DownIs(x: nat, s: nat)
    requires s < 32 && x < B
    ensures x == Down(x, s) * Pow2(s) + Dropped(x, s) && Dropped(x, s) < Pow2(s) && Down(x, s) < Pow2(32 - s)
  {
    hide Pow;
    WordSplit2(s);
    var S, T := Pow2(s), Pow2(32 - s);
    Arith.DivMod(x, S);
    if x / S >= T {
      Arith.MulLe(T, x / S, S);
    }
  }

  lemma PartedIs(x: nat, above: nat, s: nat)
    requires s < 32 && x < B && above < B
    ensures BitOr(Down(x, s), Stay(above, 32 - s)) == Parted(x, above, s) < B
    ensures Pow2(s) * Parted(x, above, s) == x - Dropped(x, s) + Dropped(above, s) * B
  {
    hide BitOr, Stay, Pow2, Down, Dropped;
    WordSplit2(s);
    StayAbove(above, s);
    DownIs(x, s);
    JoinBits(Down(x, s), Dropped(above, s), 32 - s);
    Arith.Distribute(Down(x, s), Dropped(above, s) * Pow2(32 - s), Pow2(s));
    Arith.Associate(Dropped(above, s), Pow2(32 - s), Pow2(s));
  }

  lemma WordSplit2(s: nat)
    requires s < 32
    ensures Pow2(s) * Pow2(32 - s) == B
  {
    WordSplit(s);
  }

  ghost predicate IsParted(a: seq<nat>, e: seq<nat>, s: nat)
    requires s < 32
  {
    |e| == |a| && forall j | 0 <= j < |a| :: e[j] == Parted(a[j], LimbAt(a, j + 1), s)
  }

  lemma {:induction false} PartedValue(a: seq<nat>, e: seq<nat>, s: nat, i: nat)
    requires s < 32 && LimbsOk(a) && IsParted(a, e, s) && i <= |a|
    ensures Pow2(s) * Val(e[..i]) + Dropped(LimbAt(a, 0), s) == Val(a[..i]) + Dropped(LimbAt(a, i), s) * Pow(B, i)
  {
    hide Val, Pow, Pow2, Parted, Dropped;
    if i == 0 {
      NoLimbs();
      assert a[..0] == [] && e[..0] == [];
    } else {
      var k := i - 1;
      PartedValue(a, e, s, k);
      ValNext(a, k);
      ValNext(e, k);
      PowNext(B, k);
      PartedIs(a[k], LimbAt(a, k + 1), s);
      PartStep(Pow2(s), Val(e[..k]), Dropped(LimbAt(a, 0), s), Val(a[..k]), Dropped(a[k], s), Pow(B, k), e[k], a[k],
               Dropped(LimbAt(a, k + 1), s));
    }
  }

  lemma PartStep(f: nat, v: nat, low: nat, w: nat, r: nat, p: nat, y: nat, x: nat, r': nat)
    requires f * v + low == w + r * p && f * y == x - r + r' * B
    ensures f * (v + y * p) + low == (w + x * p) + r' * (B * p)
  {
    Arith.Distribute(v, y * p, f);
    Arith.Associate(f, y, p);
    Arith.Distribute(x - r, r' * B, p);
    Arith.Distribute(x - r, r, p);
    Arith.Associate(r', B, p);
  }

  ghost predicate ShiftedRight(a: seq<nat>, r: seq<nat>, k: nat, s: nat)
    requires s < 32
  {
    && |r| == |a|
    && forall j | 0 <= j < |r| :: r[j] == if j + k < |a| then Parted(a[j + k], LimbAt(a, j + k + 1), s) else 0
  }

  lemma ShiftedRightValue(a: seq<nat>, r: seq<nat>, k: nat, s: nat)
    requires s < 32 && |a| == WIDTH && LimbsOk(a) && ShiftedRight(a, r, k, s)
    ensures IsQuotient(Val(a), Pow2(s) * Pow(B, k), Val(r))
  {
    hide Val, Pow, Pow2, Parted, Dropped, IsQuotient;
    if k >= WIDTH {
      ValZeros(r);
      ValBelow(a);
      TooSmall(Val(a), Pow2(s), k);
    } else {
      var high, e := a[k..], r[..WIDTH - k];
      MovedDown(a, r, k);
      PartedWhole(high, e, s);
      DroppedSmall(LimbAt(high, 0), s);
      Remainders(Val(a[..k]), Pow(B, k), Val(high), Pow2(s), Val(e), Dropped(LimbAt(high, 0), s));
    }
  }

  lemma PartedWhole(a: seq<nat>, e: seq<nat>, s: nat)
    requires s < 32 && LimbsOk(a) && IsParted(a, e, s)
    ensures Pow2(s) * Val(e) + Dropped(LimbAt(a, 0), s) == Val(a)
  {
    hide Val, Pow, Pow2, Parted, Dropped;
    PartedValue(a, e, s, |a|);
    ValAll(a);
    ValAll(e);
    NothingDropped(s);
  }

  lemma MovedDown(a: seq<nat>, r: seq<nat>, k: nat)
    requires |a| == |r| == WIDTH && LimbsOk(a) && k < WIDTH && forall j | WIDTH - k <= j < WIDTH :: r[j] == 0
    ensures Val(a) == Val(a[..k]) + Pow(B, k) * Val(a[k..]) && Val(a[..k]) < Pow(B, k)
    ensures Val(r) == Val(r[..WIDTH - k])
  {
    hide Val, Pow;
    var n := WIDTH - k;
    assert a == a[..k] + a[k..] && r == r[..n] + r[n..];
    ValConcat(a[..k], a[k..]);
    ValConcat(r[..n], r[n..]);
    ValZeros(r[n..]);
    ValBelow(a[..k]);
  }

  lemma NothingDropped(s: nat)
    ensures Dropped(0, s) == 0
  {
  }

  lemma DroppedSmall(x: nat, s: nat)
    ensures Dropped(x, s) < Pow2(s)
  {
    hide Pow;
    Arith.DivMod(x, Pow2(s));
  }

  lemma TooSmall(v: nat, f: nat, k: nat)
    requires k >= WIDTH && v < Pow(B, WIDTH) && f >= 1
    ensures IsQuotient(v, f * Pow(B, k), 0)
  {
    hide Pow;
    PowMonotone(B, WIDTH, k);
    Arith.MulLe(1, f, Pow(B, k));
  }

  lemma Remainders(low: nat, p: nat, high: nat, f: nat, e: nat, r: nat)
    requires low < p && r < f && f * e + r == high
    ensures IsQuotient(low + p * high, f * p, e)
  {
    calc {
      low + p * high;
      { Arith.Distribute(f * e, r, p); }
      low + (f * e) * p + r * p;
      { Arith.Associate(e, f, p); }
      e * (f * p) + (low + r * p);
    }
    Arith.MulLe(r + 1, f, p);
    Arith.Distribute(r, 1, p);
    Arith.MulLe(0, r, p);
  }

  // ---------- Single bits ----------

  predicate TestBit(x: nat, k: nat) {
    x / Pow2(k) % 2 == 1
  }

  lemma TopBit(x: nat, k: nat)
    requires x < Pow(2, k + 1)
    ensures TestBit(x, k) <==> x >= Pow(2, k)
  {
    hide Pow;
    PowNext(2, k);
    if x >= Pow2(k) {
      QuotientIs(1, x - Pow2(k), Pow2(k));
    } else {
      QuotientIs(0, x, Pow2(k));
    }
  }

  /** The highest bit of the highest limb is the highest bit of the number. */
  lemma HighestBit(a: seq<nat>, pos: nat, b: nat)
    requires |a| == WIDTH && LimbsOk(a) && pos < WIDTH && (forall j | pos < j < WIDTH :: a[j] == 0)
    requires Pow(2, b) <= a[pos] < Pow(2, b + 1)
    ensures Pow(2, 32 * pos + b) <= Val(a) < Pow(2, 32 * pos + b + 1)
  {
    hide Val, Pow;
    assert a == a[..pos + 1] + a[pos + 1..];
    ValConcat(a[..pos + 1], a[pos + 1..]);
    ValZeros(a[pos + 1..]);
    ValNext(a, pos);
    ValBelow(a[..pos]);
    LimbPower(pos);
    var p := Pow(B, pos);
    PowAdd(2, 32 * pos, b);
    PowAdd(2, 32 * pos, b + 1);
    Arith.MulLe(Pow(2, b), a[pos], p);
    Arith.MulLe(a[pos] + 1, Pow(2, b + 1), p);
    Arith.Distribute(a[pos], 1, p);
  }

  lemma ValUpdate(a: seq<nat>, j: nat, d: nat)
    requires j < |a|
    ensures Val(a[j := a[j] + d]) == Val(a) + d * Pow(B, j)
  {
    hide Val, Pow;
    var r := a[j := a[j] + d];
    assert a == a[..j + 1] + a[j + 1..] && r == r[..j + 1] + r[j + 1..];
    assert r[..j] == a[..j] && r[j + 1..] == a[j + 1..];
    ValConcat(a[..j + 1], a[j + 1..]);
    ValConcat(r[..j + 1], r[j + 1..]);
    ValNext(a, j);
    ValNext(r, j);
    Arith.Distribute(a[j], d, Pow(B, j));
  }

  /** No bit below m is set. */
  ghost predicate LowZero(a: seq<nat>, m: nat) {
    forall j | 0 <= j < |a| :: LimbLowZero(a[j], j, m)
  }

  ghost predicate LimbLowZero(x: nat, j: nat, m: nat) {
    if 32 * j + 32 <= m then x == 0 else m > 32 * j ==> MultipleOf(x, m - 32 * j)
  }

  ghost predicate MultipleOf(x: nat, k: nat) {
    exists q: nat :: IsMultiple(x, q, k)
  }

  predicate IsMultiple(x: nat, q: nat, k: nat) {
    x == q * Pow2(k)
  }

  /** Setting the next lower bit adds its power of two. */
  lemma SetNextBit(a: seq<nat>, shift: nat)
    requires |a| == WIDTH && LimbsOk(a) && shift < 256 && LowZero(a, shift + 1)
    ensures
      var j, e := shift / 32, shift % 32;
      var r := a[j := BitOr(a[j], Pow2(e))];
      LimbsOk(r) && Val(r) == Val(a) + Pow(2, shift) && LowZero(r, shift)
  {
    hide Val, Pow, BitOr, Pow2;
    var j, e := shift / 32, shift % 32;
    SetLimbBit(a[j], j, e);
    ValUpdate(a, j, Pow2(e));
    PowersOfShift(shift);
    var r := a[j := BitOr(a[j], Pow2(e))];
    forall i | 0 <= i < WIDTH
      ensures LimbLowZero(r[i], i, shift)
    {
      if i != j {
        LimbStays(a[i], i, shift);
      }
    }
  }

  lemma PowersOfShift(shift: nat)
    ensures Pow(2, shift) == Pow2(shift % 32) * Pow(B, shift / 32)
  {
    ShiftPower(shift);
  }

  lemma LimbStays(x: nat, i: nat, shift: nat)
    requires LimbLowZero(x, i, shift + 1) && i != shift / 32
    ensures LimbLowZero(x, i, shift)
  {
  }

  lemma SetLimbBit(x: nat, j: nat, e: nat)
    requires e < 32 && x < B && LimbLowZero(x, j, 32 * j + e + 1)
    ensures BitOr(x, Pow2(e)) == x + Pow2(e) < B && LimbLowZero(x + Pow2(e), j, 32 * j + e)
  {
    hide Pow, BitOr;
    PowNext(2, e);
    if e == 31 {
      WordPower();
      JoinBits(0, 1, e);
      assert BitOr(0, Pow2(e)) == Pow2(e) by { JoinBits(0, 1, e); }
      assert IsMultiple(x + Pow2(e), 1, e);
    } else {
      var q: nat :| IsMultiple(x, q, e + 1);
      JoinBits(Pow2(e), q, e + 1);
      Arith.Associate(q, 2, Pow2(e));
      Arith.Distribute(2 * q, 1, Pow2(e));
      assert IsMultiple(x + Pow2(e), 2 * q + 1, e);
      BelowWord(q, e);
    }
  }

  lemma BelowWord(q: nat, e: nat)
    requires e < 31 && q * Pow2(e + 1) < B
    ensures q * Pow2(e + 1) + Pow2(e) < B
  {
    hide Pow;
    PowNext(2, e);
    WordSplit2(e + 1);
    var t := Pow2(32 - (e + 1));
    if q >= t {
      Arith.MulLe(t, q, Pow2(e + 1));
    }
    Arith.MulLe(q + 1, t, Pow2(e + 1));
    Arith.Distribute(q, 1, Pow2(e + 1));
  }
}
