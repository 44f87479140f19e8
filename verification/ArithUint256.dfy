/** The 256-bit unsigned integer (`arith_uint256`): its limb loops agree with arithmetic modulo 2 to the 256. */
module ArithUint256 {
  import Arith
  import opened Positional
  import opened Limbs
  import opened LimbShifts
  import opened CompactForm

  const ZEROS: seq<nat> := [0, 0, 0, 0, 0, 0, 0, 0]

  class Uint256 {
    var pn: seq<nat>

    ghost predicate Valid()
      reads this
    {
      |pn| == WIDTH && LimbsOk(pn)
    }

    ghost function Value(): nat
      reads this
    {
      Val(pn)
    }

    constructor ()
      ensures Valid() && Value() == 0
    {
      pn := ZEROS;
      new;
      ValZeros(pn);
    }

    constructor Copy(b: Uint256)
      requires b.Valid()
      ensures Valid() && pn == b.pn
    {
      pn := b.pn;
    }

    /** `*this += b`; b may be this object itself. */
    method Add(b: Uint256)
      requires Valid() && b.Valid()
      modifies this`pn
      ensures Valid() && Value() == (old(Value()) + old(b.Value())) % Top()
    {
      hide Val, Pow, Summed, LowLimb, Carry;
      ghost var a0, b0 := pn, b.pn;
      var carry: nat := 0;
      NoLimbs();
      SummedStart(pn, 0);
      assert pn[..0] == [] && b0[..0] == [];
      for i := 0 to WIDTH
        invariant Valid() && b.Valid()
        invariant forall j | i <= j < WIDTH :: pn[j] == a0[j] && b.pn[j] == b0[j]
        invariant Summed(pn, i, carry, Val(a0[..i]) + Val(b0[..i]))
      {
        SummedStep(pn, i, carry, Val(a0[..i]) + Val(b0[..i]), pn[i] + b.pn[i]);
        AddTotal(a0, b0, i);
        var n := carry + (pn[i] + b.pn[i]);
        pn := pn[i := LowLimb(n)];
        carry := Carry(n);
      }
      ValAll(a0);
      ValAll(b0);
      SummedEnd(pn, carry, Val(a0) + Val(b0));
    }

    /** `*this *= b32`. */
    method MultiplySmall(b32: nat)
      requires Valid() && b32 < B
      modifies this`pn
      ensures Valid() && Value() == (old(Value()) * b32) % Top()
    {
      hide Val, Pow, Summed, LowLimb, Carry;
      ghost var a0 := pn;
      var carry: nat := 0;
      NoLimbs();
      SummedStart(pn, 0);
      assert pn[..0] == [];
      for i := 0 to WIDTH
        invariant Valid() && carry < B && forall j | i <= j < WIDTH :: pn[j] == a0[j]
        invariant Summed(pn, i, carry, Val(a0[..i]) * b32)
      {
        FitsWord(carry, 0, b32, pn[i]);
        SummedStep(pn, i, carry, Val(a0[..i]) * b32, b32 * pn[i]);
        ScaleTotal(a0, b32, i);
        var n := carry + b32 * pn[i];
        pn := pn[i := LowLimb(n)];
        carry := Carry(n);
      }
      ValAll(a0);
      SummedEnd(pn, carry, Val(a0) * b32);
    }

    /** `*this *= b`: long multiplication, after the object has been cleared. If b is the object itself, then it is
        cleared too, and the result is zero; that is the square exactly for multiples of 2 to the 128. */
    method Multiply(b: Uint256)
      requires Valid() && b.Valid()
      modifies this`pn
      ensures Valid()
      ensures b != this ==> Value() == (old(Value()) * b.Value()) % Top()
      ensures b == this ==>
                && Value() == 0
                && (Value() == (old(Value()) * old(Value())) % Top() <==> IsMultipleOf(old(Value()), Pow(2, 128)))
    {
      hide Val, Pow, Top, Covers;
      SquareIsZero(Value());
      var a := pn;
      pn := ZEROS;
      ValZeros(pn);
      NoLimbs();
      assert a[..0] == [];
      ghost var over: nat := 0;
      CoversNothing(0);
      for j := 0 to WIDTH
        invariant Valid() && b.Valid() && LimbsOk(a)
        invariant if b == this then pn == ZEROS else Covers(Val(pn), over, Val(a[..j]) * Val(b.pn))
      {
        ghost var before := Val(pn);
        var carry := AddRow(a[j], j, b);
        if b != this {
          RowIs(a[j], j, b.pn);
          over := NextRow(a, j, Val(b.pn), before, Val(pn), over, carry,
                          a[j] * (Pow(B, j) * Val(b.pn[..WIDTH - j])), a[j] * Val(b.pn[WIDTH - j..]));
        }
      }
      if b != this {
        ValAll(a);
        ValBelow(pn);
        TopIs();
        CoversWrapped(Val(pn), over, Val(a) * Val(b.pn));
      }
    }

    /** One row of the long multiplication. */
    method AddRow(x: nat, j: nat, b: Uint256) returns (carry: nat)
      requires Valid() && b.Valid() && j < WIDTH && x < B && (b == this ==> pn == ZEROS)
      modifies this`pn
      ensures Valid()
      ensures if b == this then pn == ZEROS
              else Covers(Val(pn), carry, Val(old(pn)) + x * (Pow(B, j) * Val(b.pn[..WIDTH - j])))
    {
      hide Val, Pow, Summed, LowLimb, Carry, Covers, RowSum;
      ghost var start := pn;
      carry := 0;
      var i := 0;
      RowStart(start, x, j, b.pn);
      NoCarryFromZero();
      while i + j < WIDTH
        invariant 0 <= i <= WIDTH - j && Valid() && b.Valid() && carry < B
        invariant forall k | i + j <= k < WIDTH :: pn[k] == start[k]
        invariant if b == this then pn == ZEROS && carry == 0
                  else Summed(pn, j + i, carry, RowSum(start, x, j, b.pn, i))
      {
        if b != this {
          RowStep(start, pn, x, j, b.pn, i, carry);
        }
        var n := carry + (pn[i + j] + x * b.pn[i]);
        pn := pn[i + j := LowLimb(n)];
        carry := Carry(n);
        i := i + 1;
      }
      if b != this {
        SummedIs(pn, carry, RowSum(start, x, j, b.pn, i));
        RowEnd(start, x, j, b.pn);
      }
    }

    /** `~*this` as a new number. */
    method Complement() returns (r: Uint256)
      requires Valid()
      ensures fresh(r) && r.Valid() && r.Value() == Top() - 1 - Value()
    {
      hide Val, Pow;
      r := new Uint256();
      NoLimbs();
      assert r.pn[..0] == [] && pn[..0] == [];
      for i := 0 to WIDTH
        invariant r.Valid() && Val(r.pn[..i]) + Val(pn[..i]) == Pow(B, i) - 1
      {
        ghost var before := r.pn;
        r.pn := r.pn[i := B - 1 - pn[i]];
        assert r.pn[..i] == before[..i];
        ComplementTotal(pn, r.pn, i);
      }
      ValAll(r.pn);
      ValAll(pn);
    }

    /** `++*this`. */
    method Increment()
      requires Valid()
      modifies this`pn
      ensures Valid() && Value() == (old(Value()) + 1) % Top()
    {
      hide Val, Pow, Summed;
      ghost var a := pn;
      var i := 0;
      ghost var carry := Carry(1 + pn[0]);
      IncrementStart(pn);
      SummedStep(pn, 0, 1, 1, pn[0]);
      IncrementTotal(a, 0);
      pn := pn[0 := LowLimb(1 + pn[0])];
      while pn[i] == 0 && i < WIDTH - 1
        invariant 0 <= i < WIDTH && Valid() && pn[i + 1..] == a[i + 1..]
        invariant carry == if pn[i] == 0 then 1 else 0
        invariant Summed(pn, i + 1, carry, Val(a[..i + 1]) + 1)
      {
        i := i + 1;
        SummedStep(pn, i, 1, Val(a[..i]) + 1, pn[i]);
        IncrementTotal(a, i);
        carry := Carry(1 + pn[i]);
        ghost var before := pn;
        pn := pn[i := LowLimb(1 + pn[i])];
        assert pn[i + 1..] == before[i + 1..] == a[i..][1..];
      }
      ValBelow(pn);
      if pn[i] == 0 {
        assert i + 1 == WIDTH;
        ValAll(a);
        SummedEnd(pn, carry, Val(a) + 1);
      } else {
        SettledAt(a, pn, i + 1, 1);
        Wrapped(Val(pn), 0, Pow(B, WIDTH), Val(a) + 1);
      }
    }

    /** `-*this` as a new number. */
    method Negate() returns (r: Uint256)
      requires Valid()
      ensures fresh(r) && r.Valid() && r.Value() == (Top() - Value()) % Top()
    {
      hide Val, Pow;
      r := Complement();
      r.Increment();
    }

    /** `*this -= b`; b may be this object itself. */
    method Subtract(b: Uint256)
      requires Valid() && b.Valid()
      modifies this`pn
      ensures Valid() && Value() == (old(Value()) - old(b.Value())) % Top()
    {
      hide Val, Pow;
      ghost var x, y := Val(pn), Val(b.pn);
      ValBelow(pn);
      ValBelow(b.pn);
      var minus := b.Negate();
      Add(minus);
      Difference(x, y, Pow(B, WIDTH));
    }

    /** The sign of the difference. */
    method CompareTo(b: Uint256) returns (r: int)
      requires Valid() && b.Valid()
      ensures r == if Value() < b.Value() then -1 else if Value() > b.Value() then 1 else 0
    {
      hide Val, Pow;
      var i := WIDTH - 1;
      while i >= 0
        invariant -1 <= i < WIDTH && pn[i + 1..] == b.pn[i + 1..]
      {
        if pn[i] < b.pn[i] {
          LessAt(pn, b.pn, i);
          return -1;
        }
        if pn[i] > b.pn[i] {
          LessAt(b.pn, pn, i);
          return 1;
        }
        assert pn[i..] == [pn[i]] + pn[i + 1..] && b.pn[i..] == [b.pn[i]] + b.pn[i + 1..];
        i := i - 1;
      }
      assert pn[0..] == pn && b.pn[0..] == b.pn;
      r := 0;
    }

    /** `*this <<= shift`. */
    method ShiftLeft(shift: nat)
      requires Valid()
      modifies this`pn
      ensures Valid() && Value() == (old(Value()) * Pow(2, shift)) % Top()
    {
      hide Val, Pow, Pow2, Stay, Over, BitOr, Top;
      var a := pn;
      pn := ZEROS;
      var k, s := shift / 32, shift % 32;
      OverNothing(s);
      for i := 0 to WIDTH
        invariant |pn| == WIDTH && forall j | 0 <= j < WIDTH :: pn[j] == LeftSoFar(a, k, s, i, j)
      {
        if i + k < WIDTH {
          JoinedIs(a[i], LimbBelow(a, i), s);
          OrNothing(Over(a[i], s));
        }
        if i + k + 1 < WIDTH && s != 0 {
          pn := pn[i + k + 1 := BitOr(pn[i + k + 1], Over(a[i], s))];
        }
        if i + k < WIDTH {
          pn := pn[i + k := BitOr(pn[i + k], Stay(a[i], s))];
        }
        NoOver(a[i]);
      }
      LeftEnd(a, pn, k, s);
      ShiftedLeftValue(a, pn, k, s);
      PowersMatch(shift);
    }

    /** `*this >>= shift`. */
    method ShiftRight(shift: nat)
      requires Valid()
      modifies this`pn
      ensures Valid() && Pow(2, shift) > 0 && Value() == old(Value()) / Pow(2, shift)
    {
      hide Val, Pow, Pow2, Stay, BitOr, Parted, Down, IsQuotient;
      var a := pn;
      pn := ZEROS;
      var k, s := shift / 32, shift % 32;
      for i := 0 to WIDTH
        invariant |pn| == WIDTH && forall j | 0 <= j < WIDTH :: pn[j] == RightSoFar(a, k, s, i, j)
      {
        if i >= k + 1 {
          PartedIs(a[i - 1], a[i], s);
          OrNothing(Down(a[i - 1], s));
        }
        OrNothing(Down(a[i], s));
        NoStay(a[i]);
        if i - k - 1 >= 0 && s != 0 {
          pn := pn[i - k - 1 := BitOr(pn[i - k - 1], Stay(a[i], 32 - s))];
        }
        if i - k >= 0 {
          pn := pn[i - k := BitOr(pn[i - k], Down(a[i], s))];
        }
      }
      RightEnd(a, pn, k, s);
      ShiftedRightValue(a, pn, k, s);
      PowersMatch(shift);
      QuotientOf(Val(a), Pow(2, shift), Val(pn));
    }

    /** The position of the highest bit plus one; zero for zero. */
    method Bits() returns (n: nat)
      requires Valid()
      ensures n <= 256 && (n == 0 <==> Value() == 0)
      ensures n > 0 ==> Pow(2, n - 1) <= Value() < Pow(2, n)
    {
      hide Val, Pow, TestBit;
      var pos := WIDTH - 1;
      while pos >= 0
        invariant -1 <= pos < WIDTH && forall j | pos < j < WIDTH :: pn[j] == 0
      {
        if pn[pos] != 0 {
          WordPower();
          var bits := 31;
          while bits > 0
            invariant 0 <= bits <= 31 && pn[pos] < Pow(2, bits + 1)
          {
            TopBit(pn[pos], bits);
            if TestBit(pn[pos], bits) {
              HighestBit(pn, pos, bits);
              PowPositive(2, 32 * pos + bits);
              return 32 * pos + bits + 1;
            }
            bits := bits - 1;
          }
          FirstPowers();
          HighestBit(pn, pos, 0);
          PowPositive(2, 32 * pos);
          return 32 * pos + 1;
        }
        pos := pos - 1;
      }
      ValZeros(pn);
      n := 0;
    }

    /** `*this = b` for a number of one limb. */
    method Assign(b: nat)
      requires b < B
      modifies this`pn
      ensures Valid() && Value() == b
    {
      pn := [b, 0, 0, 0, 0, 0, 0, 0];
      OneLimb(pn);
    }

    /** `*this /= b` by shifting and subtracting; false for a zero divisor. */
    method Divide(b: Uint256) returns (ok: bool)
      requires Valid() && b.Valid()
      modifies this`pn
      ensures Valid() && ok == (old(b.Value()) != 0)
      ensures ok ==> Value() == old(Value()) / old(b.Value())
    {
      hide Val, Pow, Top;
      var div := new Uint256.Copy(b);
      var num := new Uint256.Copy(this);
      ghost var N, D := Val(pn), Val(b.pn);
      pn := ZEROS;
      ValZeros(pn);
      var numBits := num.Bits();
      var divBits := div.Bits();
      if divBits == 0 {
        return false;
      }
      if divBits > numBits {
        SmallerBits(N, D, numBits, divBits);
        return true;
      }
      var shift := numBits - divBits;
      Aligned(N, D, numBits, divBits);
      ValBelowTop(num.pn);
      div.ShiftLeft(shift);
      NoWrap(D * Pow(2, shift), Pow(2, numBits), numBits);
      AllZero(pn, shift + 1);
      assert D * 0 == 0;
      DivideLoop(num, div, shift, N, D);
      ok := true;
    }

    /** The loop of the division. */
    method DivideLoop(num: Uint256, div: Uint256, shift0: int, ghost N: nat, ghost D: nat)
      requires Valid() && num.Valid() && div.Valid() && this != num && this != div && num != div
      requires 0 <= shift0 < 256 && LowZero(pn, shift0 + 1) && D > 0
      requires Dividing(N, D, num.Value(), Value(), shift0 + 1) && div.Value() == D * Pow(2, shift0)
      modifies this`pn, num`pn, div`pn
      ensures Valid() && Value() == N / D
    {
      hide Val, Pow, Dividing, LowZero, Pow2, BitOr;
      var shift := shift0;
      while shift >= 0
        invariant -1 <= shift <= shift0 && Valid() && num.Valid() && div.Valid()
        invariant LowZero(pn, shift + 1) && Dividing(N, D, num.Value(), Value(), shift + 1)
        invariant shift >= 0 ==> div.Value() == D * Pow(2, shift)
      {
        var c := num.CompareTo(div);
        DivisionStep(N, D, num.Value(), Value(), shift);
        if c >= 0 {
          ValBelowTop(num.pn);
          SmallDifference(num.Value(), div.Value());
          SetNextBit(pn, shift);
          num.Subtract(div);
          pn := pn[shift / 32 := BitOr(pn[shift / 32], Pow2(shift % 32))];
        } else {
          StillZero(pn, shift);
        }
        HalfOf(D, shift);
        div.ShiftRight(1);
        shift := shift - 1;
      }
      DivisionEnd(N, D, num.Value(), Value());
    }

    /** Reads a compact number; the overflow flag says exactly whether it is too large for 256 bits. */
    method SetCompact(nCompact: nat) returns (fNegative: bool, fOverflow: bool)
      requires nCompact < B
      modifies this`pn
      ensures Valid() && Value() == Target(nCompact) % Top()
      ensures fNegative == IsNegative(nCompact) && fOverflow == (Target(nCompact) >= Top())
    {
      hide Val, Pow, Top;
      var nSize := nCompact / 0x100_0000;
      var nWord := nCompact % 0x80_0000;
      if nSize <= 3 {
        SmallTarget(nCompact);
        nWord := nWord / Pow2(8 * (3 - nSize));
        Assign(nWord);
      } else {
        Assign(nWord);
        ShiftLeft(8 * (nSize - 3));
      }
      fNegative := nWord != 0 && nCompact / 0x80_0000 % 2 == 1;
      fOverflow := nWord != 0 && (nSize > 34 || (nWord > 0xff && nSize > 33) || (nWord > 0xffff && nSize > 32));
      OverflowIs(nCompact);
    }

    /** The lowest two limbs. */
    method GetLow64() returns (r: nat)
      requires Valid()
      ensures r == Value() % (B * B)
    {
      hide Val, Pow;
      LowTwo(pn);
      r := pn[0] + pn[1] * B;
    }

    /** Writes the compact form: it stands for the number as far as its leading bytes go. */
    method GetCompact(fNegative: bool) returns (nCompact: nat)
      requires Valid()
      ensures nCompact == Compact(Value()) + if fNegative && Value() != 0 then 0x80_0000 else 0
      ensures nCompact < B && Target(nCompact) == Truncated(Value(), SizeOf(nCompact)) < Top()
      ensures IsNegative(nCompact) <==> fNegative && Value() != 0
    {
      hide Val, Pow, Pow2, Top, Compact, Target, Truncated, IsSize, Leading, SizeOf;
      var bits := Bits();
      var nSize := (bits + 7) / 8;
      ghost var size := nSize;
      BitsToBytes(Value(), bits);
      LeadingRange(Value(), size);
      CompactFacts(Value(), size);
      ValBelowTop(pn);
      nCompact := LeadingBytes(nSize);
      if nCompact / 0x80_0000 % 2 == 1 {
        nCompact := nCompact / 0x100;
        nSize := nSize + 1;
      }
      assert nCompact < 0x80_0000 && nSize < 256;
      nCompact := nCompact + nSize * 0x100_0000;
      assert nCompact == CompactOf(Value(), size);
      SignedForm(nCompact);
      if fNegative && WordOf(nCompact) != 0 {
        nCompact := nCompact + 0x80_0000;
      }
    }

    /** The first three bytes of a number with `nSize` bytes, as a 32-bit number. */
    method LeadingBytes(nSize: nat) returns (nCompact: nat)
      requires Valid() && IsSize(Value(), nSize)
      ensures nCompact == Leading(Value(), nSize)
    {
      hide Val, Pow, IsSize, Scale, Leading;
      LeadingRange(Value(), nSize);
      if nSize <= 3 {
        var low := GetLow64();
        SmallLow(Value(), nSize, low);
        nCompact := low * Scale(3 - nSize) % B;
      } else {
        var bn := new Uint256.Copy(this);
        bn.ShiftRight(8 * (nSize - 3));
        var low := bn.GetLow64();
        LargeLow(Value(), nSize, low);
        nCompact := low % B;
      }
    }
  }

  lemma NoCarryFromZero()
    ensures LowLimb(0) == 0 && Carry(0) == 0
  {
  }

  ghost predicate IsMultipleOf(v: nat, p: nat) {
    exists k: nat :: v == k * p
  }

  lemma {:induction false} HalfOfSquare(v: nat, n: nat, k: nat)
    requires v * v == k * Pow(2, 2 * n)
    ensures IsMultipleOf(v, Pow(2, n))
    decreases n
  {
    hide Pow;
    if n == 0 {
      Pow2Zero();
      assert v == v * Pow(2, 0);
    } else {
      PowNext(2, 2 * n - 1);
      PowNext(2, 2 * n - 2);
      Fourfold(k, Pow(2, 2 * n - 2));
      var w := EvenRoot(v, k * Pow(2, 2 * n - 2));
      HalfOfSquare(w, n - 1, k);
      var j: nat :| w == j * Pow(2, n - 1);
      PowNext(2, n - 1);
      assert v == j * Pow(2, n) by {
        Arith.Associate(j, 2, Pow(2, n - 1));
      }
    }
  }

  /** A square that is a multiple of four is the square of an even number. */
  lemma EvenRoot(v: nat, m: nat) returns (w: nat)
    requires v * v == 4 * m
    ensures v == 2 * w && w * w == m
  {
    SquareParity(v);
    w := HalfIs(v);
    DoubleSquare(w);
  }

  lemma HalfIs(v: nat) returns (w: nat)
    requires v % 2 == 0
    ensures v == 2 * w
  {
    w := v / 2;
  }

  lemma DoubleSquare(w: nat)
    ensures (2 * w) * (2 * w) == 4 * (w * w)
  {
  }

  lemma Fourfold(k: nat, p: nat)
    ensures k * (2 * (2 * p)) == 4 * (k * p)
  {
  }

  lemma SquareParity(v: nat)
    ensures (v * v) % 2 == v % 2
  {
    var w := v / 2;
    if v % 2 == 1 {
      assert v * v == 2 * (2 * w * w + 2 * w) + 1;
    } else {
      assert v * v == 2 * (2 * w * w);
    }
  }

  lemma SquareIsZero(v: nat)
    ensures Top() > 0
    ensures (v * v) % Top() == 0 <==> IsMultipleOf(v, Pow(2, 128))
  {
    hide Pow, Top;
    TopBytes();
    PowPositive(2, 256);
    PowAdd(2, 128, 128);
    if (v * v) % Top() == 0 {
      Arith.DivMod(v * v, Top());
      HalfOfSquare(v, 128, v * v / Top());
    }
    if IsMultipleOf(v, Pow(2, 128)) {
      var k: nat :| v == k * Pow(2, 128);
      SquareOf(k, Pow(2, 128));
      QuotientIs(k * k, 0, Top());
    }
  }

  lemma SquareOf(k: nat, p: nat)
    ensures (k * p) * (k * p) == (k * k) * (p * p)
  {
    Arith.Associate(k * p, k, p);
    assert (k * p) * k == (k * k) * p;
    Arith.Associate(k * k, p, p);
  }

  lemma LowTwo(a: seq<nat>)
    requires |a| == WIDTH && LimbsOk(a)
    ensures a[0] + a[1] * B == Val(a) % (B * B)
  {
    hide Val, Pow;
    FirstTwo(a);
    assert a == a[..2] + a[2..];
    ValConcat(a[..2], a[2..]);
    LowPart(Val(a), Val(a[2..]), a[0] + a[1] * B);
  }

  lemma FirstTwo(a: seq<nat>)
    requires |a| == WIDTH
    ensures Val(a[..2]) == a[0] + a[1] * B && Pow(B, 2) == B * B
  {
    hide Val, Pow;
    NoLimbs();
    assert a[..0] == [];
    ValNext(a, 0);
    ValNext(a, 1);
    PowNext(B, 0);
    PowNext(B, 1);
  }

  lemma LowPart(v: nat, high: nat, low: nat)
    requires v == low + B * B * high && low < B * B
    ensures v % (B * B) == low
  {
    QuotientIs(high, low, B * B);
  }

  lemma SmallLow(v: nat, size: nat, low: nat)
    requires IsSize(v, size) && size <= 3 && low == v % (B * B)
    ensures low * Scale(3 - size) % B == Leading(v, size)
  {
    hide Scale;
    LeadingRange(v, size);
    FirstScales();
  }

  lemma LargeLow(v: nat, size: nat, low: nat)
    requires IsSize(v, size) && size > 3 && Pow(2, 8 * (size - 3)) > 0 && low == v / Pow(2, 8 * (size - 3)) % (B * B)
    ensures low % B == Leading(v, size)
  {
    hide Pow;
    LeadingRange(v, size);
  }

  lemma SmallTarget(n: nat)
    requires SizeOf(n) <= 3
    ensures Target(n) <= WordOf(n) < 0x80_0000 && Target(n) % Top() == Target(n) < Top()
  {
    hide Pow;
    var p := Pow2(8 * (3 - SizeOf(n)));
    Arith.DivMod(WordOf(n), p);
    Arith.MulLe(1, p, WordOf(n) / p);
    LimbPower(WIDTH);
    PowMonotone(2, 32, 256);
    WordPower();
    QuotientIs(0, Target(n), Pow(B, WIDTH));
  }

  predicate SaysOverflow(size: nat, word: nat) {
    word != 0 && (size > 34 || (word > 0xff && size > 33) || (word > 0xffff && size > 32))
  }

  lemma OverflowIs(n: nat)
    ensures Target(n) >= Top() <==> SaysOverflow(SizeOf(n), Mantissa(n))
  {
    hide Pow, Target, Top;
    if SizeOf(n) <= 3 {
      SmallTarget(n);
    } else {
      ScaledOverflow(WordOf(n), SizeOf(n));
      TargetIs(n);
    }
  }

  lemma TargetIs(n: nat)
    requires SizeOf(n) > 3
    ensures Target(n) == WordOf(n) * Pow(2, 8 * (SizeOf(n) - 3))
  {
  }

  /** The three tests of the overflow flag are exact. */
  lemma ScaledOverflow(word: nat, size: nat)
    requires word < 0x80_0000 && size > 3
    ensures word * Pow(2, 8 * (size - 3)) >= Top() <==> SaysOverflow(size, word)
  {
    hide Pow, Top;
    if size >= 35 {
      LargeSize(word, size);
    } else if size == 34 {
      TopBytes();
      PowPositive(2, 248);
      ExactWhen(word, Pow(2, 248), 0x100);
    } else if size == 33 {
      TopBytes();
      PowPositive(2, 240);
      ExactWhen(word, Pow(2, 240), 0x1_0000);
    } else {
      SmallSize(word, size);
    }
  }

  lemma TopBytes()
    ensures Top() == Pow(2, 256) == 0x100 * Pow(2, 248) == 0x1_0000 * Pow(2, 240) == 0x100_0000 * Pow(2, 232)
  {
    hide Pow;
    LimbPower(WIDTH);
    BytePowers();
    PowAdd(2, 8, 248);
    PowAdd(2, 16, 240);
    PowAdd(2, 24, 232);
  }

  lemma LargeSize(word: nat, size: nat)
    requires size >= 35
    ensures word * Pow(2, 8 * (size - 3)) >= Top() <==> word != 0
  {
    hide Pow, Top;
    TopBytes();
    PowPositive(2, 256);
    PowMonotone(2, 256, 8 * (size - 3));
    if word > 0 {
      Arith.MulLe(1, word, Pow(2, 8 * (size - 3)));
    }
  }

  lemma SmallSize(word: nat, size: nat)
    requires word < 0x80_0000 && 3 < size <= 32
    ensures word * Pow(2, 8 * (size - 3)) < Top()
  {
    hide Pow, Top;
    TopBytes();
    PowPositive(2, 232);
    PowMonotone(2, 8 * (size - 3), 232);
    Arith.MulLe(Pow(2, 8 * (size - 3)), Pow(2, 232), word);
    Arith.MulLe(word + 1, 0x100_0000, Pow(2, 232));
    Arith.Distribute(word, 1, Pow(2, 232));
  }

  lemma ExactWhen(word: nat, p: nat, k: nat)
    requires p > 0
    ensures word * p >= k * p <==> word >= k
  {
    if word >= k {
      Arith.MulLe(k, word, p);
    } else {
      Arith.MulLe(word + 1, k, p);
      Arith.Distribute(word, 1, p);
    }
  }

  /** No compact number is all ones, so adding one to it does not wrap around. */
  lemma NotAllOnes(n: nat)
    requires Target(n) < Top()
    ensures Target(n) + 1 < Top()
  {
    hide Pow, Target;
    LimbPower(WIDTH);
    if SizeOf(n) <= 3 {
      SmallTarget(n);
      PowMonotone(2, 32, 256);
      WordPower();
    } else {
      TargetIs(n);
      BytePowers();
      var e := 8 * (SizeOf(n) - 3);
      PowAdd(2, 8, e - 8);
      PowAdd(2, 8, 248);
      Arith.Associate(WordOf(n), 0x100, Pow(2, e - 8));
      MultiplesOf256(WordOf(n) * Pow(2, e - 8), Pow(2, 248));
    }
  }

  lemma MultiplesOf256(x: nat, y: nat)
    ensures 0x100 * x < 0x100 * y ==> 0x100 * x + 1 < 0x100 * y
  {
  }

  /** Dividing what is left of the top by d, and one more, is dividing the top. */
  lemma ProofIs(t: nat, d: nat)
    requires 0 < d <= t
    ensures (t - d) / d + 1 == t / d
  {
    Arith.DivMod(t - d, d);
    Arith.Distribute((t - d) / d, 1, d);
    QuotientIs((t - d) / d + 1, (t - d) % d, d);
  }

  /** `GetBlockProofBase`: the expected number of hashes for a compact target, 2^256 / (target + 1) rounded down. */
  method BlockProof(nBits: nat) returns (r: Uint256)
    requires nBits < B
    ensures r.Valid()
    ensures r.Value() == if IsNegative(nBits) || Target(nBits) >= Top() || Target(nBits) == 0 then 0
            else Top() / (Target(nBits) + 1)
  {
    hide Val, Pow, Top, Target, IsNegative;
    var bnTarget := new Uint256();
    var fNegative, fOverflow := bnTarget.SetCompact(nBits);
    r := new Uint256();
    if fNegative || fOverflow {
      return;
    }
    FitsTop(Target(nBits));
    var c := bnTarget.CompareTo(r);
    if c == 0 {
      return;
    }
    ghost var t := Target(nBits);
    r := bnTarget.Complement();
    NotAllOnes(nBits);
    var one := new Uint256();
    one.Assign(1);
    bnTarget.Add(one);
    FitsTop(t + 1);
    var ok := r.Divide(bnTarget);
    r.Add(one);
    ProofIs(Top(), t + 1);
    SmallProof(t);
  }

  lemma FitsTop(v: nat)
    ensures v < Top() ==> v % Top() == v
  {
    hide Pow;
    if v < Top() {
      QuotientIs(0, v, Top());
    }
  }

  lemma SmallProof(t: nat)
    requires 1 <= t && t + 1 < Top()
    ensures (Top() / (t + 1)) % Top() == Top() / (t + 1)
  {
    hide Pow, Top;
    var q := Top() / (t + 1);
    Arith.DivMod(Top(), t + 1);
    Arith.MulLe(2, t + 1, q);
    QuotientIs(0, q, Top());
  }

  lemma FirstPowers()
    ensures Pow(2, 0) == 1 && Pow(2, 1) == 2
  {
  }

  lemma OneLimb(a: seq<nat>)
    requires |a| == WIDTH && forall j | 1 <= j < WIDTH :: a[j] == 0
    ensures Val(a) == a[0]
  {
    hide Val, Pow;
    assert a == a[..1] + a[1..];
    ValConcat(a[..1], a[1..]);
    ValZeros(a[1..]);
    ValNext(a, 0);
    NoLimbs();
    assert a[..0] == [];
  }

  lemma ValBelowTop(a: seq<nat>)
    requires |a| == WIDTH && LimbsOk(a)
    ensures Val(a) < Top()
  {
    ValBelow(a);
  }

  lemma SmallerBits(N: nat, D: nat, n: nat, d: nat)
    requires n < d && Pow(2, d - 1) <= D && (n == 0 ==> N == 0) && (n > 0 ==> N < Pow(2, n)) && D > 0
    ensures N / D == 0
  {
    hide Pow;
    if n > 0 {
      PowMonotone(2, n, d - 1);
    }
    QuotientIs(0, N, D);
  }

  /** After aligning the highest bits the dividend is less than twice the divisor. */
  lemma Aligned(N: nat, D: nat, n: nat, d: nat)
    requires 0 < d <= n && N < Pow(2, n) && Pow(2, d - 1) <= D < Pow(2, d)
    ensures D * Pow(2, n - d) < Pow(2, n) && N < D * Pow(2, n - d + 1)
  {
    hide Pow;
    var s := n - d;
    PowPositive(2, s);
    PowAdd(2, d, s);
    PowAdd(2, d - 1, s + 1);
    PowNext(2, s);
    Arith.MulLe(D + 1, Pow(2, d), Pow(2, s));
    Arith.Distribute(D, 1, Pow(2, s));
    Arith.MulLe(Pow(2, d - 1), D, Pow(2, s + 1));
  }

  lemma NoWrap(v: nat, p: nat, n: nat)
    requires v < p == Pow(2, n) && n <= 256
    ensures v % Top() == v
  {
    hide Pow;
    LimbPower(WIDTH);
    PowMonotone(2, n, 256);
    QuotientIs(0, v, Pow(B, WIDTH));
  }

  lemma AllZero(a: seq<nat>, m: nat)
    requires forall j | 0 <= j < |a| :: a[j] == 0
    ensures LowZero(a, m)
  {
    hide Pow2;
    forall j | 0 <= j < |a|
      ensures LimbLowZero(a[j], j, m)
    {
      if m > 32 * j {
        assert IsMultiple(0, 0, m - 32 * j);
      }
    }
  }

  /** What is left of the dividend, and the quotient so far; what is left is less than the divisor shifted by m. */
  ghost predicate Dividing(N: nat, D: nat, left: nat, q: nat, m: nat) {
    left + D * q == N && left < D * Pow(2, m)
  }

  lemma DivisionStep(N: nat, D: nat, left: nat, q: nat, shift: nat)
    requires Dividing(N, D, left, q, shift + 1)
    ensures left < D * Pow(2, shift) ==> Dividing(N, D, left, q, shift)
    ensures left >= D * Pow(2, shift) ==> Dividing(N, D, left - D * Pow(2, shift), q + Pow(2, shift), shift)
  {
    hide Pow;
    PowNext(2, shift);
    Arith.Distribute(q, Pow(2, shift), D);
    Arith.Associate(D, 2, Pow(2, shift));
  }

  lemma DivisionEnd(N: nat, D: nat, left: nat, q: nat)
    requires Dividing(N, D, left, q, 0)
    ensures D > 0 && N / D == q
  {
    hide Pow;
    FirstPowers();
    QuotientIs(q, left, D);
  }

  lemma SmallDifference(x: nat, y: nat)
    requires y <= x < Top()
    ensures (x - y) % Top() == x - y
  {
    hide Pow, Top;
    QuotientIs(0, x - y, Top());
  }

  lemma StillZero(a: seq<nat>, shift: nat)
    requires LowZero(a, shift + 1)
    ensures LowZero(a, shift)
  {
    forall j | 0 <= j < |a|
      ensures LimbLowZero(a[j], j, shift)
    {
      LimbStillZero(a[j], j, shift);
    }
  }

  lemma LimbStillZero(x: nat, j: nat, shift: nat)
    requires LimbLowZero(x, j, shift + 1)
    ensures LimbLowZero(x, j, shift)
  {
    if 32 * j + 32 <= shift {
    } else if shift > 32 * j {
      var k := shift - 32 * j;
      if 32 * j + 32 <= shift + 1 {
        assert IsMultiple(x, 0, k);
      } else {
        var q: nat :| IsMultiple(x, q, k + 1);
        HalveMultiple(x, q, k);
        assert IsMultiple(x, 2 * q, k);
      }
    }
  }

  lemma HalveMultiple(x: nat, q: nat, k: nat)
    requires IsMultiple(x, q, k + 1)
    ensures IsMultiple(x, 2 * q, k)
  {
    hide Pow;
    PowNext(2, k);
    Arith.Associate(q, 2, Pow2(k));
  }

  lemma HalfOf(D: nat, shift: nat)
    ensures Pow(2, 1) == 2
    ensures shift > 0 ==> (D * Pow(2, shift)) / 2 == D * Pow(2, shift - 1)
  {
    hide Pow;
    FirstPowers();
    if shift > 0 {
      PowNext(2, shift - 1);
      Arith.Associate(D, 2, Pow(2, shift - 1));
    }
  }

  /** A limb of the left shift after i rounds. */
  function LeftSoFar(a: seq<nat>, k: nat, s: nat, i: nat, j: nat): nat
    requires s < 32 && |a| == WIDTH && i <= WIDTH && j < WIDTH
  {
    if j < k || j - k > i then 0
    else if j - k == i then Over(LimbBelow(a, i), s)
    else Joined(a[j - k], LimbBelow(a, j - k), s)
  }

  lemma NoOver(x: nat)
    requires x < B
    ensures Over(x, 0) == 0
  {
    WordPower();
    QuotientIs(0, x, B);
  }

  lemma OrNothing(x: nat)
    ensures BitOr(0, x) == BitOr(x, 0) == x
  {
  }

  lemma LeftEnd(a: seq<nat>, r: seq<nat>, k: nat, s: nat)
    requires s < 32 && |a| == |r| == WIDTH && LimbsOk(a) && forall j | 0 <= j < WIDTH ::
               r[j] == LeftSoFar(a, k, s, WIDTH, j)
    ensures LimbsOk(r) && ShiftedLeft(a, r, k, s)
  {
    hide Joined, Over;
    forall j | 0 <= j < WIDTH
      ensures r[j] < B && r[j] == if j < k then 0 else Joined(a[j - k], LimbBelow(a, j - k), s)
    {
      if j >= k {
        JoinedIs(a[j - k], LimbBelow(a, j - k), s);
      }
    }
  }

  lemma PowersMatch(shift: nat)
    ensures Pow(2, shift) == Pow2(shift % 32) * Pow(B, shift / 32)
  {
    ShiftPower(shift);
  }

  /** A limb of the right shift after i rounds. */
  function RightSoFar(a: seq<nat>, k: nat, s: nat, i: nat, j: nat): nat
    requires s < 32 && |a| == WIDTH && i <= WIDTH && j < WIDTH
  {
    if j + k >= i then 0
    else if j + k + 1 == i then Down(a[j + k], s)
    else Parted(a[j + k], a[j + k + 1], s)
  }

  lemma NoStay(y: nat)
    ensures Stay(y, 32) == 0
  {
    WordPower();
    QuotientIs(y, 0, B);
  }

  lemma RightEnd(a: seq<nat>, r: seq<nat>, k: nat, s: nat)
    requires s < 32 && |a| == |r| == WIDTH && LimbsOk(a) && forall j | 0 <= j < WIDTH ::
               r[j] == RightSoFar(a, k, s, WIDTH, j)
    ensures LimbsOk(r) && ShiftedRight(a, r, k, s)
  {
    hide Pow, Pow2, Down, Stay;
    forall j | 0 <= j < WIDTH
      ensures r[j] < B && r[j] == if j + k < WIDTH then Parted(a[j + k], LimbAt(a, j + k + 1), s) else 0
    {
      if j + k < WIDTH {
        PartedIs(a[j + k], LimbAt(a, j + k + 1), s);
        StayNothing(32 - s);
      }
    }
  }

  lemma StayNothing(s: nat)
    ensures Stay(0, s) == 0
  {
  }

  lemma IncrementStart(a: seq<nat>)
    ensures Summed(a, 0, 1, 1)
  {
    NoLimbs();
    assert a[..0] == [];
  }

  lemma IncrementTotal(a: seq<nat>, i: nat)
    requires i < |a|
    ensures (Val(a[..i]) + 1) + a[i] * Pow(B, i) == Val(a[..i + 1]) + 1
    ensures i == 0 ==> Val(a[..i]) == 0
  {
    ValNext(a, i);
    assert i == 0 ==> a[..i] == [];
  }

  lemma Difference(x: nat, y: nat, t: nat)
    requires x < t && y < t
    ensures (x + (t - y) % t) % t == (x - y) % t
  {
    if y == 0 {
      QuotientIs(1, 0, t);
    } else {
      QuotientIs(0, t - y, t);
      if x < y {
        QuotientIs(0, x + t - y, t);
        NegativeMod(x - y, t);
      } else {
        QuotientIs(1, x - y, t);
        QuotientIs(0, x - y, t);
      }
    }
  }

  lemma NegativeMod(d: int, t: int)
    requires -t < d < 0
    ensures d % t == d + t
  {
    Arith.DivMod(d, t);
    var q, r := d / t, d % t;
    if q < -1 {
      Arith.MulLe(q, -2, t);
    } else if q > -1 {
      Arith.MulLe(0, q, t);
    }
  }

  lemma RowIs(x: nat, j: nat, b: seq<nat>)
    requires |b| == WIDTH && j <= WIDTH
    ensures Covers(x * (Pow(B, j) * Val(b[..WIDTH - j])), x * Val(b[WIDTH - j..]), (x * Pow(B, j)) * Val(b))
  {
    hide Val, Pow, Top;
    RowRest(x, j, b);
  }

  lemma TopIs()
    ensures Top() == Pow(B, WIDTH)
  {
  }

  lemma RowEnd(start: seq<nat>, x: nat, j: nat, b: seq<nat>)
    requires |start| == |b| == WIDTH && j <= WIDTH
    ensures RowSum(start, x, j, b, WIDTH - j) == Val(start) + x * (Pow(B, j) * Val(b[..WIDTH - j]))
  {
    hide Val, Pow;
    ValAll(start);
  }

  lemma SummedIs(now: seq<nat>, carry: nat, total: int)
    requires |now| == WIDTH && Summed(now, WIDTH, carry, total)
    ensures Covers(Val(now), carry, total)
  {
    ValAll(now);
  }

  /** The value, with what has gone beyond the top. */
  ghost predicate Covers(value: int, over: int, total: int) {
    value + over * Top() == total
  }

  lemma CoversNothing(total: int)
    ensures Covers(total, 0, total)
  {
  }

  lemma CoversWrapped(value: nat, over: nat, total: nat)
    requires Covers(value, over, total) && value < Top()
    ensures value == total % Top()
  {
    hide Top;
    Wrapped(value, over, Top(), total);
  }

  /** What has gone beyond the top after one more row. */
  lemma NextRow(a: seq<nat>, j: nat, b: nat, before: nat, after: nat, over: nat, carry: nat, row: nat, rest: nat)
    returns (over': nat)
    requires j < |a| && Covers(before, over, Val(a[..j]) * b)
    requires Covers(after, carry, before + row) && Covers(row, rest, (a[j] * Pow(B, j)) * b)
    ensures Covers(after, over', Val(a[..j + 1]) * b)
  {
    hide Val, Pow, Top;
    over' := over + carry + rest;
    ValNext(a, j);
    Arith.Distribute(Val(a[..j]), a[j] * Pow(B, j), b);
    Arith.Distribute(over + carry, rest, Top());
    Arith.Distribute(over, carry, Top());
  }
}
