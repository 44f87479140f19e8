/**
 The compact form of a number: in the highest byte its number of bytes, below that three leading bytes of which 23 bits
 are used, and a sign bit.
 */
module CompactForm {
  import Arith
  import opened Positional
  import opened LimbShifts

  function SizeOf(nCompact: nat): nat {
    nCompact / 0x100_0000
  }

  function WordOf(nCompact: nat): nat {
    nCompact % 0x80_0000
  }

  /** The number that a compact form stands for: a 23-bit mantissa and an exponent of 256. */
  function Target(nCompact: nat): nat {
    if SizeOf(nCompact) <= 3 then WordOf(nCompact) / Pow2(8 * (3 - SizeOf(nCompact)))
    else WordOf(nCompact) * Pow(2, 8 * (SizeOf(nCompact) - 3))
  }

  predicate IsNegative(nCompact: nat) {
    Mantissa(nCompact) != 0 && nCompact / 0x80_0000 % 2 == 1
  }

  function Mantissa(nCompact: nat): nat {
    if SizeOf(nCompact) <= 3 then Target(nCompact) else WordOf(nCompact)
  }

  // ---------- Powers of 256 ----------

  lemma BytePowers()
    ensures Pow(2, 8) == 0x100 && Pow(2, 16) == 0x1_0000 && Pow(2, 24) == 0x100_0000
  {
    assert Pow(2, 4) == 16;
    PowAdd(2, 4, 4);
    PowAdd(2, 8, 8);
    PowAdd(2, 16, 8);
  }

  function Scale(k: nat): (r: nat)
    ensures r >= 1
  {
    Pow2(8 * k)
  }

  lemma ScaleNext(k: nat)
    ensures Scale(k + 1) == 0x100 * Scale(k)
  {
    hide Pow;
    PowAdd(2, 8, 8 * k);
    BytePowers();
  }

  lemma FirstScales()
    ensures Scale(0) == 1 && Scale(1) == 0x100 && Scale(2) == 0x1_0000 && Scale(3) == 0x100_0000
  {
    hide Pow;
    Pow2Zero();
    BytePowers();
  }

  lemma Between(v: nat, a: nat, b: nat, p: nat)
    requires p > 0 && a * p <= v < b * p
    ensures a <= v / p < b
  {
    var q := v / p;
    Arith.DivMod(v, p);
    if q < a {
      Arith.MulLe(q + 1, a, p);
      Arith.Distribute(q, 1, p);
    }
    if q >= b {
      Arith.MulLe(b, q, p);
    }
  }

  lemma DivDiv(v: nat, p: nat, q: nat)
    requires p > 0 && q > 0
    ensures q * p > 0 && v / p / q == v / (q * p)
  {
    var y, r := v / p, v % p;
    var x, s := y / q, y % q;
    Arith.DivMod(v, p);
    Arith.DivMod(y, q);
    Nested(v, p, q, y, r, x, s);
    QuotientOf(v, q * p, x);
  }

  lemma Nested(v: nat, p: nat, q: nat, y: nat, r: nat, x: nat, s: nat)
    requires v == y * p + r && y == x * q + s && r < p && s < q
    ensures IsQuotient(v, q * p, x)
  {
    Arith.Distribute(x * q, s, p);
    Arith.Associate(x, q, p);
    Arith.MulLe(s + 1, q, p);
    Arith.Distribute(s, 1, p);
    Arith.MulLe(0, s, p);
  }

  // ---------- The number of bytes ----------

  predicate IsSize(v: nat, size: nat) {
    if v == 0 then size == 0 else size > 0 && Scale(size - 1) <= v < Scale(size)
  }

  lemma {:induction false} ScaleGrows(j: nat, k: nat)
    requires j <= k
    ensures Scale(j) <= Scale(k)
  {
    hide Pow;
    PowMonotone(2, 8 * j, 8 * k);
  }

  lemma SizeUnique(v: nat, s: nat, t: nat)
    requires IsSize(v, s) && IsSize(v, t)
    ensures s == t
  {
    hide Scale;
    if v > 0 && s < t {
      ScaleGrows(s, t - 1);
    } else if v > 0 && t < s {
      ScaleGrows(t, s - 1);
    }
  }

  function Bytes(v: nat): (size: nat)
    ensures IsSize(v, size)
  {
    if v == 0 then 0 else
      Arith.QuotientSmaller(v, 0x100);
      BytesStep(v, Bytes(v / 0x100));
      Bytes(v / 0x100) + 1
  }

  lemma BytesStep(v: nat, size: nat)
    requires v > 0 && IsSize(v / 0x100, size)
    ensures IsSize(v, size + 1)
  {
    hide Scale;
    FirstScales();
    if size > 0 {
      ScaleNext(size - 1);
      ScaleNext(size);
    }
  }

  // ---------- Writing the compact form ----------

  /** The three leading bytes. */
  function Leading(v: nat, size: nat): nat {
    if size <= 3 then v * Scale(3 - size) else v / Scale(size - 3)
  }

  /** The sign bit has to stay free: a mantissa that would set it is one byte shorter. */
  function CompactOf(v: nat, size: nat): nat {
    var word := Leading(v, size);
    if word >= 0x80_0000 then (size + 1) * 0x100_0000 + word / 0x100 else size * 0x100_0000 + word
  }

  /** The compact form of a number. */
  function Compact(v: nat): nat {
    CompactOf(v, Bytes(v))
  }

  lemma LeadingRange(v: nat, size: nat)
    requires IsSize(v, size)
    ensures if v == 0 then Leading(v, size) == 0 else 0x1_0000 <= Leading(v, size) < 0x100_0000
  {
    hide Scale;
    FirstScales();
    if size > 3 {
      var p := Scale(size - 3);
      ScaleNext(size - 3);
      ScaleNext(size - 2);
      ScaleNext(size - 1);
      Between(v, 0x1_0000, 0x100_0000, p);
    }
  }

  /** What is left of a number when only the leading bytes count. */
  function Truncated(v: nat, size: nat): nat {
    if size <= 3 then v else v - v % Scale(size - 3)
  }

  lemma PartsOf(size: nat, word: nat)
    requires word < 0x80_0000
    ensures SizeOf(size * 0x100_0000 + word) == size && WordOf(size * 0x100_0000 + word) == word
    ensures (size * 0x100_0000 + word) / 0x80_0000 % 2 == 0
  {
  }

  lemma TargetOf(n: nat, size: nat, word: nat)
    requires SizeOf(n) == size && WordOf(n) == word
    ensures Target(n) == if size <= 3 then word / Scale(3 - size) else word * Scale(size - 3)
  {
  }

  lemma TruncatedIs(v: nat, size: nat)
    requires size > 3
    ensures (v / Scale(size - 3)) * Scale(size - 3) == Truncated(v, size)
  {
    hide Scale;
    Arith.DivMod(v, Scale(size - 3));
  }

  /** Reading back what was written gives the number as far as its leading bytes go, and not as a negative one. */
  lemma CompactReads(v: nat, size: nat)
    requires IsSize(v, size)
    ensures
      var n := CompactOf(v, size);
      && (SizeOf(n) == size || SizeOf(n) == size + 1) && WordOf(n) == n % 0x100_0000
      && Target(n) == Truncated(v, SizeOf(n)) && !IsNegative(n)
      && (v == 0 <==> WordOf(n) == 0)
  {
    hide Scale, Target, Truncated, IsNegative;
    LeadingRange(v, size);
    var word := Leading(v, size);
    if word >= 0x80_0000 {
      PartsOf(size + 1, word / 0x100);
      TargetOf(CompactOf(v, size), size + 1, word / 0x100);
      ShiftedTarget(v, size);
    } else {
      PartsOf(size, word);
      TargetOf(CompactOf(v, size), size, word);
      PlainTarget(v, size);
    }
    NotNegative(CompactOf(v, size));
  }

  lemma NotNegative(n: nat)
    requires n / 0x80_0000 % 2 == 0
    ensures !IsNegative(n)
  {
    hide Target;
  }

  lemma PlainTarget(v: nat, size: nat)
    requires IsSize(v, size)
    ensures Truncated(v, size) == if size <= 3 then Leading(v, size) / Scale(3 - size)
            else Leading(v, size) * Scale(size - 3)
  {
    hide Scale, IsSize;
    FirstScales();
    if size > 3 {
      TruncatedIs(v, size);
    }
  }

  lemma ShiftedTarget(v: nat, size: nat)
    requires IsSize(v, size) && Leading(v, size) >= 0x80_0000
    ensures
      var word := Leading(v, size) / 0x100;
      Truncated(v, size + 1) == if size + 1 <= 3 then word / Scale(3 - (size + 1)) else word * Scale(size + 1 - 3)
  {
    hide Scale;
    FirstScales();
    if size + 1 > 3 {
      TruncatedIs(v, size + 1);
      if size > 3 {
        DivDiv(v, Scale(size - 3), 0x100);
        ScaleNext(size - 3);
      }
    }
  }

  /** The sign bit changes nothing else. */
  lemma SignedForm(n: nat)
    requires WordOf(n) == n % 0x100_0000
    ensures SizeOf(n + 0x80_0000) == SizeOf(n) && WordOf(n + 0x80_0000) == WordOf(n)
            && Target(n + 0x80_0000) == Target(n)
    ensures (n + 0x80_0000) / 0x80_0000 % 2 == 1
  {
    hide Pow;
  }

  lemma CompactFacts(v: nat, size: nat)
    requires IsSize(v, size) && size <= 32
    ensures CompactOf(v, size) == Compact(v) < 0x8000_0000
    ensures
      var n := Compact(v);
      && WordOf(n) == n % 0x100_0000 && (v == 0 <==> WordOf(n) == 0)
      && Target(n) == Truncated(v, SizeOf(n)) <= v && !IsNegative(n)
      && (v != 0 ==> Mantissa(n) != 0)
  {
    hide Scale, Target, IsNegative, Bytes, Leading;
    SizeUnique(v, size, Bytes(v));
    LeadingRange(v, size);
    CompactReads(v, size);
  }

  lemma BitsToBytes(v: nat, bits: nat)
    requires bits == 0 <==> v == 0
    requires bits > 0 ==> Pow(2, bits - 1) <= v < Pow(2, bits)
    ensures IsSize(v, (bits + 7) / 8)
  {
    hide Pow;
    var size := (bits + 7) / 8;
    if bits > 0 {
      PowMonotone(2, 8 * (size - 1), bits - 1);
      PowMonotone(2, bits, 8 * size);
    }
  }

  // ---------- Forms that are written ----------

  /** No sign, and as long a mantissa as possible: at least 16 bits, without bytes that are cut off. */
  predicate Canonical(n: nat) {
    n == 0 ||
    (n / 0x80_0000 % 2 == 0 && SizeOf(n) > 0 && WordOf(n) >= 0x8000
     && (SizeOf(n) <= 3 ==> WordOf(n) % Scale(3 - SizeOf(n)) == 0))
  }

  /** Short numbers have zeros at the end. */
  lemma LowBytes(v: nat, size: nat)
    requires size <= 3
    ensures Leading(v, size) % Scale(3 - size) == 0
    ensures size < 3 ==> Leading(v, size) / 0x100 % Scale(3 - (size + 1)) == 0
  {
    hide Scale;
    FirstScales();
  }

  lemma CompactIsCanonical(v: nat, size: nat)
    requires IsSize(v, size)
    ensures Canonical(CompactOf(v, size))
  {
    hide Scale, Leading, SizeOf, WordOf;
    LeadingRange(v, size);
    if size <= 3 {
      LowBytes(v, size);
    }
    var word := Leading(v, size);
    if word >= 0x80_0000 {
      PartsOf(size + 1, word / 0x100);
    } else {
      PartsOf(size, word);
    }
  }

  lemma PartsBack(n: nat)
    requires n / 0x80_0000 % 2 == 0
    ensures n == SizeOf(n) * 0x100_0000 + WordOf(n) && WordOf(n) < 0x80_0000
  {
  }

  lemma WrittenSmall(n: nat)
    requires Canonical(n) && 0 < SizeOf(n) <= 3
    ensures CompactOf(Target(n), Bytes(Target(n))) == n
  {
    hide Scale, Bytes, Target, SizeOf, WordOf;
    PartsBack(n);
    TargetOf(n, SizeOf(n), WordOf(n));
    SmallLeading(SizeOf(n), WordOf(n));
    SizeUnique(Target(n), Bytes(Target(n)), if WordOf(n) >= 0x1_0000 then SizeOf(n) else SizeOf(n) - 1);
  }

  lemma SmallLeading(size: nat, word: nat)
    requires 0 < size <= 3 && 0x8000 <= word < 0x80_0000 && word % Scale(3 - size) == 0
    ensures
      var v, bytes := word / Scale(3 - size), if word >= 0x1_0000 then size else size - 1;
      IsSize(v, bytes) && Leading(v, bytes) == if word >= 0x1_0000 then word else word * 0x100
  {
    hide Scale;
    FirstScales();
  }

  lemma WrittenLarge(n: nat)
    requires Canonical(n) && SizeOf(n) > 3
    ensures CompactOf(Target(n), Bytes(Target(n))) == n
  {
    hide Scale, Bytes, Target, SizeOf, WordOf, Leading;
    PartsBack(n);
    TargetOf(n, SizeOf(n), WordOf(n));
    var bytes := if WordOf(n) >= 0x1_0000 then SizeOf(n) else SizeOf(n) - 1;
    LargeLeading(SizeOf(n), WordOf(n), bytes);
    SizeUnique(Target(n), Bytes(Target(n)), bytes);
  }

  /** The leading bytes of a mantissa of three or two bytes with zeros behind it. */
  lemma LargeLeading(size: nat, word: nat, bytes: nat)
    requires size > 3 && word < 0x80_0000
    requires if word >= 0x1_0000 then bytes == size else word >= 0x8000 && bytes == size - 1
    ensures IsSize(word * Scale(size - 3), bytes)
    ensures Leading(word * Scale(size - 3), bytes) == if word >= 0x1_0000 then word else word * 0x100
  {
    hide Scale;
    FirstScales();
    var p := Scale(bytes - 3);
    var w := if word >= 0x1_0000 then word else word * 0x100;
    ScaleNext(bytes - 3);
    ScaleNext(bytes - 2);
    ScaleNext(bytes - 1);
    assert word * Scale(size - 3) == w * p;
    Arith.MulLe(0x1_0000, w, p);
    Arith.MulLe(w + 1, 0x100_0000, p);
    Arith.Distribute(w, 1, p);
    QuotientIs(w, 0, p);
  }

  /** Reading and writing again gives the same form exactly if it is canonical. */
  lemma CompactIff(n: nat)
    ensures Compact(Target(n)) == n <==> Canonical(n)
  {
    hide Scale, Bytes, Target, Canonical;
    CompactIsCanonical(Target(n), Bytes(Target(n)));
    if Canonical(n) {
      Written(n);
    }
  }

  lemma Written(n: nat)
    requires Canonical(n)
    ensures Compact(Target(n)) == n
  {
    hide Scale, Bytes;
    if n == 0 {
      NothingWritten();
    } else if SizeOf(n) <= 3 {
      WrittenSmall(n);
    } else {
      WrittenLarge(n);
    }
  }

  lemma NothingWritten()
    ensures Target(0) == 0 && Compact(0) == 0
  {
    hide Pow;
    FirstScales();
  }
}
