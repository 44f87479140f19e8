/** Variable-length integers and compressed amounts, as the coin database stores them. */
module VarInts {
  import Arith
  import opened Basics

  type Bytes = seq<nat>

  // ---------- Machine integers ----------

  /** The number of that width in two's complement. */
  function Signed(n: nat, modulus: nat): int {
    if 2 * n < modulus then n else n - modulus
  }

  predicate IsInt32(n: int) {
    -0x8000_0000 <= n < 0x8000_0000
  }

  // ---------- Variable-length integers ----------

  /** Base 128, most significant digit first; all digits but the last are marked, and one less. */
  function VarInt(n: nat, marked: bool): (r: Bytes)
    ensures r != []
    decreases n
  {
    var mark := if marked then 0x80 else 0;
    if n <= 0x7f then [n + mark] else VarInt(n / 0x80 - 1, true) + [n % 0x80 + mark]
  }

  /** `WriteVarInt`: the digits are found last to first and written first to last. */
  method WriteVarInt(number: nat) returns (s: Bytes)
    ensures s == VarInt(number, false)
  {
    var n := number;
    var tmp: Bytes := [];
    while n > 0x7f
      invariant VarInt(number, false) == VarInt(n, tmp != []) + Reversed(tmp)
      decreases n
    {
      RegroupDigits(VarInt(n / 0x80 - 1, true), n % 0x80 + (if tmp == [] then 0 else 0x80), tmp);
      tmp := tmp + [n % 0x80 + if tmp == [] then 0 else 0x80];
      n := n / 0x80 - 1;
    }
    tmp := tmp + [n + if tmp == [] then 0 else 0x80];
    s := [];
    ghost var all := Reversed(tmp);
    while |tmp| > 0
      invariant s + Reversed(tmp) == all
      decreases |tmp|
    {
      s := s + [tmp[|tmp| - 1]];
      tmp := tmp[..|tmp| - 1];
    }
  }

  /** Writing an `int`: the loop ends at once if it is negative, with its last seven bits. */
  function SignedVarInt(n: int): Bytes {
    if n < 0 then [n % 0x80] else VarInt(n, false)
  }

  method WriteSignedVarInt(n: int) returns (s: Bytes)
    ensures s == SignedVarInt(n)
  {
    if n < 0 {
      return [n % 0x80];
    }
    s := WriteVarInt(n);
  }

  function Reversed(s: Bytes): Bytes {
    if s == [] then [] else [s[|s| - 1]] + Reversed(s[..|s| - 1])
  }

  lemma RegroupDigits(front: Bytes, d: nat, tmp: Bytes)
    ensures (front + [d]) + Reversed(tmp) == front + Reversed(tmp + [d])
  {
    assert (tmp + [d])[..|tmp|] == tmp;
  }

  datatype Read<T> = Failed | Got(value: T, rest: Bytes)

  /** What reading makes of any bytes. */
  function ReadFrom(s: Bytes, n: nat): Read<nat>
    decreases |s|
  {
    if s == [] then Failed
    else if s[0] >= 0x80 then ReadFrom(s[1..], n * 0x80 + s[0] % 0x80 + 1)
    else Got(n * 0x80 + s[0] % 0x80, s[1..])
  }

  /** A number read into a type with that many values. */
  function Narrowed(r: Read<nat>, modulus: nat): Read<nat>
    requires modulus > 0
  {
    if r.Failed? then Failed else Got(r.value % modulus, r.rest)
  }

  /** `ReadVarInt` into an unsigned type: higher bits are shifted out. */
  method ReadVarInt(input: Bytes, modulus: nat) returns (r: Read<nat>)
    requires modulus > 0 && modulus % 0x80 == 0
    ensures r == Narrowed(ReadFrom(input, 0), modulus)
  {
    hide ReadFrom;
    var s, n := input, 0;
    ghost var all: nat := 0;
    while s != []
      invariant n == all % modulus && ReadFrom(input, 0) == ReadFrom(s, all)
      decreases |s|
    {
      var chData := s[0];
      assert s == [chData] + s[1..];
      ReadOne(chData, s[1..], all);
      Shifted(all, chData % 0x80, modulus);
      s := s[1..];
      n := n * 0x80 % modulus + chData % 0x80;
      all := all * 0x80 + chData % 0x80;
      if chData >= 0x80 {
        Arith.ModLinear(all, 1, 1, modulus);
        n := (n + 1) % modulus;
        all := all + 1;
      } else {
        return Got(n, s);
      }
    }
    ReadNothing(s, all);
    r := Failed;
  }

  lemma ReadNothing(s: Bytes, n: nat)
    requires s == []
    ensures ReadFrom(s, n) == Failed
  {
  }

  /** `ReadVarInt` into an `int`. */
  method ReadSignedVarInt(input: Bytes) returns (r: Read<int>)
    ensures r == ReadSigned(input)
  {
    var u := ReadVarInt(input, TWO_32);
    r := if u.Failed? then Failed else Got(Signed(u.value, TWO_32), u.rest);
  }

  function ReadSigned(s: Bytes): Read<int> {
    var u := Narrowed(ReadFrom(s, 0), TWO_32);
    if u.Failed? then Failed else Got(Signed(u.value, TWO_32), u.rest)
  }

  /** Shifting in seven bits: the low bits of a multiple of 128 are free. */
  lemma Shifted(all: nat, x: nat, modulus: nat)
    requires modulus > 0 && modulus % 0x80 == 0 && x < 0x80
    ensures all % modulus * 0x80 % modulus + x == (all * 0x80 + x) % modulus
  {
    var n := all % modulus * 0x80;
    var q, r := n / modulus, n % modulus;
    Arith.DivMod(n, modulus);
    Arith.ModLinear(all, 0x80, x, modulus);
    var k := modulus / 0x80;
    Arith.Associate(q, k, 0x80);
    assert r == (all % modulus - q * k) * 0x80;
    assert r + x < modulus;
    Arith.AddMultiple(q, r + x, modulus);
    SmallMod(r + x, modulus);
  }

  lemma SmallMod(n: nat, modulus: nat)
    requires n < modulus
    ensures n % modulus == n
  {
  }

  lemma ReadOne(d: nat, rest: Bytes, n: nat)
    ensures ReadFrom([d] + rest, n) ==
            if d >= 0x80 then ReadFrom(rest, n * 0x80 + d % 0x80 + 1) else Got(n * 0x80 + d % 0x80, rest)
  {
    assert ([d] + rest)[1..] == rest;
  }

  lemma VarIntStep(n: nat, marked: bool, rest: Bytes)
    ensures
      var mark := if marked then 0x80 else 0;
      VarInt(n, marked) + rest ==
      if n <= 0x7f then [n + mark] + rest else VarInt(n / 0x80 - 1, true) + ([n % 0x80 + mark] + rest)
  {
    var mark := if marked then 0x80 else 0;
    if n > 0x7f {
      assert (VarInt(n / 0x80 - 1, true) + [n % 0x80 + mark]) + rest ==
             VarInt(n / 0x80 - 1, true) + ([n % 0x80 + mark] + rest);
    }
  }

  lemma {:induction false} ReadMarked(n: nat, rest: Bytes)
    ensures ReadFrom(VarInt(n, true) + rest, 0) == ReadFrom(rest, n + 1)
    decreases n
  {
    hide VarInt, ReadFrom;
    VarIntStep(n, true, rest);
    if n <= 0x7f {
      ReadOne(n + 0x80, rest, 0);
    } else {
      var d := n % 0x80 + 0x80;
      ReadMarked(n / 0x80 - 1, [d] + rest);
      ReadOne(d, rest, n / 0x80);
    }
  }

  /** Reading undoes writing, whatever follows. */
  lemma ReadWritten(n: nat, rest: Bytes)
    ensures ReadFrom(VarInt(n, false) + rest, 0) == Got(n, rest)
  {
    hide VarInt, ReadFrom;
    VarIntStep(n, false, rest);
    if n <= 0x7f {
      ReadOne(n, rest, 0);
    } else {
      var d := n % 0x80;
      ReadMarked(n / 0x80 - 1, [d] + rest);
      ReadOne(d, rest, n / 0x80);
    }
  }

  /** Into a type that the number fits, reading undoes writing. */
  lemma ReadNarrow(n: nat, rest: Bytes, modulus: nat)
    requires n < modulus
    ensures Narrowed(ReadFrom(VarInt(n, false) + rest, 0), modulus) == Got(n, rest)
  {
    hide VarInt, ReadFrom;
    ReadWritten(n, rest);
    SmallMod(n, modulus);
  }

  /** What an `int` is read back as: a negative one loses all but its last seven bits. */
  function Survives(n: int): int {
    if n < 0 then n % 0x80 else n
  }

  lemma ReadSignedWritten(n: int, rest: Bytes)
    requires IsInt32(n)
    ensures ReadSigned(SignedVarInt(n) + rest) == Got(Survives(n), rest)
  {
    hide VarInt, ReadFrom;
    if n < 0 {
      ReadOne(n % 0x80, rest, 0);
    } else {
      ReadWritten(n, rest);
    }
  }

  // ---------- Amounts ----------

  const MAX_MONEY: nat := 10_000_000_000_000_000

  /** Takes out factors of ten, at most nine in all. */
  function Strip(n: nat, e: nat): (r: (nat, nat))
    requires e <= 9 && n > 0
    ensures e <= r.1 <= 9 && r.0 > 0 && (r.1 < 9 ==> r.0 % 10 != 0)
    decreases 9 - e
  {
    if n % 10 == 0 && e < 9 then Strip(n / 10, e + 1) else (n, e)
  }

  /** Zeros appended in decimal. */
  function Tens(n: nat, e: nat): (r: nat)
    ensures r >= n
  {
    if e == 0 then n else 10 * Tens(n, e - 1)
  }

  lemma {:induction false} TensMore(n: nat, e: nat)
    ensures Tens(10 * n, e) == Tens(n, e + 1)
  {
    if e > 0 {
      TensMore(n, e - 1);
    }
  }

  function Compressed(n: nat): nat {
    if n == 0 then 0 else
      var (m, e) := Strip(n, 0);
      if e < 9 then 1 + (m / 10 * 9 + m % 10 - 1) * 10 + e else 1 + (m - 1) * 10 + 9
  }

  function Decompressed(x: nat): nat {
    if x == 0 then 0 else
      var e, y := (x - 1) % 10, (x - 1) / 10;
      Tens(if e < 9 then y / 9 * 10 + y % 9 + 1 else y + 1, e)
  }

  /** Computed in 64 bits. */
  method CompressAmount(amount: nat) returns (r: nat)
    requires amount < TWO_64
    ensures r == Compressed(amount) % TWO_64
  {
    hide Strip;
    if amount == 0 {
      return 0;
    }
    var n, e := amount, 0;
    while n % 10 == 0 && e < 9
      invariant 0 <= e <= 9 && 0 < n <= amount && Strip(amount, 0) == Strip(n, e)
      decreases 9 - e
    {
      StripStep(n, e);
      n := n / 10;
      e := e + 1;
    }
    StripStep(n, e);
    if e < 9 {
      var d := n % 10;
      assert 1 <= d <= 9;
      n := n / 10;
      TenTimes(n * 9 + d - 1, e + 1);
      r := (1 + (n * 9 + d - 1) % TWO_64 * 10 + e) % TWO_64;
    } else {
      r := (1 + (n - 1) * 10 + 9) % TWO_64;
    }
  }

  lemma TenTimes(n: nat, c: nat)
    ensures (n % TWO_64 * 10 + c) % TWO_64 == (n * 10 + c) % TWO_64
  {
    Arith.ModLinear(n, 10, c, TWO_64);
  }

  lemma StripStep(n: nat, e: nat)
    requires e <= 9 && n > 0
    ensures n % 10 == 0 && e < 9 ==> n >= 10 && Strip(n, e) == Strip(n / 10, e + 1)
    ensures !(n % 10 == 0 && e < 9) ==> Strip(n, e) == (n, e)
  {
  }

  method DecompressAmount(amount: nat) returns (n: nat)
    requires amount < TWO_64
    ensures n == Decompressed(amount) % TWO_64
  {
    hide Tens;
    if amount == 0 {
      return 0;
    }
    var x := amount - 1;
    var e := x % 10;
    x := x / 10;
    if e < 9 {
      var d := x % 9 + 1;
      x := x / 9;
      n := x * 10 + d;
    } else {
      n := x + 1;
    }
    ghost var all := n;
    while e > 0
      invariant e >= 0 && all >= 0 && n == all % TWO_64 && Tens(all, e) == Decompressed(amount)
      decreases e
    {
      TensMore(all, e - 1);
      TenTimes(all, 0);
      n := n * 10 % TWO_64;
      all := 10 * all;
      e := e - 1;
    }
    NoTens(all);
  }

  lemma NoTens(n: nat)
    ensures Tens(n, 0) == n
  {
  }

  lemma {:induction false} StripValue(n: nat, e: nat)
    requires e <= 9 && n > 0
    ensures Tens(Strip(n, e).0, Strip(n, e).1 - e) == n
    decreases 9 - e
  {
    if n % 10 == 0 && e < 9 {
      StripValue(n / 10, e + 1);
    }
  }

  lemma {:induction false} StripOf(m: nat, k: nat, e: nat)
    requires e + k <= 9 && m > 0 && (e + k < 9 ==> m % 10 != 0)
    ensures Strip(Tens(m, k), e) == (m, e + k)
    decreases k
  {
    if k > 0 {
      StripOf(m, k - 1, e + 1);
    }
  }

  /** Decompressing undoes compressing, for every amount. */
  lemma DecompressCompress(n: nat)
    ensures Decompressed(Compressed(n)) == n
  {
    hide Tens, Strip;
    if n > 0 {
      StripValue(n, 0);
      Unpacked(Strip(n, 0).0, Strip(n, 0).1);
    }
  }

  lemma Unpacked(m: nat, e: nat)
    requires m > 0 && e <= 9 && (e < 9 ==> m % 10 != 0)
    ensures
      var x := if e < 9 then 1 + (m / 10 * 9 + m % 10 - 1) * 10 + e else 1 + (m - 1) * 10 + 9;
      && (x - 1) % 10 == e
      && var y := (x - 1) / 10; m == if e < 9 then y / 9 * 10 + y % 9 + 1 else y + 1
  {
  }

  /** And compressing undoes decompressing: every number is the compressed form of an amount. */
  lemma CompressDecompress(x: nat)
    ensures Compressed(Decompressed(x)) == x
  {
    hide Tens, Strip;
    if x > 0 {
      var e, y := (x - 1) % 10, (x - 1) / 10;
      var m := if e < 9 then y / 9 * 10 + y % 9 + 1 else y + 1;
      Packed(x);
      StripOf(m, e, 0);
    }
  }

  lemma Packed(x: nat)
    requires x > 0
    ensures
      var e, y := (x - 1) % 10, (x - 1) / 10;
      var m := if e < 9 then y / 9 * 10 + y % 9 + 1 else y + 1;
      && m > 0 && (e < 9 ==> m % 10 != 0)
      && x == if e < 9 then 1 + (m / 10 * 9 + m % 10 - 1) * 10 + e else 1 + (m - 1) * 10 + 9
  {
  }

  /** Within the money range nothing overflows 64 bits. */
  lemma CompressedFits(n: nat)
    requires n <= MAX_MONEY
    ensures Compressed(n) < TWO_64
  {
    hide Tens, Strip;
    if n > 0 {
      StripValue(n, 0);
      assert Strip(n, 0).0 <= n;
    }
  }
}
