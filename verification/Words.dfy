/** Single bits of 64-bit words. The operators have names so that a proof can treat them bit by bit. */
module Words {

  function And(x: bv64, y: bv64): bv64 {
    x & y
  }

  function Or(x: bv64, y: bv64): bv64 {
    x | y
  }

  function Xor(x: bv64, y: bv64): bv64 {
    x ^ y
  }

  function Not(x: bv64): bv64 {
    !x
  }

  function ShiftLeft(x: bv64, k: bv6): bv64 {
    x << k
  }

  predicate Bit(x: bv64, k: bv6) {
    (x >> k) & 1 != 0
  }

  lemma AndLow(x: bv64, y: bv64, k: bv6)
    ensures Bit(x & y, k) <==> Bit(x, k) && Bit(y, k)
  {
  }

  lemma AndBit(x: bv64, y: bv64, k: bv6)
    ensures Bit(And(x, y), k) <==> Bit(x, k) && Bit(y, k)
  {
    hide Bit;
    AndLow(x, y, k);
  }

  lemma OrLow(x: bv64, y: bv64, k: bv6)
    ensures Bit(x | y, k) <==> Bit(x, k) || Bit(y, k)
  {
  }

  lemma OrBit(x: bv64, y: bv64, k: bv6)
    ensures Bit(Or(x, y), k) <==> Bit(x, k) || Bit(y, k)
  {
    hide Bit;
    OrLow(x, y, k);
  }

  lemma XorLow(x: bv64, y: bv64, k: bv6)
    ensures Bit(x ^ y, k) <==> Bit(x, k) != Bit(y, k)
  {
  }

  lemma XorBit(x: bv64, y: bv64, k: bv6)
    ensures Bit(Xor(x, y), k) <==> Bit(x, k) != Bit(y, k)
  {
    hide Bit;
    XorLow(x, y, k);
  }

  lemma NotLow(x: bv64, k: bv6)
    ensures Bit(!x, k) <==> !Bit(x, k)
  {
  }

  lemma NotBit(x: bv64, k: bv6)
    ensures Bit(Not(x), k) <==> !Bit(x, k)
  {
    hide Bit;
    NotLow(x, k);
  }

  lemma OneLow(j: bv6, k: bv6)
    ensures Bit(1 << j, k) <==> j == k
  {
  }

  lemma ConstantBits(k: bv6)
    ensures !Bit(0, k) && Bit(0xffff_ffff_ffff_ffff, k)
  {
  }

  lemma ShiftedBit(v: bv64, j: bv6, k: bv6)
    requires v == 0 || v == 1
    ensures Bit(ShiftLeft(v, j), k) <==> j == k && v == 1
  {
    hide Bit;
    OneLow(j, k);
    ConstantBits(k);
    NoShift(j);
  }

  lemma NoShift(j: bv6)
    ensures 0 as bv64 << j == 0
  {
  }

  /** One bit replaced. */
  function SetBit(x: bv64, j: bv6, v: bv64): bv64 {
    Or(And(x, Not(ShiftLeft(1, j))), ShiftLeft(v, j))
  }

  lemma SetBitIs(x: bv64, j: bv6, v: bv64, k: bv6)
    requires v == 0 || v == 1
    ensures Bit(SetBit(x, j, v), k) <==> if k == j then v == 1 else Bit(x, k)
  {
    hide Bit, And, Or, Not, ShiftLeft;
    ShiftedBit(1, j, k);
    NotBit(ShiftLeft(1, j), k);
    AndBit(x, Not(ShiftLeft(1, j)), k);
    ShiftedBit(v, j, k);
    OrBit(And(x, Not(ShiftLeft(1, j))), ShiftLeft(v, j), k);
  }

  /** The bits at which (x, y) is not (a, b). */
  function Differ(x: bv64, y: bv64, a: bv64, b: bv64): bv64 {
    Or(Xor(x, a), Xor(y, b))
  }

  lemma DifferIs(x: bv64, y: bv64, a: bv64, b: bv64, k: bv6)
    ensures Bit(Differ(x, y, a, b), k) <==> Bit(x, k) != Bit(a, k) || Bit(y, k) != Bit(b, k)
  {
    hide Bit, Or, Xor;
    XorBit(x, a, k);
    XorBit(y, b, k);
    OrBit(Xor(x, a), Xor(y, b), k);
  }
}
