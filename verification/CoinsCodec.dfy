/** The stored form of the unspent outputs of a transaction (`CCoins::Serialize` and `Unserialize`). */
module CoinsCodec {
  import Arith
  import opened Basics
  import opened Coins
  import opened Positional
  import opened LimbShifts
  import opened VarInts
  import opened ScriptCompressor

  predicate Avail(vout: seq<TxOut>, i: nat) {
    i < |vout| && !vout[i].IsNull()
  }

  // ---------- The bit mask ----------

  /** The availability of n outputs from p on as a number, the first in the lowest bit. */
  function Mask(vout: seq<TxOut>, p: nat, n: nat): nat
    decreases n
  {
    if n == 0 then 0 else (if Avail(vout, p) then 1 else 0) + 2 * Mask(vout, p + 1, n - 1)
  }

  /** The first two outputs are not in the mask. */
  function MaskByte(vout: seq<TxOut>, b: nat): nat {
    Mask(vout, 2 + 8 * b, 8)
  }

  lemma {:induction false} MaskNext(vout: seq<TxOut>, p: nat, n: nat)
    ensures Mask(vout, p, n + 1) == Mask(vout, p, n) + if Avail(vout, p + n) then Pow(2, n) else 0
    ensures Mask(vout, p, n) < Pow(2, n)
    decreases n
  {
    if n > 0 {
      MaskNext(vout, p + 1, n - 1);
    }
  }

  lemma {:induction false} MaskZero(vout: seq<TxOut>, p: nat, n: nat)
    ensures Mask(vout, p, n) == 0 <==> forall i | p <= i < p + n :: !Avail(vout, i)
    decreases n
  {
    if n > 0 {
      MaskZero(vout, p + 1, n - 1);
    }
  }

  /** The bits of a byte, lowest first. */
  function BitsOf(x: nat, n: nat): (r: seq<bool>)
    ensures |r| == n
  {
    if n == 0 then [] else [x % 2 == 1] + BitsOf(x / 2, n - 1)
  }

  lemma {:induction false} BitsOfMask(vout: seq<TxOut>, p: nat, n: nat)
    ensures forall i | 0 <= i < n :: BitsOf(Mask(vout, p, n), n)[i] == Avail(vout, p + i)
    decreases n
  {
    hide BitsOf, Mask, Avail;
    if n > 0 {
      BitsOfMask(vout, p + 1, n - 1);
      forall i | 0 <= i < n
        ensures BitsOf(Mask(vout, p, n), n)[i] == Avail(vout, p + i)
      {
        MaskHalf(vout, p, n);
        BitsHalf(Mask(vout, p, n), n, i);
        assert i > 0 ==> BitsOf(Mask(vout, p + 1, n - 1), n - 1)[i - 1] == Avail(vout, (p + 1) + (i - 1));
      }
    }
  }

  lemma MaskHalf(vout: seq<TxOut>, p: nat, n: nat)
    requires n > 0
    ensures Mask(vout, p, n) / 2 == Mask(vout, p + 1, n - 1) && (Mask(vout, p, n) % 2 == 1 <==> Avail(vout, p))
  {
  }

  lemma BitsHalf(x: nat, n: nat, i: nat)
    requires i < n
    ensures BitsOf(x, n)[i] == if i == 0 then x % 2 == 1 else BitsOf(x / 2, n - 1)[i - 1]
  {
  }

  lemma {:induction false} BitTest(x: nat, n: nat, p: nat)
    requires p < n
    ensures BitsOf(x, n)[p] == TestBit(x, p)
    decreases n
  {
    if p > 0 {
      BitTest(x / 2, n - 1, p - 1);
      HalfBit(x, p);
    } else {
      assert Pow(2, 0) == 1;
    }
  }

  lemma HalfBit(x: nat, p: nat)
    requires p > 0
    ensures TestBit(x / 2, p - 1) == TestBit(x, p)
  {
    hide Pow;
    PowNext(2, p - 1);
    HalfQuotient(x, Pow2(p - 1));
  }

  lemma HalfQuotient(x: nat, q: nat)
    requires q > 0
    ensures x / 2 / q == x / (2 * q)
  {
    var a, r := x / 2 / q, (x / 2) % q;
    Arith.DivMod(x / 2, q);
    assert IsQuotient(x, 2 * q, a) by {
      Arith.Associate(a, 2, q);
    }
    QuotientOf(x, 2 * q, a);
  }

  /** One past the last byte below b that is not zero. */
  function MaskSize(vout: seq<TxOut>, b: nat): (r: nat)
    ensures r <= b && (r > 0 ==> MaskByte(vout, r - 1) != 0)
  {
    if b == 0 then 0 else if MaskByte(vout, b - 1) != 0 then b else MaskSize(vout, b - 1)
  }

  function NonZero(vout: seq<TxOut>, b: nat): nat {
    if b == 0 then 0 else NonZero(vout, b - 1) + if MaskByte(vout, b - 1) != 0 then 1 else 0
  }

  /** The number of mask bytes that the outputs could need. */
  function ByteCount(vout: seq<TxOut>): nat {
    if |vout| <= 2 then 0 else (|vout| - 2 + 7) / 8
  }

  ghost predicate NoneAvail(vout: seq<TxOut>, p: nat, n: nat) {
    forall j | p <= j < p + n :: !Avail(vout, j)
  }

  method IsZeroByte(vout: seq<TxOut>, b: nat) returns (fZero: bool)
    ensures fZero <==> MaskByte(vout, b) == 0
  {
    fZero := true;
    var i: nat := 0;
    while i < 8 && 2 + b * 8 + i < |vout|
      invariant i <= 8 && (fZero <==> NoneAvail(vout, 2 + 8 * b, i))
    {
      assert NoneAvail(vout, 2 + 8 * b, i + 1) <==> NoneAvail(vout, 2 + 8 * b, i) && !Avail(vout, 2 + 8 * b + i);
      if !vout[2 + b * 8 + i].IsNull() {
        fZero := false;
      }
      i := i + 1;
    }
    MaskZero(vout, 2 + 8 * b, 8);
    assert NoneAvail(vout, 2 + 8 * b, i) <==> NoneAvail(vout, 2 + 8 * b, 8);
  }

  /** `CalcMaskSize`. */
  method CalcMaskSize(vout: seq<TxOut>) returns (nBytes: nat, nNonzeroBytes: nat)
    ensures nBytes == MaskSize(vout, ByteCount(vout)) && nNonzeroBytes == NonZero(vout, ByteCount(vout))
  {
    hide MaskByte;
    var nLastUsedByte: nat := 0;
    nNonzeroBytes := 0;
    var b: nat := 0;
    while 2 + b * 8 < |vout|
      invariant b <= ByteCount(vout)
      invariant nLastUsedByte == MaskSize(vout, b) && nNonzeroBytes == NonZero(vout, b)
      decreases |vout| - b
    {
      var fZero := IsZeroByte(vout, b);
      if !fZero {
        nLastUsedByte := b + 1;
        nNonzeroBytes := nNonzeroBytes + 1;
      }
      b := b + 1;
    }
    nBytes := nLastUsedByte;
  }

  function MaskBytes(vout: seq<TxOut>, b: nat, size: nat): Bytes
    requires b <= size
    decreases size - b
  {
    if b == size then [] else [MaskByte(vout, b)] + MaskBytes(vout, b + 1, size)
  }

  lemma NoMask(vout: seq<TxOut>, p: nat)
    ensures Mask(vout, p, 0) == 0
  {
  }

  /** One byte of the mask: bits are set with or. */
  method MakeMaskByte(vout: seq<TxOut>, b: nat) returns (chAvail: nat)
    ensures chAvail == MaskByte(vout, b)
  {
    hide BitOr, Pow, Mask;
    NoMask(vout, 2 + 8 * b);
    chAvail := 0;
    var i: nat := 0;
    while i < 8 && 2 + b * 8 + i < |vout|
      invariant i <= 8 && chAvail == Mask(vout, 2 + 8 * b, i)
    {
      MaskNext(vout, 2 + 8 * b, i);
      if !vout[2 + b * 8 + i].IsNull() {
        JoinBits(chAvail, 1, i);
        chAvail := BitOr(chAvail, Pow2(i));
      }
      i := i + 1;
    }
    MaskRest(vout, 2 + 8 * b, i, 8);
  }

  lemma {:induction false} MaskRest(vout: seq<TxOut>, p: nat, i: nat, n: nat)
    requires i <= n && (i == n || p + i >= |vout|)
    ensures Mask(vout, p, n) == Mask(vout, p, i)
    decreases n
  {
    if i < n {
      MaskRest(vout, p, i, n - 1);
      MaskNext(vout, p, n - 1);
    }
  }

  // ---------- Reading the mask ----------

  /** Bytes are read until `count` of them were not zero. */
  function ReadMask(s: Bytes, count: nat, bits: seq<bool>): Read<seq<bool>>
    decreases |s|
  {
    if count == 0 then Got(bits, s)
    else if s == [] then Failed
    else ReadMask(s[1..], if s[0] != 0 then count - 1 else count, bits + BitsOf(s[0], 8))
  }

  method LoadMask(input: Bytes, nMaskCode0: nat, vAvail0: seq<bool>) returns (r: Read<seq<bool>>)
    ensures r == ReadMask(input, nMaskCode0, vAvail0)
  {
    var s, nMaskCode, vAvail := input, nMaskCode0, vAvail0;
    while nMaskCode > 0
      invariant nMaskCode >= 0 && ReadMask(input, nMaskCode0, vAvail0) == ReadMask(s, nMaskCode, vAvail)
      decreases |s|, nMaskCode
    {
      if s == [] {
        return Failed;
      }
      var chAvail := s[0];
      ghost var before := vAvail;
      for p := 0 to 8
        invariant |vAvail| == |before| + p && vAvail[..|before|] == before
        invariant forall q | 0 <= q < p :: vAvail[|before| + q] == BitsOf(chAvail, 8)[q]
      {
        BitTest(chAvail, 8, p);
        vAvail := vAvail + [TestBit(chAvail, p)];
      }
      assert vAvail == before + BitsOf(chAvail, 8);
      s := s[1..];
      if chAvail != 0 {
        nMaskCode := nMaskCode - 1;
      }
    }
    r := Got(vAvail, s);
  }

  function AvailBits(vout: seq<TxOut>, m: nat): (r: seq<bool>)
    ensures |r| == m && forall i | 0 <= i < m :: r[i] == Avail(vout, i)
  {
    seq(m, i requires 0 <= i => Avail(vout, i))
  }

  lemma AvailMore(vout: seq<TxOut>, b: nat)
    ensures AvailBits(vout, 2 + 8 * b) + BitsOf(MaskByte(vout, b), 8) == AvailBits(vout, 2 + 8 * (b + 1))
  {
    hide BitsOf, Mask, AvailBits;
    BitsOfMask(vout, 2 + 8 * b, 8);
    var bits, more := AvailBits(vout, 2 + 8 * b), BitsOf(MaskByte(vout, b), 8);
    var all := AvailBits(vout, 2 + 8 * (b + 1));
    forall i | 0 <= i < |all|
      ensures (bits + more)[i] == all[i]
    {
      if i >= |bits| {
        assert more[i - |bits|] == Avail(vout, 2 + 8 * b + (i - |bits|));
      }
    }
  }

  lemma {:induction false} NonZeroGrows(vout: seq<TxOut>, b: nat, c: nat)
    requires b <= c
    ensures NonZero(vout, b) <= NonZero(vout, c)
            && (b < c && MaskByte(vout, c - 1) != 0 ==> NonZero(vout, b) < NonZero(vout, c))
    decreases c
  {
    hide MaskByte;
    if b < c {
      NonZeroGrows(vout, b, c - 1);
    }
  }

  lemma ReadMaskEnd(s: Bytes, bits: seq<bool>)
    ensures ReadMask(s, 0, bits) == Got(bits, s)
  {
  }

  lemma ReadMaskStep(x: nat, s: Bytes, count: nat, bits: seq<bool>)
    requires count > 0
    ensures ReadMask([x] + s, count, bits) == ReadMask(s, if x != 0 then count - 1 else count, bits + BitsOf(x, 8))
  {
    assert ([x] + s)[1..] == s;
  }

  /** Reading the mask consumes exactly the bytes that were written. */
  lemma {:induction false} MaskRoundTrip(vout: seq<TxOut>, b: nat, size: nat, rest: Bytes)
    requires b <= size && (size > 0 ==> MaskByte(vout, size - 1) != 0)
    ensures NonZero(vout, b) <= NonZero(vout, size)
    ensures ReadMask(MaskBytes(vout, b, size) + rest, NonZero(vout, size) - NonZero(vout, b),
                     AvailBits(vout, 2 + 8 * b)) ==
            Got(AvailBits(vout, 2 + 8 * size), rest)
    decreases size - b
  {
    hide BitsOf, MaskByte, AvailBits, ReadMask;
    NonZeroGrows(vout, b, size);
    if b == size {
      assert MaskBytes(vout, b, size) + rest == rest;
      ReadMaskEnd(rest, AvailBits(vout, 2 + 8 * size));
    } else {
      MaskRoundTrip(vout, b + 1, size, rest);
      AvailMore(vout, b);
      var more := MaskBytes(vout, b + 1, size) + rest;
      assert MaskBytes(vout, b, size) + rest == [MaskByte(vout, b)] + more;
      ReadMaskStep(MaskByte(vout, b), more, NonZero(vout, size) - NonZero(vout, b), AvailBits(vout, 2 + 8 * b));
    }
  }

  // ---------- The outputs ----------

  function WrittenOut(curve: Curve, out: TxOut): Bytes
    requires out.value >= 0
  {
    VarInt(Compressed(out.value), false) + Written(curve, out.script)
  }

  /** An amount in the money range, and a script whose length fits in 32 bits. */
  predicate OutOk(out: TxOut) {
    0 <= out.value <= MAX_MONEY && |out.script| + SPECIAL_SCRIPTS < TWO_32
  }

  predicate OutsOk(vout: seq<TxOut>) {
    forall i | 0 <= i < |vout| :: vout[i].IsNull() || OutOk(vout[i])
  }

  function WrittenOuts(curve: Curve, vout: seq<TxOut>, i: nat): Bytes
    requires i <= |vout| && OutsOk(vout)
    decreases |vout| - i
  {
    if i == |vout| then []
    else (if vout[i].IsNull() then [] else WrittenOut(curve, vout[i])) + WrittenOuts(curve, vout, i + 1)
  }

  lemma WrittenNext(curve: Curve, vout: seq<TxOut>, i: nat, s: Bytes)
    requires i < |vout| && OutsOk(vout)
    ensures s + WrittenOuts(curve, vout, i) ==
            (if vout[i].IsNull() then s else s + WrittenOut(curve, vout[i])) + WrittenOuts(curve, vout, i + 1)
  {
    hide WrittenOut;
  }

  lemma WrittenEnd(curve: Curve, vout: seq<TxOut>)
    requires OutsOk(vout)
    ensures WrittenOuts(curve, vout, |vout|) == []
  {
  }

  method WriteOuts(curve: Curve, vout: seq<TxOut>) returns (s: Bytes)
    requires OutsOk(vout)
    ensures s == WrittenOuts(curve, vout, 0)
  {
    hide WrittenOuts, VarInt, Compressed;
    s := [];
    for i := 0 to |vout|
      invariant s + WrittenOuts(curve, vout, i) == WrittenOuts(curve, vout, 0)
    {
      WrittenNext(curve, vout, i, s);
      if !vout[i].IsNull() {
        var amount := CompressAmount(vout[i].value);
        CompressedFits(vout[i].value);
        var bytes := WriteVarInt(amount);
        s := s + (bytes + Written(curve, vout[i].script));
      }
    }
    assert WrittenOuts(curve, vout, |vout|) == [] by { WrittenEnd(curve, vout); }
  }

  function ReadOut(curve: Curve, s: Bytes): Read<TxOut> {
    var v := Narrowed(ReadFrom(s, 0), TWO_64);
    if v.Failed? then Failed else
      var script := ReadScript(curve, v.rest);
      if script.Failed? then Failed
      else Got(TxOut(Signed(Decompressed(v.value) % TWO_64, TWO_64), script.value), script.rest)
  }

  /** Available outputs are read, the others are null. */
  function ReadOuts(curve: Curve, s: Bytes, bits: seq<bool>, i: nat, vout: seq<TxOut>): Read<seq<TxOut>>
    requires i <= |bits|
    decreases |bits| - i
  {
    if i == |bits| then Got(vout, s)
    else if !bits[i] then ReadOuts(curve, s, bits, i + 1, vout + [NULL_TXOUT])
    else
      var r := ReadOut(curve, s);
      if r.Failed? then Failed else ReadOuts(curve, r.rest, bits, i + 1, vout + [r.value])
  }

  method LoadOuts(curve: Curve, input: Bytes, vAvail: seq<bool>) returns (r: Read<seq<TxOut>>)
    ensures r == ReadOuts(curve, input, vAvail, 0, [])
  {
    hide ReadFrom, Decompressed, ReadScript;
    var s, vout := input, [];
    for i := 0 to |vAvail|
      invariant ReadOuts(curve, input, vAvail, 0, []) == ReadOuts(curve, s, vAvail, i, vout)
    {
      if vAvail[i] {
        var v := ReadVarInt(s, TWO_64);
        if v.Failed? {
          return Failed;
        }
        var value := DecompressAmount(v.value);
        var script := ReadScript(curve, v.rest);
        if script.Failed? {
          return Failed;
        }
        s := script.rest;
        vout := vout + [TxOut(Signed(value, TWO_64), script.value)];
      } else {
        vout := vout + [NULL_TXOUT];
      }
    }
    r := Got(vout, s);
  }

  /** What an output is read back as. */
  function KeptOut(out: TxOut): TxOut {
    TxOut(out.value, Kept(out.script))
  }

  lemma OutRoundTrip(curve: Curve, out: TxOut, rest: Bytes)
    requires CurveOk(curve) && OutOk(out)
    ensures ReadOut(curve, WrittenOut(curve, out) + rest) == Got(KeptOut(out), rest)
  {
    hide VarInt, ReadFrom, Compressed, Decompressed, Written, ReadScript, CurveOk;
    var script := Written(curve, out.script);
    var amount := VarInt(Compressed(out.value), false);
    assert WrittenOut(curve, out) + rest == amount + (script + rest);
    CompressedFits(out.value);
    ReadNarrow(Compressed(out.value), script + rest, TWO_64);
    DecompressCompress(out.value);
    ScriptRoundTrip(curve, out.script, rest);
  }

  /** The first m outputs as they are read back, with null ones where there is none. */
  function Filled(vout: seq<TxOut>, m: nat): (r: seq<TxOut>)
    ensures |r| == m && forall i | 0 <= i < m :: r[i] == if Avail(vout, i) then KeptOut(vout[i]) else NULL_TXOUT
  {
    if m == 0 then [] else Filled(vout, m - 1) + [if Avail(vout, m - 1) then KeptOut(vout[m - 1]) else NULL_TXOUT]
  }

  function WrittenFrom(curve: Curve, vout: seq<TxOut>, i: nat): Bytes
    requires OutsOk(vout)
  {
    if i <= |vout| then WrittenOuts(curve, vout, i) else []
  }

  lemma WrittenFromStep(curve: Curve, vout: seq<TxOut>, i: nat, rest: Bytes)
    requires OutsOk(vout)
    ensures WrittenFrom(curve, vout, i) + rest ==
            if Avail(vout, i) then WrittenOut(curve, vout[i]) + (WrittenFrom(curve, vout, i + 1) + rest)
            else WrittenFrom(curve, vout, i + 1) + rest
  {
    hide WrittenOut, WrittenOuts;
    WrittenEnd(curve, vout);
    if i < |vout| {
      WrittenNext(curve, vout, i, []);
      assert [] + WrittenOuts(curve, vout, i) == WrittenOuts(curve, vout, i);
      var more := WrittenOuts(curve, vout, i + 1);
      if Avail(vout, i) {
        assert ([] + WrittenOut(curve, vout[i]) + more) + rest == WrittenOut(curve, vout[i]) + (more + rest);
      } else {
        assert ([] + more) + rest == more + rest;
      }
    }
  }

  lemma ReadOutsStep(curve: Curve, s: Bytes, bits: seq<bool>, i: nat, vout: seq<TxOut>, out: TxOut, rest: Bytes)
    requires i < |bits| && if bits[i] then ReadOut(curve, s) == Got(out, rest) else rest == s && out == NULL_TXOUT
    ensures ReadOuts(curve, s, bits, i, vout) == ReadOuts(curve, rest, bits, i + 1, vout + [out])
  {
    hide ReadOut;
  }

  lemma {:induction false} OutsRoundTrip(curve: Curve, vout: seq<TxOut>, m: nat, i: nat, rest: Bytes)
    requires CurveOk(curve) && OutsOk(vout) && i <= m && NoneAvail(vout, m, |vout|)
    ensures ReadOuts(curve, WrittenFrom(curve, vout, i) + rest, AvailBits(vout, m), i, Filled(vout, m)[..i]) ==
            Got(Filled(vout, m), rest)
    decreases m - i
  {
    hide ReadOut, WrittenOut, CurveOk, AvailBits, Filled, WrittenFrom, ReadOuts, KeptOut;
    var bits, all := AvailBits(vout, m), Filled(vout, m);
    if i == m {
      assert all[..i] == all;
      WrittenFromEnd(curve, vout, m, rest);
      ReadOutsEnd(curve, rest, bits, all);
    } else {
      OutsRoundTrip(curve, vout, m, i + 1, rest);
      assert all[..i + 1] == all[..i] + [all[i]];
      WrittenFromStep(curve, vout, i, rest);
      var more := WrittenFrom(curve, vout, i + 1) + rest;
      if bits[i] {
        OutRoundTrip(curve, vout[i], more);
      }
      ReadOutsStep(curve, WrittenFrom(curve, vout, i) + rest, bits, i, all[..i], all[i], more);
    }
  }

  /** Nothing is written for outputs that are spent. */
  lemma {:induction false} WrittenFromEnd(curve: Curve, vout: seq<TxOut>, m: nat, rest: Bytes)
    requires OutsOk(vout) && NoneAvail(vout, m, |vout|)
    ensures WrittenFrom(curve, vout, m) + rest == rest
    decreases |vout| - m
  {
    hide WrittenOuts;
    if m < |vout| {
      WrittenFromEnd(curve, vout, m + 1, rest);
      WrittenFromStep(curve, vout, m, rest);
    } else {
      WrittenEnd(curve, vout);
    }
  }

  lemma ReadOutsEnd(curve: Curve, s: Bytes, bits: seq<bool>, vout: seq<TxOut>)
    ensures ReadOuts(curve, s, bits, |bits|, vout) == Got(vout, s)
  {
  }

  lemma TrimStep(vout: seq<TxOut>)
    requires vout != [] && vout[|vout| - 1].IsNull()
    ensures Trimmed(vout) == Trimmed(vout[..|vout| - 1])
  {
  }

  /** Outputs at the end that are spent make no difference. */
  lemma {:induction false} TrimFilled(vout: seq<TxOut>, m: nat, n: nat)
    requires m <= n && forall i | m <= i < n :: !Avail(vout, i)
    ensures Trimmed(Filled(vout, n)) == Trimmed(Filled(vout, m))
    decreases n
  {
    hide Filled, Trimmed;
    if m < n {
      TrimFilled(vout, m, n - 1);
      assert Filled(vout, n)[..n - 1] == Filled(vout, n - 1);
      TrimStep(Filled(vout, n));
    }
  }

  lemma TrimAll(vout: seq<TxOut>, m: nat)
    requires NoneAvail(vout, m, |vout|)
    ensures Trimmed(Filled(vout, m)) == Trimmed(Filled(vout, |vout|))
  {
    hide Filled, Trimmed;
    if m < |vout| {
      TrimFilled(vout, m, |vout|);
    } else {
      TrimFilled(vout, |vout|, m);
    }
  }

  // ---------- The whole ----------

  function Code(c: Coins): nat
    requires !c.IsPruned()
  {
    var first, second := Avail(c.vout, 0), Avail(c.vout, 1);
    SomethingToWrite(c.vout);
    8 * (NonZero(c.vout, ByteCount(c.vout)) - (if first || second then 0 else 1))
    + (if c.coinBase then 1 else 0) + (if first then 2 else 0) + (if second then 4 else 0)
  }

  /** The assertion of `Serialize`: an entry with an unspent output has something to write. */
  lemma SomethingToWrite(vout: seq<TxOut>)
    requires exists i :: 0 <= i < |vout| && !vout[i].IsNull()
    ensures Avail(vout, 0) || Avail(vout, 1) || NonZero(vout, ByteCount(vout)) > 0
  {
    hide MaskByte, NonZero;
    var i :| 0 <= i < |vout| && !vout[i].IsNull();
    if i >= 2 {
      var b := (i - 2) / 8;
      assert Avail(vout, i);
      ZeroByte(vout, b);
      NonZeroGrows(vout, b, b + 1);
      NonZeroGrows(vout, b + 1, ByteCount(vout));
    }
  }

  /** What can be written: not entirely spent, which is asserted, and numbers within their types. */
  predicate Storable(c: Coins) {
    !c.IsPruned() && OutsOk(c.vout) && |c.vout| + 16 < TWO_32 && IsInt32(c.version) && IsInt32(c.height)
  }

  function Encoded(curve: Curve, c: Coins): Bytes
    requires Storable(c)
  {
    SignedVarInt(c.version) + (VarInt(Code(c), false)
    + (MaskBytes(c.vout, 0, MaskSize(c.vout, ByteCount(c.vout)))
    + (WrittenOuts(curve, c.vout, 0) + SignedVarInt(c.height))))
  }

  method WriteMask(vout: seq<TxOut>, nMaskSize: nat) returns (mask: Bytes)
    ensures mask == MaskBytes(vout, 0, nMaskSize)
  {
    hide MaskByte;
    mask := [];
    for b := 0 to nMaskSize
      invariant mask + MaskBytes(vout, b, nMaskSize) == MaskBytes(vout, 0, nMaskSize)
    {
      var chAvail := MakeMaskByte(vout, b);
      mask := mask + [chAvail];
    }
  }

  method Serialize(curve: Curve, c: Coins) returns (s: Bytes)
    requires Storable(c)
    ensures s == Encoded(curve, c)
  {
    hide VarInt, SignedVarInt, WrittenOuts, NonZero, MaskByte, MaskBytes;
    SomethingToWrite(c.vout);
    var nMaskSize, nMaskCode := CalcMaskSize(c.vout);
    var fFirst := |c.vout| > 0 && !c.vout[0].IsNull();
    var fSecond := |c.vout| > 1 && !c.vout[1].IsNull();
    assert fFirst || fSecond || nMaskCode != 0;
    var nCode := 8 * (nMaskCode - (if fFirst || fSecond then 0 else 1))
                 + (if c.coinBase then 1 else 0) + (if fFirst then 2 else 0) + (if fSecond then 4 else 0);
    var version := WriteSignedVarInt(c.version);
    var code := WriteVarInt(nCode);
    var mask := WriteMask(c.vout, nMaskSize);
    var outs := WriteOuts(curve, c.vout);
    var height := WriteSignedVarInt(c.height);
    s := version + (code + (mask + (outs + height)));
  }

  function Decoded(curve: Curve, s: Bytes): Read<Coins> {
    var version := ReadSigned(s);
    if version.Failed? then Failed else
      var code := Narrowed(ReadFrom(version.rest, 0), TWO_32);
      if code.Failed? then Failed else DecodedMask(curve, version.value, code.value, code.rest)
  }

  function DecodedMask(curve: Curve, version: int, code: nat, s: Bytes): Read<Coins> {
    var first, second := code / 2 % 2 == 1, code / 4 % 2 == 1;
    var mask := ReadMask(s, code / 8 + (if first || second then 0 else 1), [first, second]);
    if mask.Failed? then Failed else DecodedOuts(curve, version, code % 2 == 1, mask.value, mask.rest)
  }

  function DecodedOuts(curve: Curve, version: int, coinBase: bool, bits: seq<bool>, s: Bytes): Read<Coins> {
    var outs := ReadOuts(curve, s, bits, 0, []);
    if outs.Failed? then Failed else
      var height := ReadSigned(outs.rest);
      if height.Failed? then Failed
      else Got(Cleaned(Coins(coinBase, outs.value, height.value, version)), height.rest)
  }

  method Unserialize(curve: Curve, s: Bytes) returns (r: Read<Coins>)
    ensures r == Decoded(curve, s)
  {
    hide ReadFrom, ReadSigned, ReadMask, ReadOuts, Trimmed;
    var version := ReadSignedVarInt(s);
    if version.Failed? {
      return Failed;
    }
    var code := ReadVarInt(version.rest, TWO_32);
    if code.Failed? {
      return Failed;
    }
    var nCode := code.value;
    var fCoinBase := nCode % 2 == 1;
    var vAvail := [nCode / 2 % 2 == 1, nCode / 4 % 2 == 1];
    var nMaskCode := nCode / 8 + (if vAvail[0] || vAvail[1] then 0 else 1);
    var mask := LoadMask(code.rest, nMaskCode, vAvail);
    if mask.Failed? {
      return Failed;
    }
    var outs := LoadOuts(curve, mask.rest, mask.value);
    if outs.Failed? {
      return Failed;
    }
    var height := ReadSignedVarInt(outs.rest);
    if height.Failed? {
      return Failed;
    }
    var c := Cleanup(Coins(fCoinBase, outs.value, height.value, version.value));
    r := Got(c, height.rest);
  }

  lemma CodeParts(c: Coins)
    requires !c.IsPruned()
    ensures
      var code := Code(c);
      && (code % 2 == 1 <==> c.coinBase) && (code / 2 % 2 == 1 <==> Avail(c.vout, 0))
      && (code / 4 % 2 == 1 <==> Avail(c.vout, 1))
      && code / 8 + (if Avail(c.vout, 0) || Avail(c.vout, 1) then 0 else 1) == NonZero(c.vout, ByteCount(c.vout))
  {
    hide NonZero, Avail, ByteCount;
    SomethingToWrite(c.vout);
  }

  /** A byte of the mask is zero exactly if all its eight outputs are spent. */
  lemma ZeroByte(vout: seq<TxOut>, b: nat)
    ensures MaskByte(vout, b) == 0 <==> forall i | 2 + 8 * b <= i < 2 + 8 * b + 8 :: !Avail(vout, i)
  {
    hide Mask;
    MaskZero(vout, 2 + 8 * b, 8);
  }

  /** Bytes above the last one that is not zero count nothing. */
  lemma {:induction false} MaskCovers(vout: seq<TxOut>, b: nat)
    ensures NonZero(vout, MaskSize(vout, b)) == NonZero(vout, b)
    ensures forall i | 2 + 8 * MaskSize(vout, b) <= i < 2 + 8 * b :: !Avail(vout, i)
    decreases b
  {
    hide MaskByte;
    if b > 0 && MaskByte(vout, b - 1) == 0 {
      MaskCovers(vout, b - 1);
      ZeroByte(vout, b - 1);
    }
  }

  /** The mask reaches the last unspent output. */
  lemma MaskReaches(vout: seq<TxOut>)
    ensures NoneAvail(vout, 2 + 8 * MaskSize(vout, ByteCount(vout)), |vout|)
  {
    hide MaskSize, NonZero;
    MaskCovers(vout, ByteCount(vout));
    assert 2 + 8 * ByteCount(vout) >= |vout|;
  }

  /** What an entry is read back as: without scripts that are too long, spent outputs cleared or dropped, and numbers as
      they survive. */
  function Stored(c: Coins): Coins {
    Coins(c.coinBase, Trimmed(Filled(c.vout, |c.vout|)), Survives(c.height), Survives(c.version))
  }

  /** Reading undoes writing, but for what is not kept, and consumes exactly what was written. */
  lemma RoundTrip(curve: Curve, c: Coins, rest: Bytes)
    requires Storable(c) && CurveOk(curve)
    ensures Decoded(curve, Encoded(curve, c) + rest) == Got(Stored(c), rest)
  {
    hide VarInt, SignedVarInt, ReadFrom, ReadSigned, MaskBytes, WrittenOuts, Code, CurveOk, DecodedMask, Survives,
         Stored;
    var size := MaskSize(c.vout, ByteCount(c.vout));
    var height := SignedVarInt(c.height) + rest;
    var outs := WrittenOuts(curve, c.vout, 0) + height;
    var mask := MaskBytes(c.vout, 0, size) + outs;
    var code := VarInt(Code(c), false) + mask;
    assert Encoded(curve, c) + rest == SignedVarInt(c.version) + code;
    ReadSignedWritten(c.version, code);
    CodeFits(c);
    ReadNarrow(Code(c), mask, TWO_32);
    MaskDecodes(curve, c, rest);
  }

  lemma CodeFits(c: Coins)
    requires !c.IsPruned() && |c.vout| + 16 < TWO_32
    ensures Code(c) < TWO_32
  {
    hide NonZero;
    NonZeroBelow(c.vout, ByteCount(c.vout));
  }

  lemma {:induction false} NonZeroBelow(vout: seq<TxOut>, b: nat)
    ensures NonZero(vout, b) <= b
  {
    hide MaskByte;
    if b > 0 {
      NonZeroBelow(vout, b - 1);
    }
  }

  lemma MaskDecodes(curve: Curve, c: Coins, rest: Bytes)
    requires Storable(c) && CurveOk(curve)
    ensures
      var mask := MaskBytes(c.vout, 0, MaskSize(c.vout, ByteCount(c.vout)));
      DecodedMask(curve, Survives(c.version), Code(c),
                  mask + (WrittenOuts(curve, c.vout, 0) + (SignedVarInt(c.height) + rest))) == Got(Stored(c), rest)
  {
    hide SignedVarInt, MaskBytes, WrittenOuts, ReadMask, Code, CurveOk, MaskSize, NonZero, AvailBits, ByteCount, Avail,
         DecodedOuts, Survives, Stored, OutsOk;
    CodeParts(c);
    MaskPart(c.vout, WrittenOuts(curve, c.vout, 0) + (SignedVarInt(c.height) + rest));
    MaskReaches(c.vout);
    OutsDecode(curve, c, 2 + 8 * MaskSize(c.vout, ByteCount(c.vout)), rest);
  }

  lemma OutsDecode(curve: Curve, c: Coins, m: nat, rest: Bytes)
    requires OutsOk(c.vout) && IsInt32(c.height) && CurveOk(curve) && NoneAvail(c.vout, m, |c.vout|)
    ensures DecodedOuts(curve, Survives(c.version), c.coinBase, AvailBits(c.vout, m),
                        WrittenOuts(curve, c.vout, 0) + (SignedVarInt(c.height) + rest)) == Got(Stored(c), rest)
  {
    hide SignedVarInt, ReadSigned, WrittenOuts, ReadOuts, CurveOk, Trimmed, Filled, AvailBits, Survives, OutsOk,
         NoneAvail;
    var height := SignedVarInt(c.height) + rest;
    OutsPart(curve, c.vout, m, height);
    ReadSignedWritten(c.height, rest);
    TrimAll(c.vout, m);
  }

  /** An entry that is stored unchanged, seen from outside. */
  predicate Canonical(c: Coins) {
    && c.version >= 0 && c.height >= 0
    && (c.vout != [] ==> !c.vout[|c.vout| - 1].IsNull())
    && forall i | 0 <= i < |c.vout| ::
         if c.vout[i].IsNull() then c.vout[i] == NULL_TXOUT else |c.vout[i].script| <= MAX_SCRIPT_SIZE
  }

  /** An entry survives exactly if its numbers are not negative, spent outputs are cleared and not at the end, and no
      script is too long. */
  lemma StoredIff(c: Coins)
    requires OutsOk(c.vout)
    ensures Stored(c) == c <==> Canonical(c)
  {
    hide Filled;
    var all := Filled(c.vout, |c.vout|);
    if Canonical(c) {
      assert forall i | 0 <= i < |all| :: all[i] == c.vout[i];
      assert all == c.vout;
    }
    if Stored(c) == c {
      assert Trimmed(all) == all == c.vout;
    }
  }

  lemma MaskPart(vout: seq<TxOut>, rest: Bytes)
    ensures
      var size := MaskSize(vout, ByteCount(vout));
      ReadMask(MaskBytes(vout, 0, size) + rest, NonZero(vout, ByteCount(vout)), [Avail(vout, 0), Avail(vout, 1)]) ==
      Got(AvailBits(vout, 2 + 8 * size), rest)
  {
    hide MaskBytes, ReadMask, NonZero, MaskByte, AvailBits;
    MaskCovers(vout, ByteCount(vout));
    NothingCounted(vout);
    MaskRoundTrip(vout, 0, MaskSize(vout, ByteCount(vout)), rest);
    assert [Avail(vout, 0), Avail(vout, 1)] == AvailBits(vout, 2);
  }

  lemma OutsPart(curve: Curve, vout: seq<TxOut>, m: nat, rest: Bytes)
    requires CurveOk(curve) && OutsOk(vout) && NoneAvail(vout, m, |vout|)
    ensures ReadOuts(curve, WrittenOuts(curve, vout, 0) + rest, AvailBits(vout, m), 0, []) == Got(Filled(vout, m), rest)
  {
    hide CurveOk, ReadOuts, WrittenOuts, AvailBits, Filled;
    OutsRoundTrip(curve, vout, m, 0, rest);
    assert Filled(vout, m)[..0] == [];
  }

  lemma NothingCounted(vout: seq<TxOut>)
    ensures NonZero(vout, 0) == 0
  {
  }

  /** The version of a transaction may be any number: -1 comes back as 127. */
  lemma VersionLost(curve: Curve, c: Coins, rest: Bytes)
    requires Storable(c) && CurveOk(curve) && c.version == -1
    ensures
      var r := Decoded(curve, Encoded(curve, c) + rest);
      r.Got? && r.value.version == 127
  {
    hide Storable, CurveOk, Decoded, Encoded;
    RoundTrip(curve, c, rest);
  }

  // ---------- Entries of transactions ----------

  predicate IsUnspendable(script: Bytes) {
    (|script| > 0 && script[0] == OP_RETURN) || |script| > MAX_SCRIPT_SIZE
  }

  /** Nulls the outputs that can never be spent, and drops those at the end. */
  method ClearUnspendable(c: Coins) returns (r: Coins)
    ensures r.(vout := []) == c.(vout := []) && |r.vout| <= |c.vout|
    ensures forall i: nat :: r.IsAvailable(i) <==> c.IsAvailable(i) && !IsUnspendable(c.vout[i].script)
    ensures forall i | 0 <= i < |r.vout| :: r.vout[i] == if r.IsAvailable(i) then c.vout[i] else r.vout[i]
    ensures (forall i | 0 <= i < |c.vout| :: !c.vout[i].IsNull()) ==>
              (Canonical(r) <==> c.version >= 0 && c.height >= 0)
  {
    var vout := c.vout;
    for i := 0 to |vout|
      invariant |vout| == |c.vout|
      invariant forall j | 0 <= j < |vout| ::
                  vout[j] == if j < i && IsUnspendable(c.vout[j].script) then NULL_TXOUT else c.vout[j]
    {
      if IsUnspendable(vout[i].script) {
        vout := vout[i := NULL_TXOUT];
      }
    }
    CleanedIsStable(c.(vout := vout));
    r := Cleanup(c.(vout := vout));
  }
}
