/** Output scripts as the coin database stores them (`CScriptCompressor`). */
module ScriptCompressor {
  import opened Basics
  import opened VarInts

  const MAX_SCRIPT_SIZE := 10000
  const SPECIAL_SCRIPTS: nat := 6

  const OP_RETURN: nat := 0x6a
  const OP_DUP: nat := 0x76
  const OP_EQUAL: nat := 0x87
  const OP_EQUALVERIFY: nat := 0x88
  const OP_HASH160: nat := 0xa9
  const OP_CHECKSIG: nat := 0xac

  /** The curve: which full public keys are valid, and the full key for an abscissa and a parity. */
  datatype Curve = Curve(isFullyValid: Bytes -> bool, decompress: (Bytes, bool) -> Option<Bytes>)

  /** A valid key is found again from its abscissa and parity, and every key that is found is a full one. */
  ghost predicate CurveOk(curve: Curve) {
    && (forall key | |key| == 65 && key[0] == 4 && curve.isFullyValid(key) ::
          curve.decompress(key[1..33], key[64] % 2 == 1) == Some(key))
    && (forall x, odd :: curve.decompress(x, odd).Some? ==> |curve.decompress(x, odd).value| == 65)
  }

  predicate IsToKeyID(script: Bytes) {
    && |script| == 25 && script[0] == OP_DUP && script[1] == OP_HASH160 && script[2] == 20
    && script[23] == OP_EQUALVERIFY && script[24] == OP_CHECKSIG
  }

  predicate IsToScriptID(script: Bytes) {
    |script| == 23 && script[0] == OP_HASH160 && script[1] == 20 && script[22] == OP_EQUAL
  }

  predicate IsToCompressedKey(script: Bytes) {
    |script| == 35 && script[0] == 33 && script[34] == OP_CHECKSIG && (script[1] == 2 || script[1] == 3)
  }

  predicate IsToFullKey(curve: Curve, script: Bytes) {
    |script| == 67 && script[0] == 65 && script[66] == OP_CHECKSIG && script[1] == 4
        && curve.isFullyValid(script[1..66])
  }

  /** `Compress`: the special form of a script, if it has one. */
  function Compress(curve: Curve, script: Bytes): Option<Bytes> {
    if IsToKeyID(script) then Some([0] + script[3..23])
    else if IsToScriptID(script) then Some([1] + script[2..22])
    else if IsToCompressedKey(script) then Some([script[1]] + script[2..34])
    else if IsToFullKey(curve, script) then Some([4 + script[65] % 2] + script[2..34])
    else None
  }

  /** `Serialize`. */
  function Written(curve: Curve, script: Bytes): Bytes {
    var special := Compress(curve, script);
    if special.Some? then special.value else VarInt(|script| + SPECIAL_SCRIPTS, false) + script
  }

  function SpecialSize(nSize: nat): nat {
    if nSize < 2 then 20 else if nSize < 6 then 32 else 0
  }

  /** `Decompress`; the script stays empty for a key that is not on the curve. */
  function Decompress(curve: Curve, nSize: nat, bytes: Bytes): Bytes {
    if nSize == 0 then [OP_DUP, OP_HASH160, 20] + bytes + [OP_EQUALVERIFY, OP_CHECKSIG]
    else if nSize == 1 then [OP_HASH160, 20] + bytes + [OP_EQUAL]
    else if nSize == 2 || nSize == 3 then [33, nSize] + bytes + [OP_CHECKSIG]
    else if nSize == 4 || nSize == 5 then
      var key := curve.decompress(bytes, nSize == 5);
      if key.Some? then [65] + key.value + [OP_CHECKSIG] else []
    else []
  }

  /** A number of bytes from the stream. */
  function Take(s: Bytes, n: nat): Read<Bytes> {
    if |s| < n then Failed else Got(s[..n], s[n..])
  }

  /** `Unserialize`: a script that is too long becomes a short unspendable one. */
  function ReadScript(curve: Curve, s: Bytes): Read<Bytes> {
    var size := Narrowed(ReadFrom(s, 0), TWO_32);
    if size.Failed? then Failed
    else if size.value < SPECIAL_SCRIPTS then
      var bytes := Take(size.rest, SpecialSize(size.value));
      if bytes.Failed? then Failed else Got(Decompress(curve, size.value, bytes.value), bytes.rest)
    else
      var bytes := Take(size.rest, size.value - SPECIAL_SCRIPTS);
      if bytes.Failed? then Failed
      else if size.value - SPECIAL_SCRIPTS > MAX_SCRIPT_SIZE then Got([OP_RETURN], bytes.rest)
      else bytes
  }

  /** What a script is read back as. */
  function Kept(script: Bytes): Bytes {
    if |script| > MAX_SCRIPT_SIZE then [OP_RETURN] else script
  }

  lemma TakeExactly(bytes: Bytes, rest: Bytes)
    ensures Take(bytes + rest, |bytes|) == Got(bytes, rest)
  {
    assert (bytes + rest)[..|bytes|] == bytes && (bytes + rest)[|bytes|..] == rest;
  }

  /** A special form is a number below six and as many bytes as that number asks for. */
  lemma ReadSpecial(curve: Curve, nSize: nat, bytes: Bytes, rest: Bytes)
    requires nSize < SPECIAL_SCRIPTS && |bytes| == SpecialSize(nSize)
    ensures ReadScript(curve, ([nSize] + bytes) + rest) == Got(Decompress(curve, nSize, bytes), rest)
  {
    hide Decompress, ReadFrom;
    assert ([nSize] + bytes) + rest == [nSize] + (bytes + rest);
    ReadOne(nSize, bytes + rest, 0);
    TakeExactly(bytes, rest);
  }

  /** Taking the special form apart again. */
  lemma ScriptRestored(curve: Curve, script: Bytes)
    requires CurveOk(curve) && Compress(curve, script).Some?
    ensures
      var special := Compress(curve, script).value;
      && special != [] && special[0] < SPECIAL_SCRIPTS && |special| == 1 + SpecialSize(special[0])
      && Decompress(curve, special[0], special[1..]) == script
  {
    var special := Compress(curve, script).value;
    if IsToKeyID(script) {
      assert special[1..] == script[3..23];
    } else if IsToScriptID(script) {
      assert special[1..] == script[2..22];
    } else {
      assert special[1..] == script[2..34];
      if !IsToCompressedKey(script) {
        var key := script[1..66];
        assert key[1..33] == script[2..34] && key[64] == script[65];
        assert [65] + key + [OP_CHECKSIG] == script;
      }
    }
  }

  /** Reading undoes writing for all scripts that can be spent; longer ones are replaced. */
  lemma ScriptRoundTrip(curve: Curve, script: Bytes, rest: Bytes)
    requires CurveOk(curve) && |script| + SPECIAL_SCRIPTS < TWO_32
    ensures ReadScript(curve, Written(curve, script) + rest) == Got(Kept(script), rest)
  {
    hide Decompress, VarInt, ReadFrom;
    var special := Compress(curve, script);
    if special.Some? {
      ScriptRestored(curve, script);
      var x, bytes := special.value[0], special.value[1..];
      assert special.value == [x] + bytes;
      ReadSpecial(curve, x, bytes, rest);
    } else {
      var size := |script| + SPECIAL_SCRIPTS;
      assert (VarInt(size, false) + script) + rest == VarInt(size, false) + (script + rest);
      ReadNarrow(size, script + rest, TWO_32);
      TakeExactly(script, rest);
    }
  }
}
