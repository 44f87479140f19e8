/** The Base58 codec (`EncodeBase58` and `DecodeBase58`). */
module Base58 {
  import Arith
  import opened Basics
  import opened Positional
  import Base58Room

  // ---------- Characters ----------

  /** The alphabet 123456789ABCDEFGHJKLMNPQRSTUVWXYZabcdefghijkmnopqrstuvwxyz, run by run. */
  function CharOf(d: nat): char
    requires d < 58
  {
    if d < 9 then '1' + d as char
    else if d < 17 then 'A' + (d - 9) as char
    else if d < 22 then 'J' + (d - 17) as char
    else if d < 33 then 'P' + (d - 22) as char
    else if d < 44 then 'a' + (d - 33) as char
    else 'm' + (d - 44) as char
  }

  function DigitOf(c: char): (r: Option<nat>)
    ensures r.Some? ==> r.value < 58 && CharOf(r.value) == c
  {
    if '1' <= c <= '9' then Some((c - '1') as nat)
    else if 'A' <= c <= 'H' then Some((c - 'A') as nat + 9)
    else if 'J' <= c <= 'N' then Some((c - 'J') as nat + 17)
    else if 'P' <= c <= 'Z' then Some((c - 'P') as nat + 22)
    else if 'a' <= c <= 'k' then Some((c - 'a') as nat + 33)
    else if 'm' <= c <= 'z' then Some((c - 'm') as nat + 44)
    else None
  }

  lemma CharDigit(d: nat)
    requires d < 58
    ensures DigitOf(CharOf(d)) == Some(d)
  {
  }

  predicate IsSpace(c: char) {
    c == ' ' || 9 as char <= c <= 13 as char
  }

  function Repeat<T>(x: T, n: nat): (r: seq<T>)
    ensures |r| == n && forall i | 0 <= i < n :: r[i] == x
  {
    if n == 0 then [] else Repeat(x, n - 1) + [x]
  }

  function Chars(ds: seq<nat>): (r: string)
    requires DigitsBelow(ds, 58)
    ensures |r| == |ds| && forall i | 0 <= i < |r| :: r[i] == CharOf(ds[i])
  {
    if ds == [] then [] else Chars(ds[..|ds| - 1]) + [CharOf(ds[|ds| - 1])]
  }

  predicate AllDigits(s: string) {
    forall i | 0 <= i < |s| :: DigitOf(s[i]).Some?
  }

  function DigitsIn(s: string): (r: seq<nat>)
    requires AllDigits(s)
    ensures |r| == |s| && forall i | 0 <= i < |s| :: r[i] == DigitOf(s[i]).value
    ensures DigitsBelow(r, 58)
  {
    if s == [] then [] else DigitsIn(s[..|s| - 1]) + [DigitOf(s[|s| - 1]).value]
  }

  /** The number of copies of x at the start. */
  function Leading<T(==)>(s: seq<T>, x: T): (n: nat)
    ensures n <= |s| && (forall i | 0 <= i < n :: s[i] == x) && (n < |s| ==> s[n] != x)
  {
    if s == [] || s[0] != x then 0 else 1 + Leading(s[1..], x)
  }

  lemma LeadingIs<T>(n: nat, x: T, rest: seq<T>)
    requires rest == [] || rest[0] != x
    ensures Leading(Repeat(x, n) + rest, x) == n
  {
    hide Repeat, Leading;
    var s, k := Repeat(x, n) + rest, Leading(Repeat(x, n) + rest, x);
    assert forall i | 0 <= i < n :: s[i] == x;
    assert n < |s| ==> s[n] == rest[0];
  }

  lemma LeadingSplit<T>(s: seq<T>, x: T)
    ensures s == Repeat(x, Leading(s, x)) + s[Leading(s, x)..]
  {
    hide Repeat, Leading;
  }

  // ---------- What the codec computes ----------

  /** Zero bytes become ones; the rest is a number, written in base 58. */
  function Encoded(bytes: seq<nat>): string {
    var z := Leading(bytes, 0);
    Repeat('1', z) + Chars(Digits(Value(bytes[z..], 256), 58))
  }

  /** The text without leading spaces, up to the first space. */
  function Core(s: string): string {
    var t := AfterSpaces(s);
    t[..FirstSpace(t)]
  }

  function AfterSpaces(s: string): string {
    if s != [] && IsSpace(s[0]) then AfterSpaces(s[1..]) else s
  }

  function FirstSpace(s: string): (n: nat)
    ensures n <= |s| && (forall i | 0 <= i < n :: !IsSpace(s[i])) && (n < |s| ==> IsSpace(s[n]))
  {
    if s == [] || IsSpace(s[0]) then 0 else 1 + FirstSpace(s[1..])
  }

  function Bytes(core: string): seq<nat>
    requires AllDigits(core)
  {
    var z := Leading(core, '1');
    Repeat(0, z) + Digits(Value(DigitsIn(core)[z..], 58), 256)
  }

  /** One word of digits, with spaces around it. */
  predicate IsWord(s: string) {
    var t := AfterSpaces(s);
    AfterSpaces(t[FirstSpace(t)..]) == [] && AllDigits(Core(s))
  }

  function Decoded(s: string): Option<seq<nat>> {
    if IsWord(s) then Some(Bytes(Core(s))) else None
  }

  // ---------- Round trips ----------

  /** Neither spaces nor the digit one at the front. */
  lemma CharsFacts(ds: seq<nat>)
    requires DigitsBelow(ds, 58) && NoLeadingZero(ds)
    ensures var s := Chars(ds); (forall i | 0 <= i < |s| ::
                                   !IsSpace(s[i])) && AllDigits(s) && DigitsIn(s) == ds && (s != [] ==> s[0] != '1')
  {
    hide Chars, DigitsIn, CharOf, DigitOf;
    var s := Chars(ds);
    forall i | 0 <= i < |s|
      ensures DigitOf(s[i]) == Some(ds[i]) && !IsSpace(s[i])
    {
      CharDigit(ds[i]);
      CharIsNoSpace(ds[i]);
    }
    CharOne();
  }

  lemma CharIsNoSpace(d: nat)
    requires d < 58
    ensures !IsSpace(CharOf(d))
  {
  }

  lemma CharOne()
    ensures CharOf(0) == '1' && DigitOf('1') == Some(0)
  {
  }

  lemma NoSpaces(s: string)
    requires forall i | 0 <= i < |s| :: !IsSpace(s[i])
    ensures AfterSpaces(s) == s && FirstSpace(s) == |s| && Core(s) == s
  {
  }

  /** Ones and digits make a word that is its own core. */
  lemma WordFacts(z: nat, ds: seq<nat>)
    requires DigitsBelow(ds, 58) && NoLeadingZero(ds)
    ensures
      var s := Repeat('1', z) + Chars(ds);
      && IsWord(s) && Core(s) == s && Leading(s, '1') == z
      && AllDigits(s) && DigitsIn(s)[z..] == ds
  {
    hide Repeat, Chars, DigitsIn, CharOf, DigitOf, Leading, IsSpace;
    var ones, cs := Repeat('1', z), Chars(ds);
    var s := ones + cs;
    CharsFacts(ds);
    CharOne();
    CharIsNoSpace(0);
    forall i | 0 <= i < |s|
      ensures !IsSpace(s[i]) && DigitOf(s[i]).Some?
    {
      assert i < z ==> s[i] == '1';
      assert i >= z ==> s[i] == cs[i - z];
    }
    NoSpaces(s);
    assert AfterSpaces(s[|s|..]) == [];
    LeadingIs(z, '1', cs);
    forall i | 0 <= i < |ds|
      ensures DigitsIn(s)[z..][i] == ds[i]
    {
      assert DigitsIn(cs)[i] == ds[i] && s[z + i] == cs[i];
    }
  }

  /** Decoding undoes encoding, for every byte string. */
  lemma DecodeEncode(bytes: seq<nat>)
    requires DigitsBelow(bytes, 256)
    ensures Decoded(Encoded(bytes)) == Some(bytes)
  {
    hide Value, Digits, Repeat, Chars, DigitsIn, Leading, IsWord, Core, AllDigits;
    var z := Leading(bytes, 0);
    var rest := bytes[z..];
    var v := Value(rest, 256);
    WordFacts(z, Digits(v, 58));
    DigitsValue(v, 58);
    ValueDigits(rest, 256);
    LeadingSplit(bytes, 0);
  }

  /** Encoding undoes decoding, up to the spaces around the text. */
  lemma EncodeDecode(s: string)
    requires IsWord(s)
    ensures Encoded(Bytes(Core(s))) == Core(s)
  {
    hide Value, Digits, Repeat, Chars, DigitsIn, Leading, CharOf, DigitOf, AllDigits, Core;
    var core := Core(s);
    var z := Leading(core, '1');
    var ds := DigitsIn(core)[z..];
    var v := Value(ds, 58);
    LeadingIs(z, 0, Digits(v, 256));
    assert (Repeat(0, z) + Digits(v, 256))[z..] == Digits(v, 256);
    DigitsValue(v, 256);
    CoreDigits(core);
    ValueDigits(ds, 58);
    LeadingSplit(core, '1');
  }

  /** The digits after the leading ones start with no zero, and write the rest of the text. */
  lemma CoreDigits(core: string)
    requires AllDigits(core)
    ensures
      var z := Leading(core, '1');
      var ds := DigitsIn(core)[z..];
      NoLeadingZero(ds) && DigitsBelow(ds, 58) && Chars(ds) == core[z..]
  {
    hide Chars, DigitsIn, Leading, CharOf, DigitOf;
    CharOne();
    var z := Leading(core, '1');
    var ds := DigitsIn(core)[z..];
    forall i | 0 <= i < |ds|
      ensures CharOf(ds[i]) == core[z + i] == core[z..][i]
    {
      assert ds[i] == DigitOf(core[z + i]).value;
    }
    assert |Chars(ds)| == |core[z..]|;
  }

  // ---------- Multiplying a digit buffer in place ----------

  lemma StepIs(v: nat, c: nat, p: nat, w: nat, f: nat, d: nat, x: nat, b: nat)
    requires b >= 2 && v + c * p == w * f + d
    ensures var t := c + f * x; ((t % b) * p + v) + (t / b) * (b * p) == (x * p + w) * f + d
  {
    var t := c + f * x;
    Arith.DivMod(t, b);
    Arith.Associate(t / b, b, p);
    Arith.Distribute((t / b) * b, t % b, p);
    Arith.Distribute(c, f * x, p);
    Arith.Associate(f, x, p);
    Arith.Distribute(x * p, w, f);
  }

  /** The value of the digits from k on, when digit k is put in front of those after it. */
  lemma SuffixValue(s: seq<nat>, k: nat, b: nat)
    requires k < |s|
    ensures Value(s[k..], b) == s[k] * Pow(b, |s| - k - 1) + Value(s[k + 1..], b)
  {
    hide Pow;
    assert s[k..] == [s[k]] + s[k + 1..];
    ValueConcat([s[k]], s[k + 1..], b);
    ValueAppend([], s[k], b);
    assert [] + [s[k]] == [s[k]] && Value([], b) == 0;
  }

  lemma ZeroPrefix(s: seq<nat>, k: nat, b: nat)
    requires k <= |s| && forall i | 0 <= i < k :: s[i] == 0
    ensures Value(s, b) == Value(s[k..], b)
  {
    assert s == s[..k] + s[k..];
    ValueConcat(s[..k], s[k..], b);
    ValueOfZeros(s[..k], b);
  }

  function Scaled(factor: nat, d: nat, carry: nat): nat {
    carry + factor * d
  }

  function Low(t: nat, base: nat): (r: nat)
    requires base >= 2
    ensures r < base
  {
    t % base
  }

  function High(t: nat, base: nat): nat
    requires base >= 2
  {
    Arith.DivMod(t, base);
    t / base
  }

  /** The last i digits, with the carry, are those of the product as far as it has been computed. */
  ghost predicate Progress(before: seq<nat>, now: seq<nat>, base: nat, factor: nat, digit: nat, i: nat, carry: nat)
    requires i <= |before| == |now|
  {
    && Value(now[|now| - i..], base) + carry * Pow(base, i) == Value(before[|before| - i..], base) * factor + digit
    && forall j | 0 <= j < |before| - i :: now[j] == before[j]
  }

  lemma ProgressStart(before: seq<nat>, base: nat, factor: nat, digit: nat)
    ensures Progress(before, before, base, factor, digit, 0, digit)
  {
    hide Value, Pow;
    NoDigits(base);
    assert before[|before|..] == [];
  }

  lemma NoDigits(b: nat)
    ensures Value([], b) == 0 && Pow(b, 0) == 1
  {
  }

  /** One digit of the loop below. */
  lemma ProgressStep(before: seq<nat>, now: seq<nat>, base: nat, factor: nat, digit: nat, i: nat, carry: nat)
    requires base >= 2 && i < |before| == |now| && Progress(before, now, base, factor, digit, i, carry)
    ensures
      var k := |before| - 1 - i;
      var t := Scaled(factor, now[k], carry);
      Progress(before, now[k := Low(t, base)], base, factor, digit, i + 1, High(t, base))
  {
    hide Value, Pow;
    var k := |before| - 1 - i;
    var t := Scaled(factor, now[k], carry);
    var after := now[k := Low(t, base)];
    assert after[k + 1..] == now[k + 1..];
    SuffixValue(before, k, base);
    SuffixValue(after, k, base);
    PowNext(base, i);
    StepIs(Value(now[k + 1..], base), carry, Pow(base, i), Value(before[k + 1..], base), factor, digit, before[k],
           base);
  }

  /** The inner loop of both directions: "digits = digits * factor + digit", from the last digit on, over the `length`
      digits in use and as far as the carry goes. With enough room no carry is left. */
  method MultiplyAdd(digits: array<nat>, base: nat, factor: nat, digit: nat, length: nat) returns (newLength: nat)
    requires base >= 2 && length <= digits.Length && DigitsBelow(digits[..], base)
    requires forall i | 0 <= i < digits.Length - length :: digits[i] == 0
    requires Value(digits[..], base) * factor + digit < Pow(base, digits.Length)
    modifies digits
    ensures DigitsBelow(digits[..], base) && Value(digits[..], base) == Value(old(digits[..]), base) * factor + digit
    ensures newLength <= digits.Length && forall i | 0 <= i < digits.Length - newLength :: digits[i] == 0
  {
    hide Value, Pow, Scaled, Low, High, Progress;
    ghost var before := digits[..];
    var carry: nat := digit;
    var i := 0;
    ProgressStart(before, base, factor, digit);
    while (carry != 0 || i < length) && i < digits.Length
      invariant 0 <= i <= digits.Length && DigitsBelow(digits[..], base)
      invariant Progress(before, digits[..], base, factor, digit, i, carry)
      decreases digits.Length - i
    {
      var k := digits.Length - 1 - i;
      ghost var now := digits[..];
      ProgressStep(before, now, base, factor, digit, i, carry);
      var t := Scaled(factor, digits[k], carry);
      digits[k] := Low(t, base);
      assert digits[..] == now[k := Low(t, base)];
      carry := High(t, base);
      i := i + 1;
    }
    ProgressEnd(before, digits[..], base, factor, digit, length, i, carry);
    assert carry == 0;
    newLength := i;
  }

  lemma NoCarry(v: nat, c: nat, p: nat, w: nat)
    requires v + c * p == w < p
    ensures c == 0
  {
    if c >= 1 {
      Arith.MulLe(1, c, p);
    }
  }

  /** At the end of the loop nothing is carried, and the unused digits are still zero. */
  lemma ProgressEnd(before: seq<nat>, after: seq<nat>, base: nat, factor: nat, digit: nat, length: nat, i: nat,
                    carry: nat)
    requires i <= |before| == |after| && length <= |before| && Progress(before, after, base, factor, digit, i, carry)
    requires forall j | 0 <= j < |before| - length :: before[j] == 0
    requires (carry == 0 && i >= length) || i == |before|
    requires Value(before, base) * factor + digit < Pow(base, |before|)
    ensures carry == 0 && Value(after, base) == Value(before, base) * factor + digit
    ensures forall j | 0 <= j < |after| - i :: after[j] == 0
  {
    hide Value, Pow;
    if i == |before| {
      assert after[0..] == after && before[0..] == before;
      NoCarry(Value(after, base), carry, Pow(base, i), Value(before, base) * factor + digit);
    } else {
      ZeroPrefix(before, |before| - i, base);
      ZeroPrefix(after, |after| - i, base);
    }
  }

  // ---------- Encoding ----------

  /** The digits without leading zeros are those of the value. */
  lemma StrippedDigits(s: seq<nat>, k: nat, b: nat)
    requires b >= 2 && k <= |s| && DigitsBelow(s, b) && (forall i | 0 <= i < k :: s[i] == 0) && NoLeadingZero(s[k..])
    ensures s[k..] == Digits(Value(s, b), b)
  {
    ZeroPrefix(s, k, b);
    ValueDigits(s[k..], b);
  }

  /** One more digit keeps the value within the room. */
  lemma NextFits(s: seq<nat>, i: nat, b: nat, room: nat)
    requires b >= 2 && i < |s| && DigitsBelow(s, b) && Pow(b, |s|) <= room
    ensures Value(s[..i + 1], b) == Value(s[..i], b) * b + s[i] < room
  {
    hide Value, Pow;
    assert s[..i + 1] == s[..i] + [s[i]];
    ValueAppend(s[..i], s[i], b);
    ValueBelow(s[..i + 1], b);
    PowMonotone(b, i + 1, |s|);
  }

  /** Converts a number from one base to another, digit by digit, in a buffer of the given size. */
  method Convert(input: seq<nat>, from: nat, to: nat, size: nat) returns (output: seq<nat>)
    requires from >= 2 && to >= 2 && DigitsBelow(input, from) && Pow(from, |input|) <= Pow(to, size)
    ensures output == Digits(Value(input, from), to)
  {
    hide Value, Pow, Digits;
    var buffer := new nat[size](_ => 0);
    var length: nat := 0;
    ValueOfZeros(buffer[..], to);
    NoDigits(from);
    assert input[..0] == [];
    for i := 0 to |input|
      invariant length <= buffer.Length == size && DigitsBelow(buffer[..], to)
      invariant forall j | 0 <= j < size - length :: buffer[j] == 0
      invariant Value(buffer[..], to) == Value(input[..i], from)
    {
      NextFits(input, i, from, Pow(to, size));
      length := MultiplyAdd(buffer, to, from, input[i], length);
    }
    assert input[..|input|] == input;
    output := SkipZeroes(buffer, to, length);
  }

  /** The digits in use, without the zeros before them. */
  method SkipZeroes(buffer: array<nat>, base: nat, length: nat) returns (output: seq<nat>)
    requires base >= 2 && length <= buffer.Length && DigitsBelow(buffer[..], base)
    requires forall j | 0 <= j < buffer.Length - length :: buffer[j] == 0
    ensures output == Digits(Value(buffer[..], base), base)
  {
    hide Value, Pow, Digits;
    var it := buffer.Length - length;
    while it < buffer.Length && buffer[it] == 0
      invariant buffer.Length - length <= it <= buffer.Length
      invariant forall j | 0 <= j < it :: buffer[j] == 0
    {
      it := it + 1;
    }
    StrippedDigits(buffer[..], it, base);
    output := buffer[it..];
  }

  method Encode(bytes: seq<nat>) returns (str: string)
    requires DigitsBelow(bytes, 256)
    ensures str == Encoded(bytes)
  {
    hide Value, Pow, Digits, Repeat, Chars, CharOf;
    var zeroes := CountLeading(bytes, 0);
    var rest := bytes[zeroes..];
    var size := |rest| * 138 / 100 + 1;
    Base58Room.EncodeRoom(|rest|);
    var digits := Convert(rest, 256, 58, size);
    str := Repeat('1', zeroes);
    var text := [];
    for i := 0 to |digits|
      invariant |text| == i && forall j | 0 <= j < i :: text[j] == CharOf(digits[j])
    {
      text := text + [CharOf(digits[i])];
    }
    assert text == Chars(digits);
    str := str + text;
  }

  method CountLeading<T(==)>(s: seq<T>, x: T) returns (n: nat)
    ensures n == Leading(s, x)
  {
    n := 0;
    while n < |s| && s[n] == x
      invariant n <= |s| && forall i | 0 <= i < n :: s[i] == x
    {
      n := n + 1;
    }
  }

  // ---------- Decoding ----------

  /** `isspace` skipping from position p on. */
  method SkipSpaces(s: string, p: nat) returns (q: nat)
    requires p <= |s|
    ensures p <= q <= |s| && s[q..] == AfterSpaces(s[p..])
  {
    q := p;
    while q < |s| && IsSpace(s[q])
      invariant p <= q <= |s| && AfterSpaces(s[q..]) == AfterSpaces(s[p..])
    {
      assert s[q..][1..] == s[q + 1..];
      q := q + 1;
    }
  }

  /** One more of at most n digits fits in the room for n. */
  lemma DigitFits(ds: seq<nat>, d: nat, n: nat)
    requires DigitsBelow(ds, 58) && d < 58 && |ds| < n
    ensures DigitsBelow(ds + [d], 58) && Value(ds + [d], 58) == Value(ds, 58) * 58 + d < Pow(256, n * 733 / 1000 + 1)
  {
    hide Value, Pow;
    ValueAppend(ds, d, 58);
    ValueBelow(ds + [d], 58);
    PowMonotone(58, |ds| + 1, n);
    Base58Room.DecodeRoom(n);
  }

  /** Converts the digits up to the next space as it reads them; fails at a character that is none. There is always room
      in the buffer, whatever is read. */
  method ReadDigits(s: string, p: nat, b256: array<nat>)
    returns (ok: bool, end: nat, length: nat, ghost digits: seq<nat>)
    requires p <= |s| && b256.Length == (|s| - p) * 733 / 1000 + 1 && forall i | 0 <= i < b256.Length :: b256[i] == 0
    modifies b256
    ensures p <= end <= |s| && |digits| == end - p && DigitsBelow(digits, 58)
    ensures forall i | p <= i < end :: !IsSpace(s[i]) && DigitOf(s[i]) == Some(digits[i - p])
    ensures if ok then end < |s| ==> IsSpace(s[end]) else end < |s| && !IsSpace(s[end]) && DigitOf(s[end]).None?
    ensures length <= b256.Length && DigitsBelow(b256[..], 256) && Value(b256[..], 256) == Value(digits, 58)
    ensures forall j | 0 <= j < b256.Length - length :: b256[j] == 0
  {
    hide DigitOf, IsSpace, Value, Pow;
    ValueOfZeros(b256[..], 256);
    NoDigits(58);
    end, length, digits := p, 0, [];
    while end < |s| && !IsSpace(s[end])
      invariant p <= end <= |s| && |digits| == end - p && DigitsBelow(digits, 58)
      invariant forall i | p <= i < end :: !IsSpace(s[i]) && DigitOf(s[i]) == Some(digits[i - p])
      invariant length <= b256.Length && DigitsBelow(b256[..], 256) && Value(b256[..], 256) == Value(digits, 58)
      invariant forall j | 0 <= j < b256.Length - length :: b256[j] == 0
    {
      var d := DigitOf(s[end]);
      if d.None? {
        return false, end, length, digits;
      }
      DigitFits(digits, d.value, |s| - p);
      length := MultiplyAdd(b256, 256, 58, d.value, length);
      digits := digits + [d.value];
      end := end + 1;
    }
    ok := true;
  }

  /** The text is a string up to its terminating zero. The room is reckoned from the length of all that follows the
      leading ones, which is at least the number of digits. */
  method Decode(s: string) returns (ok: bool, vch: seq<nat>)
    ensures Decoded(s) == if ok then Some(vch) else None
  {
    hide Value, Pow, Digits, Repeat, DigitsIn, DigitOf, CharOf, IsSpace, AfterSpaces, FirstSpace, Leading, Core,
         AllDigits;
    var start := SkipSpaces(s, 0);
    assert s[0..] == s;
    var zeroes := CountLeading(s[start..], '1');
    var p := start + zeroes;
    assert forall i | start <= i < p :: s[i] == s[start..][i - start];
    assert p < |s| ==> s[p] == s[start..][zeroes];
    var b256 := new nat[(|s| - p) * 733 / 1000 + 1](_ => 0);
    var end, length;
    ghost var digits;
    ok, end, length, digits := ReadDigits(s, p, b256);
    if !ok {
      NotAWord(s, start, p, end);
      return false, [];
    }
    WordEnds(s, start, p, end);
    var last := SkipSpaces(s, end);
    if last < |s| {
      return false, [];
    }
    CoreIs(s, start, p, end, digits);
    var rest := SkipZeroes(b256, 256, length);
    vch := Repeat(0, zeroes) + rest;
  }

  /** Where the core of the text ends. */
  lemma WordEnds(s: string, start: nat, p: nat, end: nat)
    requires start <= p <= end <= |s| && s[start..] == AfterSpaces(s)
    requires forall i | start <= i < p :: s[i] == '1'
    requires (forall i | p <= i < end :: !IsSpace(s[i])) && (end < |s| ==> IsSpace(s[end]))
    ensures Core(s) == s[start..end] && FirstSpace(s[start..]) == end - start && s[start..][end - start..] == s[end..]
  {
    hide AfterSpaces, FirstSpace;
    var t, n := s[start..], FirstSpace(s[start..]);
    assert forall i | 0 <= i < end - start :: t[i] == s[start + i] && !IsSpace(t[i]);
    assert end < |s| ==> t[end - start] == s[end];
    assert t[..end - start] == s[start..end];
  }

  lemma NotAWord(s: string, start: nat, p: nat, end: nat)
    requires start <= p <= end < |s| && s[start..] == AfterSpaces(s)
    requires forall i | start <= i < p :: s[i] == '1'
    requires (forall i | p <= i < end + 1 :: !IsSpace(s[i])) && DigitOf(s[end]).None?
    ensures !IsWord(s)
  {
    hide AfterSpaces, FirstSpace, DigitOf;
    var t, n := s[start..], FirstSpace(s[start..]);
    assert forall i | 0 <= i < end + 1 - start :: t[i] == s[start + i] && !IsSpace(t[i]);
    assert n > end - start && t[..n][end - start] == s[end];
  }

  lemma CoreIs(s: string, start: nat, p: nat, end: nat, digits: seq<nat>)
    requires start <= p <= end <= |s| && Core(s) == s[start..end]
    requires (forall i | start <= i < p :: s[i] == '1') && (p < |s| ==> s[p] != '1')
    requires |digits| == end - p && forall i | p <= i < end :: DigitOf(s[i]) == Some(digits[i - p])
    ensures AllDigits(Core(s)) && Leading(Core(s), '1') == p - start && DigitsIn(Core(s))[p - start..] == digits
  {
    hide DigitOf, DigitsIn, Leading, CharOf;
    CharOne();
    var core, z := Core(s), p - start;
    forall i | 0 <= i < |core|
      ensures core[i] == s[start + i] && DigitOf(core[i]).Some?
    {
    }
    assert z < |core| ==> core[z] == s[p];
    forall i | 0 <= i < |digits|
      ensures DigitsIn(core)[z..][i] == digits[i]
    {
      assert core[z + i] == s[p + i];
    }
  }

  predicate AllSpaces(s: string) {
    forall i | 0 <= i < |s| :: IsSpace(s[i])
  }

  lemma {:induction false} SpacesBefore(s: string) returns (n: nat)
    ensures n <= |s| && AfterSpaces(s) == s[n..] && AllSpaces(s[..n])
  {
    hide IsSpace;
    n := 0;
    if s != [] && IsSpace(s[0]) {
      var k := SpacesBefore(s[1..]);
      n := k + 1;
      assert s[..n] == [s[0]] + s[1..][..k] && s[1..][k..] == s[n..];
    }
  }

  /** The core of an accepted text is the text without the spaces around it. */
  lemma CoreIsTrimmed(s: string)
    requires IsWord(s)
    ensures exists a, b: string :: s == a + Core(s) + b && AllSpaces(a) && AllSpaces(b)
    ensures forall i | 0 <= i < |Core(s)| :: !IsSpace(Core(s)[i])
  {
    hide IsSpace, AllDigits, AllSpaces;
    var n := SpacesBefore(s);
    var t := s[n..];
    var k := FirstSpace(t);
    var m := SpacesBefore(t[k..]);
    var a, b := s[..n], t[k..];
    assert t[k..][..m] == b;
    assert s == a + t[..k] + b;
  }

  /** A C string ends at its first zero character. */
  function CString(s: string): string {
    if s == [] || s[0] == 0 as char then [] else [s[0]] + CString(s[1..])
  }

  method DecodeString(str: string) returns (ok: bool, vch: seq<nat>)
    ensures Decoded(CString(str)) == if ok then Some(vch) else None
  {
    ok, vch := Decode(CString(str));
  }
}
