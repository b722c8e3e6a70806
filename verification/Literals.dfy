// Integer literals (synlig_const2ast) and the hexadecimal text the EDIF backend writes.
// Literals follow section 5.7.1 of IEEE 1800-2017.
module Literals {
  import opened Arithmetic
  import opened Numerals

  // Four-valued bits, and the "any" bit of casex and casez items.
  datatype Bit = S0 | S1 | Sx | Sz | Sa

  // Bit vectors have their least significant bit first.
  type Bits = seq<Bit>

  datatype Result<+T> = Ok(value: T) | Error

  // The digit codes of x and z.
  const DIGIT_X: nat := 0xf0
  const DIGIT_Z: nat := 0xf1

  predicate Defined(b: Bit) {
    b == S0 || b == S1
  }

  predicate AllDefined(bits: Bits) {
    forall i | 0 <= i < |bits| :: Defined(bits[i])
  }

  function BitValue(b: Bit): nat {
    if b == S1 then 1 else 0
  }

  // The number a bit vector stands for.
  function BitsValue(bits: Bits): nat {
    if bits == [] then 0 else BitValue(bits[0]) + 2 * BitsValue(bits[1..])
  }

  // The number a vector of digits stands for, most significant digit first.
  function DigitsValue(digits: seq<nat>, base: nat): nat {
    if digits == [] then 0 else base * DigitsValue(digits[..|digits| - 1], base) + digits[|digits| - 1]
  }

  predicate AllBelow(digits: seq<nat>, base: nat) {
    forall i | 0 <= i < |digits| :: digits[i] < base
  }

  // ---------- the specification of the conversion ----------

  // The bits of a number, without superfluous zeros at the top.
  function BitsOf(n: nat): Bits {
    if n == 0 then [] else [if n % 2 == 1 then S1 else S0] + BitsOf(n / 2)
  }

  function DecimalBits(digits: seq<nat>): Bits {
    if digits == [] then [] else if DigitsValue(digits, 10) == 0 then [S0] else BitsOf(DigitsValue(digits, 10))
  }

  // The bits one digit contributes when the base is a power of two.
  function DigitBit(d: nat, i: nat, caseType: char): Bit {
    if d == DIGIT_X then (if caseType == 'x' then Sa else Sx)
    else if d == DIGIT_Z then (if caseType == 'x' || caseType == 'z' then Sa else Sz)
    else if (d / Pow2(i)) % 2 == 1 then S1 else S0
  }

  function Expand(d: nat, k: nat, caseType: char): Bits {
    seq(k, i requires 0 <= i < k => DigitBit(d, i, caseType))
  }

  function PowerBits(digits: seq<nat>, k: nat, caseType: char): Bits {
    if digits == [] then []
    else Expand(digits[|digits| - 1], k, caseType) + PowerBits(digits[..|digits| - 1], k, caseType)
  }

  function Repeat(b: Bit, n: nat): (r: Bits)
    ensures |r| == n && forall i | 0 <= i < n :: r[i] == b
  {
    seq(n, i requires 0 <= i < n => b)
  }

  // std::vector::resize.
  function Resize(bits: Bits, n: nat, fill: Bit): (r: Bits)
    ensures |r| == n
  {
    if |bits| >= n then bits[..n] else bits + Repeat(fill, n - |bits|)
  }

  // The bit a literal is extended with: x and z at the top are repeated.
  function Fill(bits: Bits): Bit {
    if bits == [] || Defined(bits[|bits| - 1]) then S0 else bits[|bits| - 1]
  }

  function CharDigit(c: char): seq<nat> {
    if '0' <= c <= '9' then [c as int - '0' as int]
    else if 'a' <= c <= 'f' then [10 + (c as int - 'a' as int)]
    else if 'A' <= c <= 'F' then [10 + (c as int - 'A' as int)]
    else if c == 'x' || c == 'X' then [DIGIT_X]
    else if c == 'z' || c == 'Z' || c == '?' then [DIGIT_Z]
    else []
  }

  // The digits of a text; any other character is skipped.
  function DigitsOf(s: string): seq<nat> {
    if s == [] then [] else DigitsOf(s[..|s| - 1]) + CharDigit(s[|s| - 1])
  }

  function BitsPerDigit(base: nat): nat {
    if base == 2 then 1 else if base == 8 then 3 else 4
  }

  // Bits of a vector of digits before sizing; a single x or z digit is allowed in a
  // decimal literal and then counts as a binary one.
  function RawBits(digits: seq<nat>, base: nat, caseType: char): Result<Bits> {
    if base == 10 && !(|digits| == 1 && digits[0] >= DIGIT_X) then
      if AllBelow(digits, 10) then Ok(DecimalBits(digits)) else Error
    else
      var b := if base == 10 then 2 else base;
      if forall i | 0 <= i < |digits| :: digits[i] < b || digits[i] >= DIGIT_X
      then Ok(PowerBits(digits, BitsPerDigit(b), caseType)) else Error
  }

  // A negative length stands for a literal without a size.
  function Sized(bits: Bits, len: int, isUnsized: bool): Result<Bits> {
    if len < 0 then Ok(if |bits| < 32 then Resize(bits, 32, Fill(bits)) else bits)
    else if (isUnsized && |bits| > len) || len == 0 then Error
    else Ok(Resize(bits, len, Fill(bits)))
  }

  function StrToBin(s: string, len: int, base: nat, caseType: char, isUnsized: bool): Result<Bits> {
    match RawBits(DigitsOf(s), base, caseType)
    case Ok(bits) => Sized(bits, len, isUnsized)
    case Error => Error
  }

  // ---------- what the bits mean ----------

  lemma {:induction false} BitsOfValue(n: nat)
    ensures BitsValue(BitsOf(n)) == n && AllDefined(BitsOf(n))
    ensures n > 0 ==> BitsOf(n) != [] && BitsOf(n)[|BitsOf(n)| - 1] == S1
  {
    if n > 0 {
      BitsOfValue(n / 2);
      assert BitsOf(n)[1..] == BitsOf(n / 2);
    }
  }

  // A decimal literal gives the bits of its number, and its top bit is 1 unless the
  // number is zero, which is the single bit 0.
  lemma {:induction false} DecimalBitsMean(digits: seq<nat>)
    ensures BitsValue(DecimalBits(digits)) == if digits == [] then 0 else DigitsValue(digits, 10)
    ensures AllDefined(DecimalBits(digits))
    ensures digits != [] ==> var b := DecimalBits(digits); b != [] && (b[|b| - 1] == S1 || b == [S0])
  {
    BitsOfValue(DigitsValue(digits, 10));
    assert [S0][1..] == [];
  }

  lemma {:induction false} AppendValue(a: Bits, b: Bits)
    ensures BitsValue(a + b) == BitsValue(a) + Pow2(|a|) * BitsValue(b)
  {
    if a == [] {
      assert a + b == b;
    } else {
      assert (a + b)[1..] == a[1..] + b;
      AppendValue(a[1..], b);
      DoublePow(|a| - 1, BitsValue(b));
    }
  }

  lemma {:induction false} DoublePow(n: nat, x: nat)
    ensures 2 * (Pow2(n) * x) == Pow2(n + 1) * x
  {
  }

  lemma {:induction false} ExpandValue(d: nat, k: nat, caseType: char)
    requires d < DIGIT_X
    ensures BitsValue(Expand(d, k, caseType)) == d % Pow2(k) && AllDefined(Expand(d, k, caseType))
    decreases k
  {
    if k > 0 {
      var e := Expand(d, k, caseType);
      forall i: nat | i < k - 1 ensures e[1..][i] == DigitBit(d / 2, i, caseType) {
        HalfShift(d, i);
      }
      assert e[1..] == Expand(d / 2, k - 1, caseType);
      ExpandValue(d / 2, k - 1, caseType);
      ModStep(d, Pow2(k - 1));
    }
  }

  // A literal in a power-of-two base gives the bits of its number, k for each digit.
  lemma {:induction false} PowerBitsMean(digits: seq<nat>, k: nat, caseType: char)
    requires AllBelow(digits, Pow2(k)) && Pow2(k) <= DIGIT_X
    ensures BitsValue(PowerBits(digits, k, caseType)) == DigitsValue(digits, Pow2(k))
    ensures AllDefined(PowerBits(digits, k, caseType)) && |PowerBits(digits, k, caseType)| == k * |digits|
  {
    if digits != [] {
      var d, init := digits[|digits| - 1], digits[..|digits| - 1];
      var e, p := Expand(d, k, caseType), PowerBits(init, k, caseType);
      PowerBitsMean(init, k, caseType);
      ExpandValue(d, k, caseType);
      AppendValue(e, p);
      DivUnique(d, Pow2(k), 0, d);
      Distribute(k, 1, |init|);
      assert AllDefined(e + p);
    }
  }

  lemma {:induction false} ZeroBits(n: nat)
    ensures BitsValue(Repeat(S0, n)) == 0
  {
    if n > 0 {
      assert Repeat(S0, n)[1..] == Repeat(S0, n - 1);
      ZeroBits(n - 1);
    }
  }

  lemma {:induction false} ValueBelow(bits: Bits)
    ensures BitsValue(bits) < Pow2(|bits|)
  {
    if bits != [] { ValueBelow(bits[1..]); }
  }

  // A literal with a size has exactly that many bits: its number modulo the power of two
  // when it has no x or z, and otherwise its own bits, with an x or z at the top repeated.
  lemma {:induction false} SizedMeans(bits: Bits, len: nat)
    requires len > 0
    ensures var r := Sized(bits, len, false);
            && r.Ok? && |r.value| == len
            && (AllDefined(bits) ==> AllDefined(r.value) && BitsValue(r.value) == BitsValue(bits) % Pow2(len))
            && (forall i | 0 <= i < len :: r.value[i] == if i < |bits| then bits[i] else Fill(bits))
  {
    var r := Resize(bits, len, Fill(bits));
    if AllDefined(bits) {
      ValueBelow(r);
      if |bits| >= len {
        assert bits == r + bits[len..];
        AppendValue(r, bits[len..]);
        DivUnique(BitsValue(bits), Pow2(len), BitsValue(bits[len..]), BitsValue(r));
      } else {
        var z := Repeat(S0, len - |bits|);
        ZeroBits(len - |bits|);
        AppendValue(bits, z);
        DivUnique(BitsValue(bits), Pow2(len), 0, BitsValue(bits));
      }
    }
  }

  // ---------- the conversion as the source runs it ----------

  // A vector of decimal digits that is divided in place.
  class DigitVector {
    var digits: seq<nat>

    constructor (digits: seq<nat>)
      ensures this.digits == digits
    {
      this.digits := digits;
    }

    // Divides the number by two, drops leading zeros, and returns the rest.
    method DivByTwo() returns (carry: Result<nat>)
      modifies this
      ensures carry.Ok? <==> AllBelow(old(digits), 10)
      ensures carry.Ok? ==> carry.value < 2 && AllBelow(digits, 10) && (digits == [] || digits[0] != 0)
      ensures carry.Ok? ==> DigitsValue(old(digits), 10) == 2 * DigitsValue(digits, 10) + carry.value
    {
      var c: nat := 0;
      for i := 0 to |digits|
        invariant |digits| == |old(digits)| && digits[i..] == old(digits)[i..] && c < 2
        invariant AllBelow(old(digits)[..i], 10) && AllBelow(digits[..i], 10)
        invariant DigitsValue(old(digits)[..i], 10) == 2 * DigitsValue(digits[..i], 10) + c
      {
        assert digits[i] == digits[i..][0] == old(digits)[i];
        if digits[i] >= 10 {
          return Error;
        }
        ghost var before := digits[..i];
        var d := digits[i] + c * 10;
        c := d % 2;
        digits := digits[i := d / 2];
        assert digits[..i] == before;
        assert digits[..i + 1][..i] == before && old(digits)[..i + 1][..i] == old(digits)[..i];
      }
      assert digits[..|digits|] == digits && old(digits)[..|old(digits)|] == old(digits);
      ghost var v := DigitsValue(digits, 10);
      while digits != [] && digits[0] == 0
        invariant AllBelow(digits, 10) && DigitsValue(digits, 10) == v
        decreases |digits|
      {
        DropLeadingZero(digits);
        digits := digits[1..];
      }
      return Ok(c);
    }
  }

  lemma {:induction false} DropLeadingZero(digits: seq<nat>)
    requires digits != [] && digits[0] == 0
    ensures DigitsValue(digits[1..], 10) == DigitsValue(digits, 10)
  {
    var n := |digits| - 1;
    if n > 0 {
      assert digits[1..][..n - 1] == digits[..n][1..];
      DropLeadingZero(digits[..n]);
    } else {
      assert digits[..0] == [] && digits[1..] == [];
    }
  }

  lemma {:induction false} LeadingDigitCounts(digits: seq<nat>)
    requires digits != [] && digits[0] != 0
    ensures DigitsValue(digits, 10) > 0
  {
    var n := |digits| - 1;
    if n > 0 { LeadingDigitCounts(digits[..n]); }
  }

  // The bits found so far and the digits that are left make up the literal.
  ghost predicate Converting(digits: seq<nat>, data: Bits, left: seq<nat>) {
    if data == [] then left == digits
    else
      && digits != [] && AllBelow(digits, 10) && AllBelow(left, 10) && (left == [] || left[0] != 0)
      && if DigitsValue(digits, 10) == 0 then data == [S0] && left == []
         else data + BitsOf(DigitsValue(left, 10)) == BitsOf(DigitsValue(digits, 10))
  }

  lemma {:induction false} ConvertStep(digits: seq<nat>, data: Bits, left: seq<nat>, left': seq<nat>, carry: nat)
    requires Converting(digits, data, left) && left != [] && AllBelow(left, 10)
    requires carry < 2 && AllBelow(left', 10) && (left' == [] || left'[0] != 0)
    requires DigitsValue(left, 10) == 2 * DigitsValue(left', 10) + carry
    ensures Converting(digits, data + [if carry == 1 then S1 else S0], left')
    ensures data != [] ==> DigitsValue(left', 10) < DigitsValue(left, 10)
  {
    var b := if carry == 1 then S1 else S0;
    var before, after := DigitsValue(left, 10), DigitsValue(left', 10);
    if data != [] { LeadingDigitCounts(left); }
    if left' != [] { LeadingDigitCounts(left'); }
    if before > 0 {
      BitsStep(after, carry);
      ShiftBit(data, b, BitsOf(after));
    }
  }

  lemma {:induction false} BitsStep(after: nat, carry: nat)
    requires carry < 2 && 2 * after + carry > 0
    ensures BitsOf(2 * after + carry) == [if carry == 1 then S1 else S0] + BitsOf(after)
  {
  }

  lemma {:induction false} ShiftBit(data: Bits, b: Bit, rest: Bits)
    ensures data + ([b] + rest) == (data + [b]) + rest
    ensures [] + ([b] + rest) == [b] + rest
  {
  }

  lemma {:induction false} ConvertDone(digits: seq<nat>, data: Bits)
    requires Converting(digits, data, [])
    ensures AllBelow(digits, 10) && data == DecimalBits(digits)
  {
    assert BitsOf(DigitsValue([], 10)) == [] && data + [] == data;
  }

  // Repeated division: one bit for every step, until no digit is left.
  method DecimalToBits(digits: seq<nat>) returns (r: Result<Bits>)
    ensures r == if AllBelow(digits, 10) then Ok(DecimalBits(digits)) else Error
  {
    var v := new DigitVector(digits);
    var data: Bits := [];
    while v.digits != []
      invariant Converting(digits, data, v.digits)
      decreases if data == [] then 1 else 0, DigitsValue(v.digits, 10)
    {
      ghost var left := v.digits;
      var carry := v.DivByTwo();
      if carry.Error? {
        return Error;
      }
      ConvertStep(digits, data, left, v.digits, carry.value);
      data := data + [if carry.value == 1 then S1 else S0];
    }
    ConvertDone(digits, data);
    r := Ok(data);
  }

  // Digit by digit from the least significant one, bit by bit.
  method PowerToBits(digits: seq<nat>, base: nat, caseType: char) returns (r: Result<Bits>)
    requires base in {2, 8, 16}
    ensures r == if forall i | 0 <= i < |digits| :: digits[i] < base || digits[i] >= DIGIT_X
                 then Ok(PowerBits(digits, BitsPerDigit(base), caseType)) else Error
  {
    var k := BitsPerDigit(base);
    var data: Bits := [];
    var it := |digits|;
    assert digits[..it] == digits && data + PowerBits(digits, k, caseType) == PowerBits(digits, k, caseType);
    while it > 0
      invariant 0 <= it <= |digits|
      invariant forall i | it <= i < |digits| :: digits[i] < base || digits[i] >= DIGIT_X
      invariant data + PowerBits(digits[..it], k, caseType) == PowerBits(digits, k, caseType)
    {
      it := it - 1;
      if base <= digits[it] < DIGIT_X {
        return Error;
      }
      var bits := DigitToBits(digits[it], k, caseType);
      PowerStep(digits, it, k, caseType, data);
      data := data + bits;
    }
    assert data + [] == data;
    r := Ok(data);
  }

  method DigitToBits(d: nat, k: nat, caseType: char) returns (bits: Bits)
    ensures bits == Expand(d, k, caseType)
  {
    bits := [];
    for i := 0 to k
      invariant |bits| == i && forall j | 0 <= j < i :: bits[j] == DigitBit(d, j, caseType)
    {
      bits := bits + [DigitBit(d, i, caseType)];
    }
  }

  lemma {:induction false} PowerStep(digits: seq<nat>, it: nat, k: nat, caseType: char, data: Bits)
    requires it < |digits|
    ensures data + PowerBits(digits[..it + 1], k, caseType) ==
            (data + Expand(digits[it], k, caseType)) + PowerBits(digits[..it], k, caseType)
  {
    assert digits[..it + 1][..it] == digits[..it];
  }

  method ReadDigits(s: string) returns (digits: seq<nat>)
    ensures digits == DigitsOf(s)
  {
    digits := [];
    for i := 0 to |s|
      invariant digits == DigitsOf(s[..i])
    {
      assert s[..i + 1][..i] == s[..i];
      digits := digits + CharDigit(s[i]);
    }
    assert s[..|s|] == s;
  }

  method ConvertString(s: string, len: int, base: nat, caseType: char, isUnsized: bool) returns (r: Result<Bits>)
    requires base in {2, 8, 10, 16}
    ensures r == StrToBin(s, len, base, caseType, isUnsized)
  {
    var digits := ReadDigits(s);
    var raw;
    if base == 10 && !(|digits| == 1 && digits[0] >= DIGIT_X) {
      raw := DecimalToBits(digits);
    } else {
      raw := PowerToBits(digits, if base == 10 then 2 else base, caseType);
    }
    match raw
    case Error => return Error;
    case Ok(bits) => return Sized(bits, len, isUnsized);
  }

  // ---------- whole literals ----------

  datatype Constant = Constant(bits: Bits, signed: bool, isUnsized: bool)

  predicate Blank(c: char) {
    c == '_' || c == ' ' || c == '\t' || c == '\r' || c == '\n'
  }

  function Stripped(s: string): string {
    if s == [] then [] else if Blank(s[0]) then Stripped(s[1..]) else [s[0]] + Stripped(s[1..])
  }

  // The digits at the start of a text.
  function DigitPrefix(s: string): (n: nat)
    ensures n <= |s| && forall i | 0 <= i < n :: IsDigit(s[i])
  {
    if s == [] || !IsDigit(s[0]) then 0 else 1 + DigitPrefix(s[1..])
  }

  function Min(a: nat, b: nat): nat {
    if a < b then a else b
  }

  // What strtol reads in base 10: the value, which stops at the limits of long, and how
  // many characters it takes.
  function StrToL(s: string): (int, nat) {
    var sign := if s != [] && (s[0] == '-' || s[0] == '+') then 1 else 0;
    var n := DigitPrefix(s[sign..]);
    if n == 0 then (0, 0)
    else
      var v := ValueOf(s[sign..sign + n]);
      (if s[0] == '-' then -(Min(v, 0x8000_0000_0000_0000) as int) else Min(v, 0x7fff_ffff_ffff_ffff), sign + n)
  }

  // Passing a long where an int is expected keeps the low 32 bits.
  function ToInt(n: int): int {
    var m := n % 0x1_0000_0000;
    if m >= 0x8000_0000 then m - 0x1_0000_0000 else m
  }

  function BaseOf(c: char): nat {
    if c == 'b' || c == 'B' then 2
    else if c == 'o' || c == 'O' then 8
    else if c == 'd' || c == 'D' then 10
    else if c == 'h' || c == 'H' then 16
    else 0
  }

  // The digit after the apostrophe of '0, '1, 'x and 'z.
  predicate UnsizedBit(c: char) {
    c == '0' || c == '1' || c == 'x' || c == 'X' || c == 'z' || c == 'Z'
  }

  // A signed literal without a size keeps its value: a 0 goes above a 1 at the top.
  function KeepSign(bits: Bits, wanted: bool): Bits {
    if wanted && bits != [] && bits[|bits| - 1] == S1 then bits + [S0] else bits
  }

  // Reads a literal that is not a string.
  function ReadLiteral(text: string, caseType: char): Result<Constant> {
    ReadStripped(Stripped(text), caseType)
  }

  function ReadStripped(s: string, caseType: char): Result<Constant> {
    var (len, end) := StrToL(s);
    if end == |s| then
      match StrToBin(s, -1, 10, caseType, false)
      case Ok(bits) => Ok(Constant(KeepSign(bits, true), true, false))
      case Error => Error
    else if s[end] == '\'' then ReadBased(s[end + 1..], if end == 0 then -1 else len, caseType)
    else Error
  }

  // The part of a literal after the apostrophe.
  function ReadBased(s: string, len: int, caseType: char): Result<Constant> {
    var signed := s != [] && (s[0] == 's' || s[0] == 'S');
    ReadRest(if signed then s[1..] else s, signed, len, caseType)
  }

  // The base and the digits.
  function ReadRest(rest: string, signed: bool, len: int, caseType: char): Result<Constant> {
    if rest == [] then Error
    else if BaseOf(rest[0]) != 0 then
      match StrToBin(rest[1..], ToInt(len), BaseOf(rest[0]), caseType, len < 0)
      case Ok(bits) => Ok(Constant(KeepSign(bits, len < 0 && signed), signed, len < 0))
      case Error => Error
    else if UnsizedBit(rest[0]) then
      match StrToBin(rest, 1, 2, caseType, true)
      case Ok(bits) => Ok(Constant(KeepSign(bits, len < 0 && signed), signed, true))
      case Error => Error
    else Error
  }

  // ---------- hexadecimal text ----------

  const HEX_CHARS: string := "0123456789abcdef"

  // The value of the four bits from i on; bits that are missing or not 1 count as 0.
  function Nibble(bits: Bits, i: nat): (d: nat)
    ensures d < 16
  {
    BitAt(bits, i) + 2 * BitAt(bits, i + 1) + 4 * BitAt(bits, i + 2) + 8 * BitAt(bits, i + 3)
  }

  function BitAt(bits: Bits, i: nat): (b: nat)
    ensures b <= 1
  {
    if i < |bits| then BitValue(bits[i]) else 0
  }

  function HexFrom(bits: Bits, i: nat): string
    decreases |bits| - i
  {
    if i >= |bits| then "" else HexFrom(bits, i + 4) + [HEX_CHARS[Nibble(bits, i)]]
  }

  function PrintHex(bits: Bits): string {
    Decimal(|bits|) + "'h" + HexFrom(bits, 0)
  }

  // The printer of the EDIF backend: digits are put in front of the text so far.
  method WriteHex(bits: Bits) returns (text: string)
    ensures text == PrintHex(bits)
  {
    var hex, i := "", 0;
    while i < |bits|
      invariant HexFrom(bits, i) + hex == HexFrom(bits, 0)
      decreases |bits| - i
    {
      var digit := 0;
      if i + 0 < |bits| && bits[i + 0] == S1 { digit := digit + 1; }
      if i + 1 < |bits| && bits[i + 1] == S1 { digit := digit + 2; }
      if i + 2 < |bits| && bits[i + 2] == S1 { digit := digit + 4; }
      if i + 3 < |bits| && bits[i + 3] == S1 { digit := digit + 8; }
      assert HexFrom(bits, i) + hex == HexFrom(bits, i + 4) + ([HEX_CHARS[digit]] + hex);
      hex := [HEX_CHARS[digit]] + hex;
      i := i + 4;
    }
    assert "" + hex == hex;
    text := Decimal(|bits|) + "'h" + hex;
  }

  lemma {:induction false} HexCharDigit(d: nat)
    requires d < 16
    ensures CharDigit(HEX_CHARS[d]) == [d] && !Blank(HEX_CHARS[d])
  {
  }

  // The digits of the printed text, and the bits they expand to: the bits that were
  // printed, with undefined ones turned into 0, then zeros up to a multiple of four.
  function Clean(b: Bit): Bit {
    if b == S1 then S1 else S0
  }

  function CleanAt(bits: Bits, i: nat): Bit {
    if i < |bits| then Clean(bits[i]) else S0
  }

  lemma {:induction false} NibbleBits(bits: Bits, i: nat, j: nat, caseType: char)
    requires j < 4
    ensures DigitBit(Nibble(bits, i), j, caseType) == CleanAt(bits, i + j)
  {
    var a, b, c, d := BitAt(bits, i), BitAt(bits, i + 1), BitAt(bits, i + 2), BitAt(bits, i + 3);
    assert Pow2(0) == 1 && Pow2(1) == 2 && Pow2(2) == 4 && Pow2(3) == 8;
  }

  // The bits from i on, cleaned, and then zeros.
  ghost predicate CleanFrom(p: Bits, bits: Bits, i: nat) {
    |p| >= |bits| - i && forall j | 0 <= j < |p| :: p[j] == CleanAt(bits, i + j)
  }

  lemma {:induction false} PrependNibble(p: Bits, bits: Bits, i: nat, caseType: char)
    requires CleanFrom(p, bits, i + 4)
    ensures CleanFrom(Expand(Nibble(bits, i), 4, caseType) + p, bits, i)
  {
    var e := Expand(Nibble(bits, i), 4, caseType);
    forall j | 0 <= j < |e + p| ensures (e + p)[j] == CleanAt(bits, i + j) {
      if j < 4 { NibbleBits(bits, i, j, caseType); }
      else { assert (e + p)[j] == p[j - 4] == CleanAt(bits, i + 4 + (j - 4)); }
    }
  }

  lemma {:induction false} HexExpands(bits: Bits, i: nat, caseType: char)
    ensures AllBelow(DigitsOf(HexFrom(bits, i)), 16)
    ensures CleanFrom(PowerBits(DigitsOf(HexFrom(bits, i)), 4, caseType), bits, i)
    decreases |bits| - i
  {
    if i < |bits| {
      HexExpands(bits, i + 4, caseType);
      HexStep(bits, i, caseType);
    }
  }

  lemma {:induction false} HexStep(bits: Bits, i: nat, caseType: char)
    requires i < |bits| && AllBelow(DigitsOf(HexFrom(bits, i + 4)), 16)
    requires CleanFrom(PowerBits(DigitsOf(HexFrom(bits, i + 4)), 4, caseType), bits, i + 4)
    ensures AllBelow(DigitsOf(HexFrom(bits, i)), 16)
    ensures CleanFrom(PowerBits(DigitsOf(HexFrom(bits, i)), 4, caseType), bits, i)
  {
    var s, d := HexFrom(bits, i + 4), Nibble(bits, i);
    assert HexFrom(bits, i) == s + [HEX_CHARS[d]];
    LastHexDigit(s, d, caseType);
    PrependNibble(PowerBits(DigitsOf(s), 4, caseType), bits, i, caseType);
  }

  lemma {:induction false} LastHexDigit(s: string, d: nat, caseType: char)
    requires d < 16
    ensures var t := s + [HEX_CHARS[d]];
            && DigitsOf(t) == DigitsOf(s) + [d]
            && PowerBits(DigitsOf(t), 4, caseType) == Expand(d, 4, caseType) + PowerBits(DigitsOf(s), 4, caseType)
  {
    var t := s + [HEX_CHARS[d]];
    HexCharDigit(d);
    assert t[..|t| - 1] == s;
    var ds := DigitsOf(s) + [d];
    assert ds[..|ds| - 1] == DigitsOf(s);
  }

  // One digit in lower case for every four bits.
  lemma {:induction false} HexShape(bits: Bits, i: nat)
    ensures |HexFrom(bits, i)| == if i < |bits| then (|bits| - i + 3) / 4 else 0
    ensures forall j | 0 <= j < |HexFrom(bits, i)| :: HexFrom(bits, i)[j] in "0123456789abcdef"
    decreases |bits| - i
  {
    if i < |bits| { HexShape(bits, i + 4); }
  }

  lemma {:induction false} NotBlank(s: string)
    requires forall i | 0 <= i < |s| :: !Blank(s[i])
    ensures Stripped(s) == s
  {
    if s != [] { NotBlank(s[1..]); }
  }

  lemma {:induction false} HexNotBlank(bits: Bits, i: nat)
    ensures forall j | 0 <= j < |HexFrom(bits, i)| :: !Blank(HexFrom(bits, i)[j])
    decreases |bits| - i
  {
    if i < |bits| {
      HexNotBlank(bits, i + 4);
      HexCharDigit(Nibble(bits, i));
    }
  }

  lemma {:induction false} PrefixIs(s: string, t: string)
    requires (forall i | 0 <= i < |s| :: IsDigit(s[i])) && t != [] && !IsDigit(t[0])
    ensures DigitPrefix(s + t) == |s|
  {
    if s == [] { assert s + t == t; }
    else {
      assert (s + t)[1..] == s[1..] + t;
      PrefixIs(s[1..], t);
    }
  }

  lemma {:induction false} ReadSize(size: nat, rest: string)
    requires 0 < size < 0x8000_0000 && rest != [] && !IsDigit(rest[0])
    ensures StrToL(Decimal(size) + rest) == (size, |Decimal(size)|)
  {
    var n := Decimal(size);
    var s := n + rest;
    assert s[0] == n[0] && s[0..] == s && s[0..0 + |n|] == n;
    PrefixIs(n, rest);
    DecimalValue(size);
  }

  // The constant made of the converted bits.
  function Unsigned(r: Result<Bits>): Result<Constant> {
    match r
    case Ok(bits) => Ok(Constant(bits, false, false))
    case Error => Error
  }

  lemma {:induction false} ReadBasedSized(base: char, digits: string, len: int, caseType: char)
    requires 0 < len < 0x8000_0000 && BaseOf(base) != 0
    ensures ReadBased([base] + digits, len, caseType) == Unsigned(StrToBin(digits, len, BaseOf(base), caseType, false))
  {
    var tail := [base] + digits;
    assert tail[1..] == digits;
    assert ToInt(len) == len;
  }

  lemma {:induction false} ReadLiteralSized(s: string, len: int, end: nat, caseType: char)
    requires Stripped(s) == s && StrToL(s) == (len, end) && 0 < end < |s| && s[end] == '\''
    ensures ReadLiteral(s, caseType) == ReadBased(s[end + 1..], len, caseType)
  {
  }

  lemma {:induction false} SizedNotBlank(size: nat, base: char, digits: string)
    requires BaseOf(base) != 0 && forall i | 0 <= i < |digits| :: !Blank(digits[i])
    ensures var s := Decimal(size) + (['\'', base] + digits); Stripped(s) == s
  {
    var n := Decimal(size);
    var s := n + (['\'', base] + digits);
    forall i | 0 <= i < |s| ensures !Blank(s[i]) {
      if i < |n| { assert IsDigit(n[i]) && s[i] == n[i]; }
      else if i >= |n| + 2 { assert s[i] == digits[i - |n| - 2]; }
    }
    NotBlank(s);
  }

  // A literal written with a decimal size is converted with that size.
  lemma {:induction false} SizedLiteral(size: nat, base: char, digits: string, caseType: char)
    requires 0 < size < 0x8000_0000 && BaseOf(base) != 0 && forall i | 0 <= i < |digits| :: !Blank(digits[i])
    ensures ReadLiteral(Decimal(size) + (['\'', base] + digits), caseType) ==
            Unsigned(StrToBin(digits, size, BaseOf(base), caseType, false))
  {
    SizedNotBlank(size, base, digits);
    SizedSplits(size, base, digits);
    ReadBasedSized(base, digits, size, caseType);
    ReadLiteralSized(Decimal(size) + (['\'', base] + digits), size, |Decimal(size)|, caseType);
  }

  lemma {:induction false} SizedSplits(size: nat, base: char, digits: string)
    requires 0 < size < 0x8000_0000
    ensures var s := Decimal(size) + (['\'', base] + digits);
            var end := |Decimal(size)|;
            StrToL(s) == (size, end) && 0 < end < |s| && s[end] == '\'' && s[end + 1..] == [base] + digits
  {
    ReadSize(size, ['\'', base] + digits);
  }

  function CleanBits(bits: Bits): (r: Bits)
    ensures |r| == |bits| && forall i | 0 <= i < |bits| :: r[i] == Clean(bits[i])
  {
    seq(|bits|, i requires 0 <= i < |bits| => Clean(bits[i]))
  }

  lemma {:induction false} RawHex(digits: seq<nat>, caseType: char)
    requires AllBelow(digits, 16)
    ensures RawBits(digits, 16, caseType) == Ok(PowerBits(digits, 4, caseType))
  {
  }

  lemma {:induction false} HexSized(bits: Bits, caseType: char)
    requires |bits| > 0
    ensures StrToBin(HexFrom(bits, 0), |bits|, 16, caseType, false) == Ok(CleanBits(bits))
  {
    HexExpands(bits, 0, caseType);
    var digits := DigitsOf(HexFrom(bits, 0));
    RawHex(digits, caseType);
    SizedClean(PowerBits(digits, 4, caseType), bits);
  }

  lemma {:induction false} SizedClean(raw: Bits, bits: Bits)
    requires |bits| > 0 && CleanFrom(raw, bits, 0)
    ensures Sized(raw, |bits|, false) == Ok(CleanBits(bits))
  {
    var r := raw[..|bits|];
    forall i | 0 <= i < |bits| ensures r[i] == CleanBits(bits)[i] {
      assert raw[i] == CleanAt(bits, 0 + i);
    }
    assert r == CleanBits(bits);
  }

  lemma {:induction false} PrintedShape(bits: Bits)
    ensures PrintHex(bits) == Decimal(|bits|) + (['\'', 'h'] + HexFrom(bits, 0))
  {
  }

  // Printing and reading undo each other exactly on constants without x and z bits; an x
  // or z bit comes back as 0.
  lemma {:induction false} HexRoundTrip(bits: Bits, caseType: char)
    requires 0 < |bits| < 0x8000_0000
    ensures ReadLiteral(PrintHex(bits), caseType) == Ok(Constant(CleanBits(bits), false, false))
    ensures ReadLiteral(PrintHex(bits), caseType) == Ok(Constant(bits, false, false)) <==> AllDefined(bits)
  {
    PrintedReads(bits, caseType);
    CleanIff(bits);
  }

  lemma {:induction false} CleanIff(bits: Bits)
    ensures CleanBits(bits) == bits <==> AllDefined(bits)
  {
    if CleanBits(bits) == bits {
      forall i | 0 <= i < |bits| ensures Defined(bits[i]) { assert bits[i] == CleanBits(bits)[i]; }
    }
  }

  lemma {:induction false} PrintedReads(bits: Bits, caseType: char)
    requires 0 < |bits| < 0x8000_0000
    ensures ReadLiteral(PrintHex(bits), caseType) == Ok(Constant(CleanBits(bits), false, false))
  {
    HexNotBlank(bits, 0);
    HexSized(bits, caseType);
    PrintedShape(bits);
    ReadHex(PrintHex(bits), |bits|, HexFrom(bits, 0), CleanBits(bits), caseType);
  }

  lemma {:induction false} ReadHex(text: string, size: nat, digits: string, bits: Bits, caseType: char)
    requires 0 < size < 0x8000_0000 && forall i | 0 <= i < |digits| :: !Blank(digits[i])
    requires text == Decimal(size) + (['\'', 'h'] + digits) && StrToBin(digits, size, 16, caseType, false) == Ok(bits)
    ensures ReadLiteral(text, caseType) == Ok(Constant(bits, false, false))
  {
    SizedLiteral(size, 'h', digits, caseType);
  }

  // A sized decimal literal denotes its number modulo the power of two.
  lemma {:induction false} SizedDecimal(size: nat, digits: string, caseType: char)
    requires 0 < size < 0x8000_0000 && digits != [] && forall i | 0 <= i < |digits| :: IsDigit(digits[i])
    ensures var r := ReadLiteral(Decimal(size) + "'d" + digits, caseType);
            r.Ok? && |r.value.bits| == size && AllDefined(r.value.bits) &&
            BitsValue(r.value.bits) == ValueOf(digits) % Pow2(size)
  {
    DigitTexts(digits);
    assert Decimal(size) + "'d" + digits == Decimal(size) + (['\'', 'd'] + digits);
    SizedLiteral(size, 'd', digits, caseType);
    DecimalBitsMean(DigitsOf(digits));
    SizedMeans(DecimalBits(DigitsOf(digits)), size);
  }

  lemma {:induction false} DigitTexts(s: string)
    requires forall i | 0 <= i < |s| :: IsDigit(s[i])
    ensures AllBelow(DigitsOf(s), 10) && |DigitsOf(s)| == |s| && DigitsValue(DigitsOf(s), 10) == ValueOf(s)
  {
    if s != [] {
      var init, ds := s[..|s| - 1], DigitsOf(s);
      DigitTexts(init);
      assert ds[..|ds| - 1] == DigitsOf(init);
    }
  }

  lemma {:induction false} AllDigits(s: string)
    requires forall i | 0 <= i < |s| :: IsDigit(s[i])
    ensures DigitPrefix(s) == |s| && Stripped(s) == s
  {
    if s != [] { AllDigits(s[1..]); }
  }

  lemma {:induction false} ReadPlain(digits: string, caseType: char)
    requires digits != [] && forall i | 0 <= i < |digits| :: IsDigit(digits[i])
    ensures StrToL(digits).1 == |digits| && Stripped(digits) == digits
  {
    AllDigits(digits);
    assert digits[0..] == digits && IsDigit(digits[0]);
  }

  // Without a size the bits are filled up to 32 and a 1 at the top gets a 0 above it.
  function Unsized(raw: Bits): Bits {
    KeepSign(if |raw| < 32 then Resize(raw, 32, S0) else raw, true)
  }

  lemma {:induction false} UnsizedMeans(raw: Bits)
    requires AllDefined(raw) && raw != [] && (raw[|raw| - 1] == S1 || raw == [S0])
    ensures var r := Unsized(raw);
            && AllDefined(r) && BitsValue(r) == BitsValue(raw) && |r| >= 32 && r[|r| - 1] == S0
            && (|r| > 32 ==> r[|r| - 2] == S1)
  {
    var zeros := Repeat(S0, if |raw| < 32 then 32 - |raw| else 1);
    assert Repeat(S0, 1) == [S0];
    assert Unsized(raw) == raw + zeros;
    ZeroBits(|zeros|);
    AppendValue(raw, zeros);
  }

  lemma {:induction false} PlainIsUnsized(digits: string, caseType: char)
    requires digits != [] && forall i | 0 <= i < |digits| :: IsDigit(digits[i])
    ensures ReadLiteral(digits, caseType) == Ok(Constant(Unsized(DecimalBits(DigitsOf(digits))), true, false))
  {
    ReadPlain(digits, caseType);
    DigitTexts(digits);
    DecimalBitsMean(DigitsOf(digits));
  }

  // A plain number is a signed constant that never reads as negative: at least 32 bits
  // with the value of its digits and a 0 on top, and longer only if the value needs it.
  lemma {:induction false} PlainNumber(digits: string, caseType: char)
    requires digits != [] && forall i | 0 <= i < |digits| :: IsDigit(digits[i])
    ensures var r := ReadLiteral(digits, caseType);
            && r.Ok? && r.value.signed && AllDefined(r.value.bits)
            && BitsValue(r.value.bits) == ValueOf(digits)
            && |r.value.bits| >= 32 && r.value.bits[|r.value.bits| - 1] == S0
            && (|r.value.bits| > 32 ==> r.value.bits[|r.value.bits| - 2] == S1)
  {
    PlainIsUnsized(digits, caseType);
    DigitTexts(digits);
    DecimalBitsMean(DigitsOf(digits));
    UnsizedMeans(DecimalBits(DigitsOf(digits)));
  }
}
