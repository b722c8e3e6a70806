// What the texts of based literals mean, told from their characters: the number in the
// given base, bit by bit where there are x and z digits, and which texts are refused.
module LiteralTexts {
  import opened Arithmetic
  import opened Numerals
  import opened Literals

  // ---------- characters ----------

  // The value of a digit; 16 for a character that is none.
  function DigitOf(c: char): (d: nat)
    ensures d <= 16
  {
    if '0' <= c <= '9' then c as int - '0' as int
    else if 'a' <= c <= 'f' then c as int - 'a' as int + 10
    else if 'A' <= c <= 'F' then c as int - 'A' as int + 10
    else 16
  }

  predicate IsX(c: char) {
    c == 'x' || c == 'X'
  }

  predicate IsZ(c: char) {
    c == 'z' || c == 'Z' || c == '?'
  }

  // The digit code of a character.
  function CodeOf(c: char): nat {
    if IsX(c) then DIGIT_X else if IsZ(c) then DIGIT_Z else DigitOf(c)
  }

  // A digit of some base, or x, z or ?.
  predicate Literate(c: char) {
    DigitOf(c) < 16 || IsX(c) || IsZ(c)
  }

  // A text of digits of a base.
  predicate InBase(s: string, base: nat) {
    forall i | 0 <= i < |s| :: DigitOf(s[i]) < base
  }

  predicate AllLiterate(s: string) {
    forall i | 0 <= i < |s| :: Literate(s[i])
  }

  // The number that a text stands for in a base.
  function NumberOf(s: string, base: nat): nat {
    if s == "" then 0 else base * NumberOf(s[..|s| - 1], base) + DigitOf(s[|s| - 1])
  }

  predicate IsBase(c: char) {
    c in "bBoOdDhH"
  }

  function Radix(c: char): nat
    requires IsBase(c)
  {
    if c in "bB" then 2 else if c in "oO" then 8 else if c in "dD" then 10 else 16
  }

  predicate IsSign(sign: string) {
    sign == "" || sign == "s" || sign == "S"
  }

  // ---------- from characters to digits ----------

  lemma {:induction false} LastCharacter(s: string)
    requires s != "" && Literate(s[|s| - 1])
    ensures var ds, init := DigitsOf(s), DigitsOf(s[..|s| - 1]);
            && ds != [] && ds == init + [CodeOf(s[|s| - 1])] && ds[..|ds| - 1] == init
            && ds[|ds| - 1] == CodeOf(s[|s| - 1])
  {
  }

  lemma {:induction false} TextDigits(s: string, base: nat)
    requires base <= 16 && InBase(s, base)
    ensures AllBelow(DigitsOf(s), base) && |DigitsOf(s)| == |s| && DigitsValue(DigitsOf(s), base) == NumberOf(s, base)
  {
    if s != "" {
      var init, c := s[..|s| - 1], s[|s| - 1];
      assert DigitOf(c) < base && InBase(init, base);
      LastCharacter(s);
      TextDigits(init, base);
      DigitIsCode(c);
      OneMoreDigit(DigitsOf(init), DigitsOf(s), DigitOf(c), base);
    }
  }

  lemma {:induction false} DigitIsCode(c: char)
    requires DigitOf(c) < 16
    ensures CodeOf(c) == DigitOf(c) && Literate(c)
  {
  }

  lemma {:induction false} OneMoreDigit(init: seq<nat>, ds: seq<nat>, d: nat, base: nat)
    requires ds == init + [d] && AllBelow(init, base) && d < base
    ensures AllBelow(ds, base) && DigitsValue(ds, base) == base * DigitsValue(init, base) + d
  {
    assert ds[..|ds| - 1] == init;
  }

  lemma {:induction false} BasesAgree(c: char)
    requires IsBase(c)
    ensures BaseOf(c) == Radix(c)
  {
  }

  lemma {:induction false} RawMeans(s: string, base: nat, caseType: char)
    requires base in {2, 8, 10, 16} && InBase(s, base)
    ensures var r := RawBits(DigitsOf(s), base, caseType);
            r.Ok? && AllDefined(r.value) && BitsValue(r.value) == NumberOf(s, base)
  {
    TextDigits(s, base);
    var ds := DigitsOf(s);
    assert Pow2(1) == 2 && Pow2(2) == 4 && Pow2(3) == 8 && Pow2(4) == 16;
    if base == 10 {
      DecimalBitsMean(ds);
    } else {
      PowerBitsMean(ds, BitsPerDigit(base), caseType);
    }
  }

  // ---------- whole texts ----------

  function Tail(sign: string, base: char, digits: string): string {
    sign + [base] + digits
  }

  function SizedText(size: nat, sign: string, base: char, digits: string): string {
    Decimal(size) + "'" + Tail(sign, base, digits)
  }

  function UnsizedText(sign: string, base: char, digits: string): string {
    "'" + Tail(sign, base, digits)
  }

  // The constant that the converted bits become.
  function Made(r: Result<Bits>, isUnsized: bool, signed: bool): Result<Constant> {
    match r
    case Ok(bits) => Ok(Constant(KeepSign(bits, isUnsized && signed), signed, isUnsized))
    case Error => Error
  }

  lemma {:induction false} ReadTail(sign: string, base: char, digits: string, len: int, caseType: char)
    requires IsSign(sign) && IsBase(base)
    ensures ReadBased(Tail(sign, base, digits), len, caseType) ==
            Made(StrToBin(digits, ToInt(len), Radix(base), caseType, len < 0), len < 0, sign != "")
  {
    var s, rest := Tail(sign, base, digits), [base] + digits;
    BasesAgree(base);
    assert rest[1..] == digits && rest[0] == base;
    if sign == "" {
      assert s == rest;
    } else {
      assert s[0] == sign[0] && s[1..] == rest;
    }
  }

  lemma {:induction false} LiterateIsNotBlank(sign: string, base: char, digits: string)
    requires IsSign(sign) && IsBase(base) && AllLiterate(digits)
    ensures var s := Tail(sign, base, digits); forall i | 0 <= i < |s| :: !Blank(s[i])
  {
    var s := Tail(sign, base, digits);
    forall i | 0 <= i < |s| ensures !Blank(s[i]) {
      if i > |sign| { assert s[i] == digits[i - |sign| - 1]; }
      else if i == |sign| { assert s[i] == base; }
      else { assert s[i] == sign[i]; }
    }
  }

  lemma {:induction false} ReadSized(size: nat, sign: string, base: char, digits: string, caseType: char)
    requires 0 < size < 0x8000_0000 && IsSign(sign) && IsBase(base) && AllLiterate(digits)
    ensures ReadLiteral(SizedText(size, sign, base, digits), caseType) ==
            Made(StrToBin(digits, size, Radix(base), caseType, false), false, sign != "")
  {
    LiterateIsNotBlank(sign, base, digits);
    ReadWithSize(size, Tail(sign, base, digits), caseType);
    ReadTail(sign, base, digits, size, caseType);
    SmallInt(size);
  }

  const LONG_MAX := 0x7fff_ffff_ffff_ffff

  lemma {:induction false} SmallInt(n: int)
    requires -0x8000_0000 <= n < 0x8000_0000
    ensures ToInt(n) == n
  {
  }

  lemma {:induction false} ReadWithSize(size: nat, tail: string, caseType: char)
    requires size > 0 && forall i | 0 <= i < |tail| :: !Blank(tail[i])
    ensures ReadLiteral(Decimal(size) + "'" + tail, caseType) == ReadBased(tail, Min(size, LONG_MAX), caseType)
  {
    var n, rest := Decimal(size), ['\''] + tail;
    var s := n + "'" + tail;
    assert s == n + rest && s[|n|] == '\'' && s[|n| + 1..] == tail;
    SizeNotBlank(size, tail);
    LongSize(size, rest);
    ReadLiteralSized(s, Min(size, LONG_MAX), |n|, caseType);
  }

  lemma {:induction false} LongSize(size: nat, rest: string)
    requires size > 0 && rest != "" && !IsDigit(rest[0])
    ensures StrToL(Decimal(size) + rest) == (Min(size, LONG_MAX), |Decimal(size)|)
  {
    var n := Decimal(size);
    var s := n + rest;
    assert s[0] == n[0] && s[0..] == s && s[0..0 + |n|] == n;
    PrefixIs(n, rest);
    DecimalValue(size);
  }

  lemma {:induction false} SizeNotBlank(size: nat, tail: string)
    requires forall i | 0 <= i < |tail| :: !Blank(tail[i])
    ensures var s := Decimal(size) + "'" + tail; Stripped(s) == s
  {
    var n := Decimal(size);
    var s := n + "'" + tail;
    forall i | 0 <= i < |s| ensures !Blank(s[i]) {
      if i < |n| { assert IsDigit(n[i]) && s[i] == n[i]; }
      else if i > |n| { assert s[i] == tail[i - |n| - 1]; }
    }
    NotBlank(s);
  }

  lemma {:induction false} ReadUnsized(sign: string, base: char, digits: string, caseType: char)
    requires IsSign(sign) && IsBase(base) && AllLiterate(digits)
    ensures ReadLiteral(UnsizedText(sign, base, digits), caseType) ==
            Made(StrToBin(digits, -1, Radix(base), caseType, true), true, sign != "")
  {
    var s, tail := UnsizedText(sign, base, digits), Tail(sign, base, digits);
    LiterateIsNotBlank(sign, base, digits);
    forall i | 0 <= i < |s| ensures !Blank(s[i]) {
      if i > 0 { assert s[i] == tail[i - 1]; }
    }
    NotBlank(s);
    NoSize(tail, caseType);
    ReadTail(sign, base, digits, -1, caseType);
    SmallInt(-1);
  }

  // ---------- numbers ----------

  // A literal with a size denotes the number of its digits in its base, modulo the power
  // of two of its size.
  lemma {:induction false} SizedNumber(size: nat, sign: string, base: char, digits: string, caseType: char)
    requires 0 < size < 0x8000_0000 && IsSign(sign) && IsBase(base) && InBase(digits, Radix(base))
    ensures var r := ReadLiteral(SizedText(size, sign, base, digits), caseType);
            && r.Ok? && |r.value.bits| == size && AllDefined(r.value.bits)
            && BitsValue(r.value.bits) == NumberOf(digits, Radix(base)) % Pow2(size)
            && r.value.signed == (sign != "") && !r.value.isUnsized
  {
    ReadSized(size, sign, base, digits, caseType);
    RawMeans(digits, Radix(base), caseType);
    SizedMeans(RawBits(DigitsOf(digits), Radix(base), caseType).value, size);
  }

  // A literal without a size denotes its number in at least 32 bits; a signed one never
  // reads as negative.
  lemma {:induction false} UnsizedNumber(sign: string, base: char, digits: string, caseType: char)
    requires IsSign(sign) && IsBase(base) && InBase(digits, Radix(base))
    ensures var r := ReadLiteral(UnsizedText(sign, base, digits), caseType);
            && r.Ok? && |r.value.bits| >= 32 && AllDefined(r.value.bits)
            && BitsValue(r.value.bits) == NumberOf(digits, Radix(base))
            && r.value.signed == (sign != "") && r.value.isUnsized
            && (sign != "" ==> r.value.bits[|r.value.bits| - 1] == S0)
  {
    ReadUnsized(sign, base, digits, caseType);
    RawMeans(digits, Radix(base), caseType);
    MadeUnsized(RawBits(DigitsOf(digits), Radix(base), caseType).value, sign != "");
  }

  lemma {:induction false} MadeUnsized(raw: Bits, signed: bool)
    requires AllDefined(raw)
    ensures var r := Made(Sized(raw, -1, true), true, signed);
            && r.Ok? && |r.value.bits| >= 32 && AllDefined(r.value.bits) && BitsValue(r.value.bits) == BitsValue(raw)
            && r.value.signed == signed && r.value.isUnsized
            && (signed ==> r.value.bits[|r.value.bits| - 1] == S0)
  {
    FilledValue(raw);
    KeptValue(Sized(raw, -1, true).value, signed);
  }

  lemma {:induction false} FilledValue(raw: Bits)
    requires AllDefined(raw)
    ensures var r := Sized(raw, -1, true);
            r.Ok? && |r.value| >= 32 && AllDefined(r.value) && BitsValue(r.value) == BitsValue(raw)
  {
    if |raw| < 32 {
      ZeroBits(32 - |raw|);
      AppendValue(raw, Repeat(S0, 32 - |raw|));
    }
  }

  lemma {:induction false} KeptValue(bits: Bits, wanted: bool)
    requires bits != [] && AllDefined(bits)
    ensures var r := KeepSign(bits, wanted);
            && |r| >= |bits| && AllDefined(r) && BitsValue(r) == BitsValue(bits)
            && (wanted ==> r[|r| - 1] == S0)
  {
    assert [S0][1..] == [];
    AppendValue(bits, [S0]);
  }

  // ---------- x and z ----------

  function CharBit(c: char, i: nat, caseType: char): Bit {
    if IsX(c) then (if caseType == 'x' then Sa else Sx)
    else if IsZ(c) then (if caseType == 'x' || caseType == 'z' then Sa else Sz)
    else if (DigitOf(c) / Pow2(i)) % 2 == 1 then S1 else S0
  }

  function CharBits(c: char, k: nat, caseType: char): (r: Bits)
    ensures |r| == k
  {
    seq(k, i requires 0 <= i < k => CharBit(c, i, caseType))
  }

  // The bits of a digit in a base that is a power of two.
  function DigitWidth(base: nat): nat {
    if base == 2 then 1 else if base == 8 then 3 else 4
  }

  // The bits of a text, k for each character, the last character lowest.
  function TextBits(s: string, k: nat, caseType: char): Bits {
    if s == "" then [] else CharBits(s[|s| - 1], k, caseType) + TextBits(s[..|s| - 1], k, caseType)
  }

  // What stands above them: a first digit x or z is repeated.
  function Above(s: string, caseType: char): Bit {
    if s == "" || DigitOf(s[0]) < 16 then S0 else CharBit(s[0], 0, caseType)
  }

  lemma {:induction false} TextLength(s: string, k: nat, caseType: char)
    ensures |TextBits(s, k, caseType)| == k * |s|
  {
    if s != "" {
      TextLength(s[..|s| - 1], k, caseType);
      Distribute(k, |s| - 1, 1);
    }
  }

  // Bit i of the character with n characters after it is bit k * n + i of the text.
  lemma {:induction false} TextBitAt(s: string, k: nat, n: nat, i: nat, caseType: char)
    requires n < |s| && i < k
    ensures k * n + i < |TextBits(s, k, caseType)|
    ensures TextBits(s, k, caseType)[k * n + i] == CharBit(s[|s| - 1 - n], i, caseType)
  {
    var init := s[..|s| - 1];
    TextLength(s, k, caseType);
    if n > 0 {
      TextBitAt(init, k, n - 1, i, caseType);
      Distribute(k, n - 1, 1);
      assert init[|init| - 1 - (n - 1)] == s[|s| - 1 - n];
    } else {
      MulMono(k, 1, |s|);
    }
  }

  // Digits that the base allows, or x, z and ?.
  predicate Allowed(s: string, base: nat) {
    forall i | 0 <= i < |s| :: DigitOf(s[i]) < base || IsX(s[i]) || IsZ(s[i])
  }

  lemma {:induction false} TextCodes(s: string)
    requires AllLiterate(s)
    ensures |DigitsOf(s)| == |s| && forall i | 0 <= i < |s| :: DigitsOf(s)[i] == CodeOf(s[i])
  {
    if s != "" {
      var init := s[..|s| - 1];
      LastCharacter(s);
      TextCodes(init);
      forall i | 0 <= i < |s| - 1 ensures DigitsOf(s)[i] == DigitsOf(init)[i] && s[i] == init[i] {
        assert DigitsOf(s)[i] == DigitsOf(s)[..|s| - 1][i];
      }
    }
  }

  lemma {:induction false} CharExpands(c: char, k: nat, caseType: char)
    requires Literate(c)
    ensures Expand(CodeOf(c), k, caseType) == CharBits(c, k, caseType)
  {
  }

  lemma {:induction false} PowerIsText(s: string, k: nat, caseType: char)
    requires AllLiterate(s)
    ensures PowerBits(DigitsOf(s), k, caseType) == TextBits(s, k, caseType)
  {
    if s != "" {
      LastCharacter(s);
      CharExpands(s[|s| - 1], k, caseType);
      PowerIsText(s[..|s| - 1], k, caseType);
    }
  }

  lemma {:induction false} TextTop(s: string, k: nat, caseType: char)
    requires s != "" && k > 0
    ensures var p := TextBits(s, k, caseType); p != [] && p[|p| - 1] == CharBit(s[0], k - 1, caseType)
  {
    var init := s[..|s| - 1];
    if init != "" { TextTop(init, k, caseType); }
  }

  lemma {:induction false} FillIsAbove(s: string, k: nat, caseType: char)
    requires k > 0 && AllLiterate(s)
    ensures Fill(TextBits(s, k, caseType)) == Above(s, caseType)
  {
    if s != "" {
      TextTop(s, k, caseType);
      FillFrom(TextBits(s, k, caseType), s[0], k - 1, caseType);
    }
  }

  lemma {:induction false} FillFrom(p: Bits, c: char, i: nat, caseType: char)
    requires p != [] && p[|p| - 1] == CharBit(c, i, caseType) && Literate(c)
    ensures Fill(p) == if DigitOf(c) < 16 then S0 else CharBit(c, 0, caseType)
  {
  }

  // Binary, octal and hexadecimal literals with a size, bit by bit.
  lemma {:induction false} SizedBits(size: nat, sign: string, base: char, digits: string, caseType: char)
    requires 0 < size < 0x8000_0000 && IsSign(sign) && IsBase(base) && Radix(base) != 10
    requires Allowed(digits, Radix(base))
    ensures var r, text := ReadLiteral(SizedText(size, sign, base, digits), caseType),
                           TextBits(digits, DigitWidth(Radix(base)), caseType);
            && r.Ok? && |r.value.bits| == size
            && forall j | 0 <= j < size :: r.value.bits[j] == if j < |text| then text[j] else Above(digits, caseType)
  {
    var text := TextBits(digits, DigitWidth(Radix(base)), caseType);
    ReadSized(size, sign, base, digits, caseType);
    RawAllowed(digits, Radix(base), caseType);
    FillIsAbove(digits, DigitWidth(Radix(base)), caseType);
    SizedMeans(text, size);
  }

  // The same without a size: at least 32 bits, and a 0 above a 1 at the top if it is signed.
  lemma {:induction false} UnsizedBits(sign: string, base: char, digits: string, caseType: char)
    requires IsSign(sign) && IsBase(base) && Radix(base) != 10 && Allowed(digits, Radix(base))
    ensures var bits := AtLeast32(TextBits(digits, DigitWidth(Radix(base)), caseType), Above(digits, caseType));
            var top := bits[|bits| - 1];
            ReadLiteral(UnsizedText(sign, base, digits), caseType) ==
            Ok(Constant(if sign != "" && top == S1 then bits + [S0] else bits, sign != "", true))
  {
    var text := TextBits(digits, DigitWidth(Radix(base)), caseType);
    ReadUnsized(sign, base, digits, caseType);
    RawAllowed(digits, Radix(base), caseType);
    FillIsAbove(digits, DigitWidth(Radix(base)), caseType);
    MadeOfText(text, Above(digits, caseType), sign != "");
  }

  lemma {:induction false} MadeOfText(text: Bits, above: Bit, signed: bool)
    requires Fill(text) == above
    ensures var bits := AtLeast32(text, above);
            Made(Sized(text, -1, true), true, signed) ==
            Ok(Constant(if signed && bits[|bits| - 1] == S1 then bits + [S0] else bits, signed, true))
  {
    assert Sized(text, -1, true) == Ok(AtLeast32(text, above));
  }

  function AtLeast32(bits: Bits, above: Bit): (r: Bits)
    ensures |r| >= 32
  {
    if |bits| < 32 then bits + Repeat(above, 32 - |bits|) else bits
  }

  // A single x, z or ? in base 10 reads as it does in base 2.
  lemma {:induction false} DecimalUnknown(size: nat, sign: string, c: char, caseType: char)
    requires 0 < size < 0x8000_0000 && IsSign(sign) && (IsX(c) || IsZ(c))
    ensures ReadLiteral(SizedText(size, sign, 'd', [c]), caseType) == ReadLiteral(SizedText(size, sign, 'b', [c]), caseType)
    ensures ReadLiteral(UnsizedText(sign, 'd', [c]), caseType) == ReadLiteral(UnsizedText(sign, 'b', [c]), caseType)
  {
    ReadSized(size, sign, 'd', [c], caseType);
    ReadSized(size, sign, 'b', [c], caseType);
    UnknownInTwoBases(c, size, false, caseType);
    UnsizedUnknown(sign, c, caseType);
  }

  lemma {:induction false} UnsizedUnknown(sign: string, c: char, caseType: char)
    requires IsSign(sign) && (IsX(c) || IsZ(c))
    ensures ReadLiteral(UnsizedText(sign, 'd', [c]), caseType) == ReadLiteral(UnsizedText(sign, 'b', [c]), caseType)
  {
    ReadUnsized(sign, 'd', [c], caseType);
    ReadUnsized(sign, 'b', [c], caseType);
    UnknownInTwoBases(c, -1, true, caseType);
  }

  lemma {:induction false} UnknownInTwoBases(c: char, len: int, isUnsized: bool, caseType: char)
    requires IsX(c) || IsZ(c)
    ensures StrToBin([c], len, 10, caseType, isUnsized) == StrToBin([c], len, 2, caseType, isUnsized)
  {
    assert DigitsOf([c]) == [CodeOf(c)] by { assert [c][..0] == []; }
    RawUnknown(CodeOf(c), caseType);
  }

  lemma {:induction false} RawUnknown(d: nat, caseType: char)
    requires d >= DIGIT_X
    ensures RawBits([d], 10, caseType) == RawBits([d], 2, caseType)
  {
  }

  lemma {:induction false} RawAllowed(s: string, base: nat, caseType: char)
    requires base in {2, 8, 16} && AllLiterate(s)
    ensures RawBits(DigitsOf(s), base, caseType) ==
            if Allowed(s, base) then Ok(TextBits(s, DigitWidth(base), caseType)) else Error
  {
    PowerDigitsIff(s, base);
    RawPower(DigitsOf(s), base, caseType);
    PowerIsText(s, DigitWidth(base), caseType);
  }

  predicate PowerDigits(ds: seq<nat>, base: nat) {
    forall i | 0 <= i < |ds| :: ds[i] < base || ds[i] >= DIGIT_X
  }

  lemma {:induction false} RawPower(ds: seq<nat>, base: nat, caseType: char)
    requires base in {2, 8, 16}
    ensures RawBits(ds, base, caseType) ==
            if PowerDigits(ds, base) then Ok(PowerBits(ds, DigitWidth(base), caseType)) else Error
  {
  }

  lemma {:induction false} PowerDigitsIff(s: string, base: nat)
    requires base <= 16 && AllLiterate(s)
    ensures PowerDigits(DigitsOf(s), base) <==> Allowed(s, base)
  {
    TextCodes(s);
    var ds := DigitsOf(s);
    if PowerDigits(ds, base) {
      forall i | 0 <= i < |s| ensures DigitOf(s[i]) < base || IsX(s[i]) || IsZ(s[i]) {
        assert ds[i] < base || ds[i] >= DIGIT_X;
      }
    }
    if Allowed(s, base) {
      forall i | 0 <= i < |ds| ensures ds[i] < base || ds[i] >= DIGIT_X {
        assert DigitOf(s[i]) < base || IsX(s[i]) || IsZ(s[i]);
      }
    }
  }

  // ---------- large sizes ----------

  // The size of a literal is read as a long, and passed on as an int.
  function SizeRead(size: nat): int {
    ToInt(Min(size, LONG_MAX))
  }

  lemma {:induction false} ReadAnySize(size: nat, sign: string, base: char, digits: string, caseType: char)
    requires size > 0 && IsSign(sign) && IsBase(base) && AllLiterate(digits)
    ensures ReadLiteral(SizedText(size, sign, base, digits), caseType) ==
            Made(StrToBin(digits, SizeRead(size), Radix(base), caseType, false), false, sign != "")
  {
    LiterateIsNotBlank(sign, base, digits);
    ReadWithSize(size, Tail(sign, base, digits), caseType);
    ReadTail(sign, base, digits, Min(size, LONG_MAX), caseType);
  }

  // A binary, octal or hexadecimal text has the size that is written exactly when that is
  // below 2^31; the text itself is shorter than that.
  lemma {:induction false} SizeObeyedIff(size: nat, sign: string, base: char, digits: string, caseType: char)
    requires size > 0 && IsSign(sign) && IsBase(base) && Radix(base) != 10
    requires Allowed(digits, Radix(base)) && 4 * |digits| < 0x8000_0000
    ensures var r := ReadLiteral(SizedText(size, sign, base, digits), caseType);
            r.Ok? && |r.value.bits| == size <==> size < 0x8000_0000
  {
    var k := DigitWidth(Radix(base));
    var text := TextBits(digits, k, caseType);
    ReadAnySize(size, sign, base, digits, caseType);
    RawAllowed(digits, Radix(base), caseType);
    TextLength(digits, k, caseType);
    assert |text| < 0x8000_0000;
    SizeReadIff(size);
    SizedLength(text, SizeRead(size));
  }

  lemma {:induction false} SizeReadIff(size: nat)
    ensures SizeRead(size) == size <==> size < 0x8000_0000
    ensures SizeRead(size) < 0x8000_0000
  {
  }

  lemma {:induction false} SizedLength(bits: Bits, len: int)
    ensures var r := Sized(bits, len, false);
            && (r.Ok? <==> len != 0)
            && (r.Ok? ==> |r.value| == if len > 0 then len else if |bits| < 32 then 32 else |bits|)
  {
  }

  // ---------- errors ----------

  // Which digits a base accepts: in base 10 only decimal ones, or one x, z or ? alone.
  predicate Accepted(s: string, base: nat) {
    if base == 10 then InBase(s, 10) || (|s| == 1 && (IsX(s[0]) || IsZ(s[0]))) else Allowed(s, base)
  }

  lemma {:induction false} RawOkIff(s: string, base: nat, caseType: char)
    requires base in {2, 8, 10, 16} && AllLiterate(s)
    ensures RawBits(DigitsOf(s), base, caseType).Ok? <==> Accepted(s, base)
  {
    TextCodes(s);
    var ds := DigitsOf(s);
    if base != 10 {
      RawAllowed(s, base, caseType);
    } else if |s| == 1 && (IsX(s[0]) || IsZ(s[0])) {
      RawAllowed(s, 2, caseType);
      assert RawBits(ds, 10, caseType) == RawBits(ds, 2, caseType);
    } else {
      if AllBelow(ds, 10) {
        forall i | 0 <= i < |s| ensures DigitOf(s[i]) < 10 { assert ds[i] < 10; }
      } else {
        var i :| 0 <= i < |ds| && ds[i] >= 10;
        assert DigitOf(s[i]) >= 10;
      }
    }
  }

  // A literal over the characters of literals is accepted exactly when its base accepts
  // its digits, with or without a size.
  lemma {:induction false} AcceptedIff(size: nat, sign: string, base: char, digits: string, caseType: char)
    requires 0 < size < 0x8000_0000 && IsSign(sign) && IsBase(base) && AllLiterate(digits)
    ensures ReadLiteral(SizedText(size, sign, base, digits), caseType).Ok? <==> Accepted(digits, Radix(base))
    ensures ReadLiteral(UnsizedText(sign, base, digits), caseType).Ok? <==> Accepted(digits, Radix(base))
  {
    ReadSized(size, sign, base, digits, caseType);
    ReadUnsized(sign, base, digits, caseType);
    RawOkIff(digits, Radix(base), caseType);
  }

  // ---------- blanks and single bits ----------

  lemma {:induction false} StrippedAppend(a: string, b: string)
    ensures Stripped(a + b) == Stripped(a) + Stripped(b)
  {
    if a == "" {
      assert a + b == b;
    } else {
      assert (a + b)[1..] == a[1..] + b;
      StrippedAppend(a[1..], b);
    }
  }

  // Underscores and white space do not matter, wherever they stand.
  lemma {:induction false} BlanksDoNotMatter(a: string, c: char, b: string, caseType: char)
    requires c in "_ \t\r\n"
    ensures ReadLiteral(a + [c] + b, caseType) == ReadLiteral(a + b, caseType)
  {
    StrippedAppend(a + [c], b);
    StrippedAppend(a, [c]);
    StrippedAppend(a, b);
    BlankAlone(c);
    assert Stripped(a) + [] == Stripped(a);
    SameStripped(a + [c] + b, a + b, caseType);
  }

  lemma {:induction false} BlankAlone(c: char)
    requires c in "_ \t\r\n"
    ensures Stripped([c]) == []
  {
    assert [c][1..] == [];
  }

  lemma {:induction false} SameStripped(a: string, b: string, caseType: char)
    requires Stripped(a) == Stripped(b)
    ensures ReadLiteral(a, caseType) == ReadLiteral(b, caseType)
  {
  }

  // '0, '1, 'x and 'z are single bits without a size.
  lemma {:induction false} SingleBit(c: char, caseType: char)
    requires c in "01xXzZ"
    ensures ReadLiteral("'" + [c], caseType) == Ok(Constant([CharBit(c, 0, caseType)], false, true))
  {
    var s, t := "'" + [c], [c];
    assert s[0] == '\'' && s[1..] == t && s[0..] == s;
    NotBlank(s);
    NoSize(t, caseType);
    OneBit(c, caseType);
    BitTail(c, caseType);
  }

  lemma {:induction false} NoSize(tail: string, caseType: char)
    requires Stripped("'" + tail) == "'" + tail
    ensures ReadLiteral("'" + tail, caseType) == ReadBased(tail, -1, caseType)
  {
    var s := "'" + tail;
    assert s[0] == '\'' && s[1..] == tail && s[0..] == s;
    assert StrToL(s) == (0, 0);
  }

  lemma {:induction false} BitTail(c: char, caseType: char)
    requires c in "01xXzZ"
    ensures var r := StrToBin([c], 1, 2, caseType, true);
            ReadBased([c], -1, caseType) == if r.Ok? then Ok(Constant(r.value, false, true)) else Error
  {
    NoBase(c);
    assert [c][0] == c;
  }

  lemma {:induction false} NoBase(c: char)
    requires c in "01xXzZ"
    ensures BaseOf(c) == 0 && UnsizedBit(c) && c != 's' && c != 'S'
  {
  }

  lemma {:induction false} OneBit(c: char, caseType: char)
    requires c in "01xXzZ"
    ensures StrToBin([c], 1, 2, caseType, true) == Ok([CharBit(c, 0, caseType)])
  {
    BitDigit(c);
    RawAllowed([c], 2, caseType);
    var bits := [CharBit(c, 0, caseType)];
    assert TextBits([c], 1, caseType) == bits by { assert [c][..0] == "" && TextBits("", 1, caseType) == []; }
    assert bits[..1] == bits && Sized(bits, 1, true) == Ok(bits);
  }

  lemma {:induction false} BitDigit(c: char)
    requires c in "01xXzZ"
    ensures DigitOf(c) < 2 || IsX(c) || IsZ(c)
  {
  }
}
