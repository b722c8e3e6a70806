// Writes to part of a memory word, mem[a][hi:lo] = v, become a write port with a data and
// an enable vector.
module SubwordWrites {
  import opened Arithmetic
  import opened BitVectors
  import opened LvalueShift

  // What a write port leaves in a word.
  function Merged(word: Bits, data: Bits, en: Bits): (r: Bits)
    requires |word| == |data| == |en|
    ensures |r| == |word|
  {
    seq(|word|, i requires 0 <= i < |word| => if en[i] then data[i] else word[i])
  }

  // A memory whose data range is [base + width - 1 : base].
  function Word(width: nat, base: int): Wire {
    Wire(width, base, false)
  }

  // ---------- constant ranges ----------

  // Below the value lie padding bits that are never enabled; the concatenation is unsigned.
  function ConstData(width: nat, padding: Bits, rhs: Bits): (r: Bits)
    ensures |r| == width
  {
    Extend(padding + rhs, width, false)
  }

  // The port for a constant range [left:right]. The source requires the range to start at
  // or above the data range, as the padding has offset bits.
  method ConstWrite(width: nat, base: int, left: int, right: int, padding: Bits, rhs: Bits) returns (data: Bits,
      en: Bits)
    requires left >= right >= base && |padding| == right - base
    ensures |data| == |en| == width && data == ConstData(width, padding, rhs)
    ensures forall i | 0 <= i < width :: en[i] <==> right <= base + i <= left
    ensures forall word: Bits | |word| == width ::
              Merged(word, data, en) == Updated(Word(width, base), word, right, left - right + 1, Extend(rhs, left - right + 1, false))
  {
    var offset := right;
    var n := left - offset + 1;
    offset := offset - base;
    data := ConstData(width, padding, rhs);
    en := [];
    for i := 0 to width
      invariant |en| == i && forall j | 0 <= j < i :: en[j] == (offset <= j < offset + n)
    {
      en := en + [offset <= i && i < offset + n];
    }
  }

  // ---------- variable ranges ----------

  // A left shift takes its amount as unsigned, in the width of the index expression.
  function Amount(idx: int, base: int, bits: nat): nat {
    (idx - base) % Pow2(bits)
  }

  function ShiftLeft(v: Bits, width: nat, signed: bool, amount: nat): (r: Bits)
    ensures |r| == width
  {
    var w := MaxNat(width, |v|);
    var x := Extend(v, w, signed);
    seq(width, i requires 0 <= i < width => BitAt(x, i - amount))
  }

  // The port for a range of n bits from a variable index.
  method DynamicWrite(width: nat, base: int, idx: int, bits: nat, n: nat, rhs: Bits, signed: bool) returns (data: Bits,
      en: Bits)
    ensures data == DynamicData(width, base, idx, bits, rhs, signed) && en == DynamicEnable(width, base, idx, bits, n)
    ensures base <= idx < base + Pow2(bits) ==>
              forall word: Bits | |word| == width :: Merged(word, data, en) == Updated(Word(width, base), word, idx, n, Extend(rhs, n, signed))
  {
    var amount := Amount(idx, base, bits);
    data := ShiftLeft(rhs, width, signed, amount);
    var setBits: Bits := [];
    for i := 0 to width
      invariant |setBits| == i && forall j | 0 <= j < i :: setBits[j] == (j < n)
    {
      setBits := setBits + [i < n];
    }
    assert setBits == Lowest(width, n);
    en := ShiftLeft(setBits, width, false, amount);
    if base <= idx < base + Pow2(bits) {
      forall word: Bits | |word| == width
        ensures Merged(word, data, en) == Updated(Word(width, base), word, idx, n, Extend(rhs, n, signed))
      {
        DynamicWriteExact(word, base, idx, bits, n, rhs, signed);
      }
    }
  }

  function Lowest(width: nat, n: nat): (r: Bits)
    ensures |r| == width
  {
    seq(width, i requires 0 <= i < width => i < n)
  }

  function DynamicData(width: nat, base: int, idx: int, bits: nat, rhs: Bits, signed: bool): (r: Bits)
    ensures |r| == width
  {
    ShiftLeft(rhs, width, signed, Amount(idx, base, bits))
  }

  function DynamicEnable(width: nat, base: int, idx: int, bits: nat, n: nat): (r: Bits)
    ensures |r| == width
  {
    ShiftLeft(Lowest(width, n), width, false, Amount(idx, base, bits))
  }

  lemma {:induction false} EnableAt(width: nat, base: int, idx: int, bits: nat, n: nat, p: nat)
    requires p < width
    ensures DynamicEnable(width, base, idx, bits, n)[p] <==> 0 <= p - Amount(idx, base, bits) < n
  {
    var x := Extend(Lowest(width, n), MaxNat(width, |Lowest(width, n)|), false);
    assert DynamicEnable(width, base, idx, bits, n)[p] == BitAt(x, p - Amount(idx, base, bits));
  }

  lemma {:induction false} DataAt(width: nat, base: int, idx: int, bits: nat, rhs: Bits, signed: bool, n: nat, p: nat)
    requires p < width && 0 <= p - Amount(idx, base, bits) < n
    ensures DynamicData(width, base, idx, bits, rhs, signed)[p] == Extend(rhs, n, signed)[p - Amount(idx, base, bits)]
  {
    var x := Extend(rhs, MaxNat(width, |rhs|), signed);
    assert DynamicData(width, base, idx, bits, rhs, signed)[p] == BitAt(x, p - Amount(idx, base, bits));
  }

  // At or above the data range, the shifts place exactly the selected bits, with the sign
  // of the value; bits past the top are dropped.
  lemma {:induction false} DynamicWriteExact(word: Bits, base: int, idx: int, bits: nat, n: nat, rhs: Bits,
      signed: bool)
    requires base <= idx < base + Pow2(bits)
    ensures Merged(word, DynamicData(|word|, base, idx, bits, rhs, signed), DynamicEnable(|word|, base, idx, bits, n)) ==
            Updated(Word(|word|, base), word, idx, n, Extend(rhs, n, signed))
  {
    var amount := Amount(idx, base, bits);
    assert amount == idx - base by { DivUnique(idx - base, Pow2(bits), 0, idx - base); }
    var data, en := DynamicData(|word|, base, idx, bits, rhs, signed), DynamicEnable(|word|, base, idx, bits, n);
    var a, b := Merged(word, data, en), Updated(Word(|word|, base), word, idx, n, Extend(rhs, n, signed));
    forall p | 0 <= p < |word| ensures a[p] == b[p] {
      EnableAt(|word|, base, idx, bits, n, p);
      if idx <= base + p < idx + n { DataAt(|word|, base, idx, bits, rhs, signed, n, p); }
    }
  }

  lemma {:induction false} WrappedAmount(idx: int, base: int, bits: nat)
    requires base - Pow2(bits) <= idx < base
    ensures Amount(idx, base, bits) == idx - base + Pow2(bits)
  {
    DivUnique(idx - base, Pow2(bits), -1, idx - base + Pow2(bits));
  }

  // Below the data range the amount wraps around. The write is then exact for all words
  // and values if and only if no selected bit exists and the shift clears all enables.
  lemma {:induction false} BelowRangeIff(width: nat, base: int, idx: int, bits: nat, n: nat)
    requires base - Pow2(bits) <= idx < base && n > 0 && width > 0
    ensures (forall word: Bits, rhs: Bits | |word| == width && |rhs| == n ::
               Merged(word, DynamicData(width, base, idx, bits, rhs, false), DynamicEnable(width, base, idx, bits, n)) ==
               Updated(Word(width, base), word, idx, n, rhs))
            <==> (idx + n <= base && idx - base + Pow2(bits) >= width)
  {
    WrappedAmount(idx, base, bits);
    var amount := Amount(idx, base, bits);
    var w := Word(width, base);
    if idx + n <= base && amount >= width {
      forall word: Bits, rhs: Bits | |word| == width && |rhs| == n
        ensures Merged(word, DynamicData(width, base, idx, bits, rhs, false), DynamicEnable(width, base, idx, bits, n)) ==
                Updated(w, word, idx, n, rhs)
      {
        assert Updated(w, word, idx, n, rhs) == word;
        NothingEnabled(word, base, idx, bits, n, rhs);
      }
    } else {
      BelowRangeWrong(width, base, idx, bits, n);
    }
  }

  lemma {:induction false} NothingEnabled(word: Bits, base: int, idx: int, bits: nat, n: nat, rhs: Bits)
    requires Amount(idx, base, bits) >= |word|
    ensures Merged(word, DynamicData(|word|, base, idx, bits, rhs, false), DynamicEnable(|word|, base, idx, bits, n)) == word
  {
    forall p | 0 <= p < |word| ensures !DynamicEnable(|word|, base, idx, bits, n)[p] { EnableAt(|word|, base, idx, bits, n, p); }
  }

  lemma {:induction false} BelowRangeWrong(width: nat, base: int, idx: int, bits: nat, n: nat)
    requires base - Pow2(bits) <= idx < base && n > 0 && width > 0
    requires idx + n > base || idx - base + Pow2(bits) < width
    ensures exists word: Bits, rhs: Bits :: |word| == width && |rhs| == n &&
              Merged(word, DynamicData(width, base, idx, bits, rhs, false), DynamicEnable(width, base, idx, bits, n)) !=
              Updated(Word(width, base), word, idx, n, rhs)
  {
    WrappedAmount(idx, base, bits);
    var amount, w := Amount(idx, base, bits), Word(width, base);
    if idx + n > base {
      var word, rhs := seq(width, i => false), seq(n, i => i == base - idx);
      assert rhs[base - idx];
      assert Updated(w, word, idx, n, rhs)[0];
      var en, data := DynamicEnable(width, base, idx, bits, n), DynamicData(width, base, idx, bits, rhs, false);
      EnableAt(width, base, idx, bits, n, 0);
      if en[0] { DataAt(width, base, idx, bits, rhs, false, n, 0); }
      assert !Merged(word, data, en)[0];
    } else {
      var word, rhs := Ones(width), seq(n, i => false);
      var en, data := DynamicEnable(width, base, idx, bits, n), DynamicData(width, base, idx, bits, rhs, false);
      EnableAt(width, base, idx, bits, n, amount);
      DataAt(width, base, idx, bits, rhs, false, n, amount);
      assert !Merged(word, data, en)[amount] && Updated(w, word, idx, n, rhs)[amount];
    }
  }

  // ---------- the two forms ----------

  // On a constant range the two forms write the same bits of every word if and only if the
  // value loses no sign bits in the concatenation.
  lemma {:induction false} FormsAgreeIff(word: Bits, base: int, left: int, right: int, bits: nat, padding: Bits,
      rhs: Bits, signed: bool)
    requires left >= right >= base && right < base + Pow2(bits) && |padding| == right - base
    ensures var n, width := left - right + 1, |word|;
            (forall p: nat | p < width && right <= base + p <= left ::
               ConstData(width, padding, rhs)[p] == DynamicData(width, base, right, bits, rhs, signed)[p])
            <==> !LosesSign(Word(width, base), right, n, rhs, signed)
  {
    var n, width := left - right + 1, |word|;
    var w, amount := Word(width, base), Amount(right, base, bits);
    assert amount == right - base by { DivUnique(right - base, Pow2(bits), 0, right - base); }
    var a, b := ConstData(width, padding, rhs), DynamicData(width, base, right, bits, rhs, signed);
    if LosesSign(w, right, n, rhs, signed) {
      var k: nat :| |rhs| <= k < n && 0 <= Position(w, right, n, k) < width;
      ConstDataAt(width, padding, rhs, n, amount + k);
      DataAt(width, base, right, bits, rhs, signed, n, amount + k);
      assert a[amount + k] != b[amount + k];
    } else {
      forall p: nat | p < width && right <= base + p <= left ensures a[p] == b[p] {
        ConstDataAt(width, padding, rhs, n, p);
        DataAt(width, base, right, bits, rhs, signed, n, p);
        assert Position(w, right, n, p - amount) == p;
      }
    }
  }

  lemma {:induction false} ConstDataAt(width: nat, padding: Bits, rhs: Bits, n: nat, p: nat)
    requires p < width && |padding| <= p < |padding| + n
    ensures ConstData(width, padding, rhs)[p] == Extend(rhs, n, false)[p - |padding|]
  {
  }
}
