// Flattening of multidimensional selects. Three places in the source turn an index tuple
// into a bit position or a memory address; all are row-major in the order of dimensions of
// section 7.4.5 of IEEE 1800-2017, but only one of them counts ascending dimensions from
// their declared right end.
module Dimensions {
  import opened Wrappers
  import opened Arithmetic

  // One dimension: its lowest declared index, its number of elements, and whether it was
  // declared in ascending order, as in [0:7].
  datatype Dim = Dim(low: int, width: nat, swapped: bool)

  // The number of elements of an array with these dimensions, the first one outermost.
  function Size(dims: seq<Dim>): nat {
    if dims == [] then 1 else dims[0].width * Size(dims[1..])
  }

  predicate Positive(dims: seq<Dim>) {
    forall i | 0 <= i < |dims| :: dims[i].width > 0
  }

  predicate InDim(d: Dim, i: int) {
    d.low <= i < d.low + d.width
  }

  // The indices select in this many leading dimensions, each within its bounds.
  predicate InRange(dims: seq<Dim>, idx: seq<int>) {
    |idx| <= |dims| && forall i | 0 <= i < |idx| :: InDim(dims[i], idx[i])
  }

  // The position of an index within its dimension.
  function Local(d: Dim, i: int): int {
    if d.swapped then d.width - 1 - (i - d.low) else i - d.low
  }

  // The number of the element that a full tuple of indices denotes.
  function RowMajor(dims: seq<Dim>, idx: seq<int>): int
    requires |dims| == |idx|
  {
    if dims == [] then 0 else Local(dims[0], idx[0]) * Size(dims[1..]) + RowMajor(dims[1..], idx[1..])
  }

  // The same dimensions, all in descending order.
  function Plain(dims: seq<Dim>): (r: seq<Dim>)
    ensures |r| == |dims| && forall i | 0 <= i < |dims| :: r[i] == Dim(dims[i].low, dims[i].width, false)
  {
    seq(|dims|, i requires 0 <= i < |dims| => Dim(dims[i].low, dims[i].width, false))
  }

  lemma {:induction false} SizePositive(dims: seq<Dim>)
    requires Positive(dims)
    ensures Size(dims) >= 1
  {
    if dims != [] {
      SizePositive(dims[1..]);
      MulGrows(dims[0].width, Size(dims[1..]));
    }
  }

  lemma {:induction false} SizeAppend(a: seq<Dim>, b: seq<Dim>)
    ensures Size(a + b) == Size(a) * Size(b)
  {
    if a == [] {
      assert a + b == b;
    } else {
      assert (a + b)[1..] == a[1..] + b;
      SizeAppend(a[1..], b);
      Associate(a[0].width, Size(a[1..]), Size(b));
    }
  }

  lemma {:induction false} SizePlain(dims: seq<Dim>)
    ensures Size(Plain(dims)) == Size(dims)
  {
    if dims != [] {
      assert Plain(dims)[1..] == Plain(dims[1..]);
      SizePlain(dims[1..]);
    }
  }

  // ---------- one-to-one onto an interval ----------

  lemma {:induction false} RowMajorBounds(dims: seq<Dim>, idx: seq<int>)
    requires |idx| == |dims| && InRange(dims, idx)
    ensures 0 <= RowMajor(dims, idx) < Size(dims)
  {
    if dims != [] {
      assert InRange(dims[1..], idx[1..]);
      RowMajorBounds(dims[1..], idx[1..]);
      MixedRadix(Local(dims[0], idx[0]), dims[0].width, RowMajor(dims[1..], idx[1..]), Size(dims[1..]));
    }
  }

  lemma {:induction false} SameParts(s: nat, q: int, r: int, q': int, r': int)
    requires 0 <= r < s && 0 <= r' < s && q * s + r == q' * s + r'
    ensures q == q' && r == r'
  {
    assert q * s == s * q && q' * s == s * q';
    DivUnique(q * s + r, s, q, r);
    DivUnique(q * s + r, s, q', r');
  }

  // Different tuples denote different elements.
  lemma {:induction false} RowMajorInjective(dims: seq<Dim>, a: seq<int>, b: seq<int>)
    requires |a| == |b| == |dims| && InRange(dims, a) && InRange(dims, b)
    requires RowMajor(dims, a) == RowMajor(dims, b)
    ensures a == b
  {
    if dims != [] {
      var s := Size(dims[1..]);
      assert InRange(dims[1..], a[1..]) && InRange(dims[1..], b[1..]);
      RowMajorBounds(dims[1..], a[1..]);
      RowMajorBounds(dims[1..], b[1..]);
      SameParts(s, Local(dims[0], a[0]), RowMajor(dims[1..], a[1..]), Local(dims[0], b[0]), RowMajor(dims[1..], b[1..]));
      RowMajorInjective(dims[1..], a[1..], b[1..]);
      assert a == [a[0]] + a[1..] && b == [b[0]] + b[1..];
    }
  }

  // Every element is denoted by a tuple.
  function Unflatten(dims: seq<Dim>, n: int): (idx: seq<int>)
    ensures |idx| == |dims|
  {
    if dims == [] then []
    else
      var s := Size(dims[1..]);
      var q, r := if s == 0 then 0 else n / s, if s == 0 then 0 else n % s;
      [dims[0].low + if dims[0].swapped then dims[0].width - 1 - q else q] + Unflatten(dims[1..], r)
  }

  lemma {:induction false} RowMajorOnto(dims: seq<Dim>, n: int)
    requires Positive(dims) && 0 <= n < Size(dims)
    ensures InRange(dims, Unflatten(dims, n)) && RowMajor(dims, Unflatten(dims, n)) == n
  {
    if dims != [] {
      var s := Size(dims[1..]);
      SizePositive(dims[1..]);
      DivBounds(n, s);
      var q := n / s;
      assert dims[0].width * s == s * dims[0].width;
      if q >= dims[0].width { MulMono(s, dims[0].width, q); }
      RowMajorOnto(dims[1..], n % s);
      assert Unflatten(dims, n)[1..] == Unflatten(dims[1..], n % s);
      assert Local(dims[0], Unflatten(dims, n)[0]) == q;
      assert q * s == s * q;
    }
  }

  // The elements below a partial tuple are a contiguous block: the tuple's own number in
  // the leading dimensions counts blocks of the size of the remaining ones.
  lemma {:induction false} RowMajorSplits(a: seq<Dim>, b: seq<Dim>, idx: seq<int>, rest: seq<int>)
    requires |a| == |idx| && |b| == |rest|
    ensures RowMajor(a + b, idx + rest) == RowMajor(a, idx) * Size(b) + RowMajor(b, rest)
  {
    if a == [] {
      assert a + b == b && idx + rest == rest;
    } else {
      assert (a + b)[1..] == a[1..] + b && (idx + rest)[1..] == idx[1..] + rest;
      RowMajorSplits(a[1..], b, idx[1..], rest);
      SizeAppend(a[1..], b);
      Regroup(Local(a[0], idx[0]), Size(a[1..]), RowMajor(a[1..], idx[1..]), Size(b), RowMajor(b, rest));
    }
  }

  lemma {:induction false} Regroup(l: int, s: int, r: int, t: int, rest: int)
    ensures l * (s * t) + (r * t + rest) == (l * s + r) * t + rest
  {
    Associate(l, s, t);
    Distribute(t, l * s, r);
  }

  // The completion of a partial tuple by rest denotes element n.
  predicate Completes(dims: seq<Dim>, idx: seq<int>, rest: seq<int>, n: int) {
    |idx| + |rest| == |dims| && InRange(dims, idx + rest) && RowMajor(dims, idx + rest) == n
  }

  lemma {:induction false} InRangeAppend(a: seq<Dim>, b: seq<Dim>, idx: seq<int>, rest: seq<int>)
    requires |a| == |idx| && |b| == |rest|
    ensures InRange(a + b, idx + rest) <==> InRange(a, idx) && InRange(b, rest)
  {
    var d, i := a + b, idx + rest;
    assert forall k | 0 <= k < |a| :: d[k] == a[k] && i[k] == idx[k];
    assert forall k | 0 <= k < |b| :: d[|a| + k] == b[k] && i[|a| + k] == rest[k];
    if InRange(a, idx) && InRange(b, rest) {
      forall k | 0 <= k < |i| ensures InDim(d[k], i[k]) {
        if k >= |a| { assert InDim(b[k - |a|], rest[k - |a|]); }
      }
    }
  }

  lemma {:induction false} CompletionInBlock(a: seq<Dim>, b: seq<Dim>, idx: seq<int>, rest: seq<int>, n: int)
    requires |a| == |idx| && Completes(a + b, idx, rest, n)
    ensures RowMajor(a, idx) * Size(b) <= n < RowMajor(a, idx) * Size(b) + Size(b)
  {
    InRangeAppend(a, b, idx, rest);
    RowMajorSplits(a, b, idx, rest);
    RowMajorBounds(b, rest);
  }

  lemma {:induction false} BlockHasCompletion(a: seq<Dim>, b: seq<Dim>, idx: seq<int>, n: int)
    requires |a| == |idx| && InRange(a, idx) && Positive(b)
    requires RowMajor(a, idx) * Size(b) <= n < RowMajor(a, idx) * Size(b) + Size(b)
    ensures exists rest :: Completes(a + b, idx, rest, n)
  {
    var m := n - RowMajor(a, idx) * Size(b);
    var rest := Unflatten(b, m);
    RowMajorOnto(b, m);
    RowMajorSplits(a, b, idx, rest);
    InRangeAppend(a, b, idx, rest);
    assert Completes(a + b, idx, rest, n);
  }

  // A tuple for the leading dimensions a denotes exactly the elements of its block: those
  // that some completion of the tuple denotes.
  lemma {:induction false} PartialIndexIsBlock(a: seq<Dim>, b: seq<Dim>, idx: seq<int>, n: int)
    requires |a| == |idx| && InRange(a, idx) && Positive(b)
    ensures RowMajor(a, idx) * Size(b) <= n < RowMajor(a, idx) * Size(b) + Size(b) <==>
            exists rest :: Completes(a + b, idx, rest, n)
  {
    if RowMajor(a, idx) * Size(b) <= n < RowMajor(a, idx) * Size(b) + Size(b) {
      BlockHasCompletion(a, b, idx, n);
    }
    forall rest | Completes(a + b, idx, rest, n) { CompletionInBlock(a, b, idx, rest, n); }
  }

  // ---------- ascending dimensions taken as descending ----------

  // Every index into an ascending dimension is the middle one.
  predicate Centred(dims: seq<Dim>, idx: seq<int>)
    requires |dims| == |idx|
  {
    forall i | 0 <= i < |dims| :: dims[i].swapped ==> 2 * (idx[i] - dims[i].low) == dims[i].width - 1
  }

  lemma {:induction false} PlainInRange(dims: seq<Dim>, idx: seq<int>)
    ensures InRange(Plain(dims), idx) <==> InRange(dims, idx)
  {
    forall i | 0 <= i < |idx| && |idx| <= |dims| ensures InDim(Plain(dims)[i], idx[i]) <==> InDim(dims[i], idx[i]) {
    }
  }

  // Ignoring the direction of the dimensions gives the declared element exactly when no
  // index into an ascending dimension is off its middle.
  lemma {:induction false} DirectionIff(dims: seq<Dim>, idx: seq<int>)
    requires |idx| == |dims| && InRange(dims, idx)
    ensures RowMajor(Plain(dims), idx) == RowMajor(dims, idx) <==> Centred(dims, idx)
  {
    if dims != [] {
      var p := Plain(dims);
      assert p[1..] == Plain(dims[1..]) && InRange(dims[1..], idx[1..]);
      DirectionIff(dims[1..], idx[1..]);
      PlainInRange(dims[1..], idx[1..]);
      RowMajorBounds(dims[1..], idx[1..]);
      RowMajorBounds(p[1..], idx[1..]);
      SizePlain(dims[1..]);
      if RowMajor(p, idx) == RowMajor(dims, idx) {
        SameParts(Size(dims[1..]), Local(p[0], idx[0]), RowMajor(p[1..], idx[1..]), Local(dims[0], idx[0]), RowMajor(dims[1..], idx[1..]));
      }
      CentredTail(dims, idx);
    }
  }

  lemma {:induction false} CentredTail(dims: seq<Dim>, idx: seq<int>)
    requires |idx| == |dims| > 0
    ensures Centred(dims, idx) <==>
            (dims[0].swapped ==> 2 * (idx[0] - dims[0].low) == dims[0].width - 1) && Centred(dims[1..], idx[1..])
  {
    assert forall i | 1 <= i < |dims| :: dims[i] == dims[1..][i - 1] && idx[i] == idx[1..][i - 1];
    assert forall i | 0 <= i < |dims| - 1 :: dims[1..][i] == dims[i + 1] && idx[1..][i] == idx[i + 1];
  }

  // The numbering without directions is one-to-one as well, so that a memory, whose
  // elements are found by their address alone, is only renumbered.
  lemma {:induction false} RenumberingIsInjective(dims: seq<Dim>, a: seq<int>, b: seq<int>)
    requires |a| == |b| == |dims| && InRange(dims, a) && InRange(dims, b)
    ensures 0 <= RowMajor(Plain(dims), a) < Size(dims)
    ensures RowMajor(Plain(dims), a) == RowMajor(Plain(dims), b) <==> a == b
  {
    PlainInRange(dims, a);
    PlainInRange(dims, b);
    SizePlain(dims);
    RowMajorBounds(Plain(dims), a);
    if RowMajor(Plain(dims), a) == RowMajor(Plain(dims), b) { RowMajorInjective(Plain(dims), a, b); }
  }

  // ---------- the Horner fold of memory accesses ----------

  // The address expression that replaces a multidimensional memory access; the first
  // |dims| indices are used, and ascending dimensions are treated like descending ones.
  method MemoryAddress(dims: seq<Dim>, indices: seq<int>) returns (address: int)
    requires 0 < |dims| <= |indices|
    ensures address == RowMajor(Plain(dims), indices[..|dims|])
  {
    address := 0;
    var p := Plain(dims);
    for i := 0 to |dims|
      invariant i > 0 ==> address == RowMajor(p[..i], indices[..i])
    {
      var index := if dims[i].low != 0 then indices[i] - dims[i].low else indices[i];
      ghost var before := address;
      if i == 0 {
        address := index;
      } else {
        address := address * dims[i].width + index;
      }
      assert p[..i + 1] == p[..i] + [p[i]] && indices[..i + 1] == indices[..i] + [indices[i]];
      RowMajorSplits(p[..i], [p[i]], indices[..i], [indices[i]]);
      OneDim(p[i], indices[i]);
    }
    assert p[..|dims|] == p;
  }

  lemma {:induction false} OneDim(d: Dim, i: int)
    ensures Size([d]) == d.width && RowMajor([d], [i]) == Local(d, i)
  {
    assert [d][1..] == [] && [i][1..] == [];
    assert Size([]) == 1 && d.width * 1 == d.width && Local(d, i) * 1 == Local(d, i);
  }

  // ---------- the strides of wire accesses ----------

  // Element sizes from successive division of the size of the wire (convert_range).
  function Strides(dims: seq<Dim>, size: int): (r: seq<int>)
    requires Positive(dims)
    ensures |r| == |dims|
  {
    if dims == [] then [] else [size / dims[0].width] + Strides(dims[1..], size / dims[0].width)
  }

  // A stride is the size of the dimensions inside it.
  lemma {:induction false} StrideIsInnerSize(dims: seq<Dim>, inner: nat, i: nat)
    requires Positive(dims) && i < |dims|
    ensures Strides(dims, Size(dims) * inner)[i] == Size(dims[i + 1..]) * inner
  {
    var w, s := dims[0].width, Size(dims[1..]);
    Associate(w, s, inner);
    DivUnique(Size(dims) * inner, w, s * inner, 0);
    if i > 0 {
      StrideIsInnerSize(dims[1..], inner, i - 1);
      assert dims[1..][i..] == dims[i + 1..];
    }
  }

  // One select: a single index, or the two bounds of a part select.
  datatype Select = Select(left: int, right: int)

  function Rights(selects: seq<Select>): (r: seq<int>)
    ensures |r| == |selects|
  {
    seq(|selects|, i requires 0 <= i < |selects| => selects[i].right)
  }

  function SumRights(selects: seq<Select>): int {
    if selects == [] then 0 else SumRights(selects[..|selects| - 1]) + selects[|selects| - 1].right
  }

  // Turns a select into dimensions, given outermost first, of a wire whose elements are
  // inner bits wide into a bit range. Only the last select may have two bounds. Selects
  // beyond the dimensions are scaled by the first stride. Without dimensions the range is
  // the whole wire; with dimensions and no select there is none.
  method ConvertRange(dims: seq<Dim>, inner: nat, selects: seq<Select>) returns (range: Option<Select>)
    requires Positive(dims)
    requires forall i | 0 <= i < |selects| - 1 :: selects[i].left == selects[i].right
    ensures dims == [] ==> range == Some(Select(inner - 1, 0))
    ensures dims != [] ==> (range.Some? <==> selects != [])
    ensures dims != [] && selects != [] ==>
              var k := |selects|;
              var n := if k < |dims| then k else |dims|;
              var block := if k <= |dims| then Block(dims, inner, k) else Block(dims, inner, 1);
              && range.value.right == RightOf(dims, inner, selects, n) + SumRights(selects[n..]) * Block(dims, inner, 1)
              && range.value.left - range.value.right + 1 == (selects[k - 1].left - selects[k - 1].right + 1) * block
  {
    var singleElemSize := ElementSizes(dims, Size(dims) * inner);
    if |singleElemSize| == 0 {
      return Some(Select(Size(dims) * inner - 1, 0));
    }
    range := None;
    var left, right := 0, 0;
    StrideIsInnerSize(dims, inner, 0);
    for j := 0 to |selects|
      invariant range == if j == 0 then None else Some(Select(left, right))
      invariant right == RightUpTo(dims, inner, selects, j)
      invariant j > 0 ==> left - right + 1 == (selects[j - 1].left - selects[j - 1].right + 1) * Block(dims, inner, if j <= |dims| then j else 1)
    {
      var l, r := selects[j].left, selects[j].right;
      if j < |dims| && dims[j].low != 0 {
        l, r := l - dims[j].low, r - dims[j].low;
      }
      var e := singleElemSize[if j < |dims| then j else 0];
      if j < |dims| { StrideIsInnerSize(dims, inner, j); }
      StepUpTo(dims, inner, selects, j);
      SpanWidth(l, r, e);
      var part := r * e;
      var span := (l + 1) * e - part - 1;
      right := right + part;
      left := right + span;
      range := Some(Select(left, right));
    }
    assert selects[..|selects|] == selects;
    assert |selects| <= |dims| ==> selects[|selects|..] == [];
  }

  // The position that the first j selects add up to.
  function RightUpTo(dims: seq<Dim>, inner: nat, selects: seq<Select>, j: nat): int
    requires j <= |selects| && dims != []
  {
    if j <= |dims| then RightOf(dims, inner, selects, j)
    else RightOf(dims, inner, selects, |dims|) + SumRights(selects[|dims|..j]) * Block(dims, inner, 1)
  }

  lemma {:induction false} StepUpTo(dims: seq<Dim>, inner: nat, selects: seq<Select>, j: nat)
    requires j < |selects| && dims != []
    ensures RightUpTo(dims, inner, selects, j + 1) == RightUpTo(dims, inner, selects, j) +
            if j < |dims| then (selects[j].right - dims[j].low) * Block(dims, inner, j + 1) else selects[j].right * Block(dims, inner, 1)
  {
    if j < |dims| {
      StepRight(dims, inner, selects, j);
    } else {
      var a, b := selects[|dims|..j], selects[|dims|..j + 1];
      assert b[..|b| - 1] == a && b[|b| - 1] == selects[j];
      Sum(SumRights(a), selects[j].right, Block(dims, inner, 1));
    }
  }

  // ---------- when the range is the declared one ----------

  // Single indices reach the block that they declare exactly when no index into an
  // ascending dimension is off its middle.
  lemma {:induction false} RangeDirectionIff(dims: seq<Dim>, inner: nat, selects: seq<Select>)
    requires Positive(dims) && inner > 0 && |selects| <= |dims| && InRange(dims, Rights(selects))
    ensures var k := |selects|;
            var declared := RowMajor(dims[..k], Rights(selects)) * Block(dims, inner, k);
            RightOf(dims, inner, selects, k) == declared <==> Centred(dims[..k], Rights(selects))
  {
    var k := |selects|;
    assert selects[..k] == selects;
    SizePositive(dims[k..]);
    MulGrows(inner, Size(dims[k..]));
    assert inner * Size(dims[k..]) == Size(dims[k..]) * inner;
    DirectionIff(dims[..k], Rights(selects));
    CancelIff(RowMajor(Plain(dims[..k]), Rights(selects)), RowMajor(dims[..k], Rights(selects)), Block(dims, inner, k));
  }

  lemma {:induction false} CancelIff(a: int, b: int, e: nat)
    requires e > 0
    ensures a * e == b * e <==> a == b
  {
    if a < b { MulGrows(e, b - a); assert e * (b - a) == b * e - a * e; }
    if b < a { MulGrows(e, a - b); assert e * (a - b) == a * e - b * e; }
  }

  // A part select has the width of its elements exactly when its left bound is at least its
  // right one, which is never so for several elements of an ascending dimension.
  lemma {:induction false} RangeWidthIff(left: int, right: int, block: nat)
    requires block > 0
    ensures var count := (if left >= right then left - right else right - left) + 1;
            (left - right + 1) * block == count * block <==> left >= right
  {
    CancelIff(left - right + 1, (if left >= right then left - right else right - left) + 1, block);
  }

  // A wire of two elements of inner bits declared [0:1]: element 0 is the upper one, but
  // its range is computed as that of the lower one.
  method AscendingMissed(inner: nat) returns (range: Option<Select>)
    requires inner > 0
    ensures range == Some(Select(inner - 1, 0)) && RowMajor([Dim(0, 2, true)], [0]) * inner == inner
  {
    var d := Dim(0, 2, true);
    var selects := [Select(0, 0)];
    range := ConvertRange([d], inner, selects);
    OneDim(d, 0);
    OneDim(Dim(0, 2, false), 0);
    assert selects[1..] == [] && selects[..1] == selects && Rights(selects) == [0];
    assert [d][..1] == [d] && [d][1..] == [] && Plain([d]) == [Dim(0, 2, false)];
    assert Block([d], inner, 1) == inner;
  }

  // One select more than dimensions means bit r of an element. The range starts there only
  // for bit 0, or if the first stride is a single bit.
  lemma {:induction false} SurplusSelectRightIff(dims: seq<Dim>, inner: nat, selects: seq<Select>)
    requires dims != [] && |selects| == |dims| + 1
    ensures var r := selects[|dims|].right;
            var meant := RowMajor(Plain(dims), Rights(selects[..|dims|])) * inner + r;
            RightUpTo(dims, inner, selects, |selects|) == meant <==> r == 0 || Block(dims, inner, 1) == 1
  {
    var n, r := |dims|, selects[|dims|].right;
    StepUpTo(dims, inner, selects, n);
    assert dims[..n] == dims && dims[n..] == [];
    assert Block(dims, inner, n) == inner;
    ScaledIff(r, Block(dims, inner, 1));
  }

  lemma {:induction false} ScaledIff(r: int, e: nat)
    ensures r * e == r <==> r == 0 || e == 1
  {
    if r != 0 && e != 1 {
      if e == 0 { assert r * e == 0; }
      else if r > 0 { MulMono(r, 2, e); }
      else { MulMono(-r, 2, e); assert (-r) * e == -(r * e); }
    }
  }

  lemma {:induction false} SpanWidth(l: int, r: int, e: int)
    ensures (l + 1) * e - r * e == (l - r + 1) * e
  {
  }

  // The bits that one value of the first j indices covers.
  function Block(dims: seq<Dim>, inner: nat, j: nat): nat
    requires j <= |dims|
  {
    Size(dims[j..]) * inner
  }

  function RightOf(dims: seq<Dim>, inner: nat, selects: seq<Select>, j: nat): int
    requires j <= |selects| && j <= |dims|
  {
    RowMajor(Plain(dims[..j]), Rights(selects[..j])) * Block(dims, inner, j)
  }

  method ElementSizes(dims: seq<Dim>, size: int) returns (sizes: seq<int>)
    requires Positive(dims)
    ensures sizes == Strides(dims, size)
  {
    var elemSize := size;
    sizes := [];
    for i := 0 to |dims|
      invariant Strides(dims, size) == sizes + Strides(dims[i..], elemSize)
    {
      elemSize := elemSize / dims[i].width;
      assert dims[i..][1..] == dims[i + 1..];
      ghost var rest := Strides(dims[i + 1..], elemSize);
      assert sizes + ([elemSize] + rest) == (sizes + [elemSize]) + rest;
      sizes := sizes + [elemSize];
    }
  }

  lemma {:induction false} StepRight(dims: seq<Dim>, inner: nat, selects: seq<Select>, j: nat)
    requires j < |selects| && j < |dims|
    ensures RightOf(dims, inner, selects, j + 1) ==
            RightOf(dims, inner, selects, j) + (selects[j].right - dims[j].low) * Block(dims, inner, j + 1)
  {
    var p, d := Plain(dims[..j]), Dim(dims[j].low, dims[j].width, false);
    var rs, r := Rights(selects[..j]), selects[j].right;
    assert Plain(dims[..j + 1]) == p + [d] && Rights(selects[..j + 1]) == rs + [r];
    RowMajorSplits(p, [d], rs, [r]);
    OneDim(d, r);
    assert dims[j..][1..] == dims[j + 1..];
    var e, a, w := Block(dims, inner, j + 1), RowMajor(p, rs), dims[j].width;
    Associate(w, Size(dims[j + 1..]), inner);
    Associate(a, w, e);
    Sum(a * w, r - d.low, e);
  }

  lemma {:induction false} Sum(a: int, b: int, e: int)
    ensures (a + b) * e == a * e + b * e
  {
  }

  // ---------- different elements ----------

  // The ranges of different elements, each inner bits wide, do not overlap.
  lemma {:induction false} ElementsAreDisjoint(dims: seq<Dim>, inner: nat, a: seq<int>, b: seq<int>)
    requires |a| == |b| == |dims| && InRange(dims, a) && InRange(dims, b) && a != b
    ensures var x, y := RowMajor(dims, a) * inner, RowMajor(dims, b) * inner;
            x + inner <= y || y + inner <= x
  {
    RowMajorBounds(dims, a);
    RowMajorBounds(dims, b);
    if RowMajor(dims, a) == RowMajor(dims, b) { RowMajorInjective(dims, a, b); }
    BlocksApart(RowMajor(dims, a), RowMajor(dims, b), inner);
  }

  lemma {:induction false} BlocksApart(x: nat, y: nat, inner: nat)
    requires x != y
    ensures x * inner + inner <= y * inner || y * inner + inner <= x * inner
  {
    if x < y {
      MulMono(inner, x + 1, y);
      Distribute(inner, x, 1);
    } else {
      MulMono(inner, y + 1, x);
      Distribute(inner, y, 1);
    }
  }
}
