// Selects on one node of an access path: traverse_dimensions turns a list of indices,
// constant or symbolic, into the offset and the width of the selected bits.
module IndexSelects {
  import opened Arithmetic
  import opened Dimensions

  // ---------- 32-bit arithmetic ----------

  const WORD: int := 0x1_0000_0000

  // Two numbers that a 32-bit unsigned expression cannot tell apart.
  predicate Cong(a: int, b: int) {
    a % WORD == b % WORD
  }

  function Wrap(a: int): (r: nat)
    ensures Cong(r, a)
  {
    a % WORD
  }

  // Numbers are congruent if they differ by a multiple of the modulus.
  lemma {:induction false} CongBy(a: int, b: int, k: int)
    requires a == b + WORD * k
    ensures Cong(a, b)
  {
    var q, r := b / WORD, b % WORD;
    DivUnique(a, WORD, q + k, r);
  }

  lemma {:induction false} CongAdd(a: int, b: int, c: int, d: int)
    requires Cong(a, b) && Cong(c, d)
    ensures Cong(a + c, b + d) && Cong(a - c, b - d)
  {
    var k, m := a / WORD - b / WORD, c / WORD - d / WORD;
    CongBy(a + c, b + d, k + m);
    CongBy(a - c, b - d, k - m);
  }

  lemma {:induction false} CongMul(a: int, b: int, c: int)
    requires Cong(a, b)
    ensures Cong(a * c, b * c)
  {
    var k := a / WORD - b / WORD;
    assert a == b + WORD * k;
    var q, r := b * c / WORD, b * c % WORD;
    assert a * c == b * c + WORD * (k * c) by {
      assert (b + WORD * k) * c == b * c + (WORD * k) * c;
      Associate(WORD, k, c);
    }
    Distribute(WORD, q, k * c);
    DivUnique(a * c, WORD, q + k * c, r);
  }

  lemma {:induction false} CongMulBoth(a: int, b: int, c: int, d: int)
    requires Cong(a, b) && Cong(c, d)
    ensures Cong(a * c, b * d)
  {
    CongMul(a, b, c);
    CongMul(c, d, b);
    assert c * b == b * c && d * b == b * d;
  }

  // ---------- index expressions ----------

  // The expressions of the resulting tree; Dyn is an index that is no constant.
  datatype Expr =
    | Const(n: int)
    | Dyn(id: nat)
    | Add(l: Expr, r: Expr)
    | Sub(l: Expr, r: Expr)
    | Mul(l: Expr, r: Expr)

  type Env = nat -> int

  function Eval(e: Expr, env: Env): int {
    match e
    case Const(n) => n
    case Dyn(id) => env(id)
    case Add(l, r) => Eval(l, env) + Eval(r, env)
    case Sub(l, r) => Eval(l, env) - Eval(r, env)
    case Mul(l, r) => Eval(l, env) * Eval(r, env)
  }

  // A select in brackets: one index, or two bounds.
  datatype Sel = One(e: Expr) | Two(l: Expr, r: Expr)

  predicate IsConst(s: Sel) {
    match s
    case One(e) => e.Const?
    case Two(l, r) => l.Const? && r.Const?
  }

  predicate AllConst(sels: seq<Sel>) {
    forall i | 0 <= i < |sels| :: IsConst(sels[i])
  }

  // Only the last select of a list has two bounds.
  predicate OnlyLastTwo(sels: seq<Sel>) {
    forall i | 0 <= i < |sels| - 1 :: sels[i].One?
  }

  function Max(a: int, b: int): int {
    if a < b then b else a
  }

  function Min(a: int, b: int): int {
    if a < b then a else b
  }

  // The declared index of the lowest selected element: in an ascending dimension that is
  // the numerically larger bound.
  function LowIndex(d: Dim, s: Sel, env: Env): int {
    match s
    case One(e) => Eval(e, env)
    case Two(l, r) => if d.swapped then Max(Eval(l, env), Eval(r, env)) else Min(Eval(l, env), Eval(r, env))
  }

  function LowIndices(dims: seq<Dim>, sels: seq<Sel>, env: Env): (idx: seq<int>)
    requires |dims| == |sels|
    ensures |idx| == |sels| && forall i | 0 <= i < |sels| :: idx[i] == LowIndex(dims[i], sels[i], env)
  {
    seq(|sels|, i requires 0 <= i < |sels| => LowIndex(dims[i], sels[i], env))
  }

  // The number of elements the last select takes.
  function Count(sels: seq<Sel>, env: Env): int {
    if sels == [] then 1
    else
      match sels[|sels| - 1]
      case One(_) => 1
      case Two(l, r) => Max(Eval(l, env), Eval(r, env)) - Min(Eval(l, env), Eval(r, env)) + 1
  }

  // A two-bound select is computed as intended when its left bound is numerically at
  // least its right bound; if every index is constant, when both bounds lie on the same
  // side of position 0, in range in particular.
  predicate Ordered(dims: seq<Dim>, sels: seq<Sel>, env: Env)
    requires |dims| == |sels|
  {
    sels == [] ||
    match sels[|sels| - 1]
    case One(_) => true
    case Two(l, r) =>
      if AllConst(sels) then SameSide(dims[|dims| - 1], Eval(l, env), Eval(r, env)) else Eval(l, env) >= Eval(r, env)
  }

  predicate SameSide(d: Dim, l: int, r: int) {
    (0 <= Local(d, l) < WORD && 0 <= Local(d, r) < WORD) || (0 - WORD <= Local(d, l) < 0 && 0 - WORD <= Local(d, r) < 0)
  }

  // ---------- traverse_dimensions ----------

  // Suffix products of the widths, in 32 bits.
  method SuffixSizes(dims: seq<Dim>) returns (sizes: seq<nat>)
    ensures |sizes| == |dims| && forall i | 0 <= i < |dims| :: Cong(sizes[i], Size(dims[i + 1..]))
  {
    sizes := [];
    var current: nat, i := 1, |dims|;
    while i > 0
      invariant 0 <= i <= |dims| && |sizes| == |dims| - i && Cong(current, Size(dims[i..]))
      invariant forall j | 0 <= j < |sizes| :: Cong(sizes[j], Size(dims[i + j + 1..]))
    {
      i := i - 1;
      sizes := [current] + sizes;
      assert dims[i..][1..] == dims[i + 1..];
      CongMul(current, Size(dims[i + 1..]), dims[i].width);
      assert Size(dims[i + 1..]) * dims[i].width == dims[i].width * Size(dims[i + 1..]);
      current := Wrap(current * dims[i].width);
    }
  }

  // The position of a constant index, in 32 bits.
  function ConstLocal(d: Dim, n: int): (r: nat)
    ensures Cong(r, Local(d, n))
  {
    var offset := Wrap(n - d.low);
    if d.swapped then Wrap(d.width - offset - 1) else offset
  }

  // The position of a symbolic index.
  function SymbolicLocal(d: Dim, e: Expr): Expr {
    var offset := Sub(e, Const(d.low));
    if d.swapped then Sub(Const(d.width - 1), offset) else offset
  }

  lemma {:induction false} SymbolicLocalValue(d: Dim, e: Expr, env: Env)
    ensures Eval(SymbolicLocal(d, e), env) == Local(d, Eval(e, env))
  {
    assert Eval(Sub(e, Const(d.low)), env) == Eval(e, env) - d.low;
  }

  // The number of elements between two symbolic bounds; an ascending dimension swaps them.
  function SymbolicCount(d: Dim, l: Expr, r: Expr): Expr {
    var a, b := SymbolicLocal(d, l), SymbolicLocal(d, r);
    Add(Const(1), if d.swapped then Sub(b, a) else Sub(a, b))
  }

  // A constant part is moved into the expression before a symbolic term is added.
  function Flush(node: Expr, offset: int): Expr {
    if offset != 0 then Add(node, Const(offset)) else node
  }

  lemma {:induction false} FlushValue(node: Expr, offset: int, env: Env)
    ensures Eval(Flush(node, offset), env) == Eval(node, env) + offset
  {
  }

  // A sum that lacks only the terms of the dimensions from i on.
  ghost predicate Partial(dims: seq<Dim>, idx: seq<int>, i: nat, sum: int)
    requires |dims| == |idx| && i <= |dims|
  {
    Cong(sum + RowMajor(dims[i..], idx[i..]), RowMajor(dims, idx))
  }

  lemma {:induction false} PartialStart(dims: seq<Dim>, idx: seq<int>)
    requires |dims| == |idx|
    ensures Partial(dims, idx, 0, 0)
  {
    assert dims[0..] == dims && idx[0..] == idx;
  }

  lemma {:induction false} PartialStep(dims: seq<Dim>, idx: seq<int>, i: nat, sum: int, term: int)
    requires |dims| == |idx| && i < |dims| && Partial(dims, idx, i, sum)
    requires Cong(term, Local(dims[i], idx[i]) * Size(dims[i + 1..]))
    ensures Partial(dims, idx, i + 1, sum + term)
  {
    assert dims[i..][1..] == dims[i + 1..] && idx[i..][1..] == idx[i + 1..];
    AddTerm(sum, term, Local(dims[i], idx[i]) * Size(dims[i + 1..]), RowMajor(dims[i + 1..], idx[i + 1..]), RowMajor(dims, idx));
  }

  lemma {:induction false} AddTerm(sum: int, term: int, exact: int, rest: int, total: int)
    requires Cong(sum + (exact + rest), total) && Cong(term, exact)
    ensures Cong((sum + term) + rest, total)
  {
    CongAdd(term, exact, sum + rest, sum + rest);
  }

  lemma {:induction false} PartialEnd(dims: seq<Dim>, idx: seq<int>, sum: int)
    requires |dims| == |idx| && Partial(dims, idx, |dims|, sum)
    ensures Cong(sum, RowMajor(dims, idx))
  {
    assert dims[|dims|..] == [];
  }

  // The sum so far, a constant beside an expression, lacks the dimensions from i on.
  ghost predicate Summed(dims: seq<Dim>, sels: seq<Sel>, i: nat, node: Expr, offset: int)
    requires |dims| == |sels| && i <= |dims|
  {
    forall env: Env :: Partial(dims, LowIndices(dims, sels, env), i, Eval(node, env) + offset)
  }

  // The last select has two bounds in range, not all indices are constant, and the sizes
  // are small enough for 32 bits.
  predicate SymbolicBounds(dims: seq<Dim>, sels: seq<Sel>, sub: nat, env: Env)
    requires |dims| == |sels|
  {
    sels != [] && !AllConst(sels) && sels[|sels| - 1].Two? &&
    var d, s := dims[|dims| - 1], sels[|sels| - 1];
    InDim(d, Eval(s.l, env)) && InDim(d, Eval(s.r, env)) && sub > 0 && d.width * sub < WORD / 2
  }

  predicate LeftAbove(sels: seq<Sel>, env: Env) {
    sels != [] && sels[|sels| - 1].Two? && Eval(sels[|sels| - 1].l, env) >= Eval(sels[|sels| - 1].r, env)
  }

  // Offset and width are those of the selected elements, if the last select is in order.
  ghost predicate RightIfOrdered(right: Expr, width: Expr, dims: seq<Dim>, sels: seq<Sel>, sub: nat)
    requires |dims| == |sels|
  {
    forall env: Env :: Ordered(dims, sels, env) ==>
      && Cong(Eval(right, env), RowMajor(dims, LowIndices(dims, sels, env)) * sub)
      && Cong(Eval(width, env), Count(sels, env) * sub)
  }

  // With symbolic bounds the width is right only then.
  ghost predicate WidthIffLeftAbove(width: Expr, dims: seq<Dim>, sels: seq<Sel>, sub: nat)
    requires |dims| == |sels|
  {
    forall env: Env :: SymbolicBounds(dims, sels, sub, env) ==>
      (Cong(Eval(width, env), Count(sels, env) * sub) <==> LeftAbove(sels, env))
  }

  // The bit range of a select list within one node of the path: the offset of its lowest
  // bit and its width. sub is the width of one selected element.
  method TraverseDimensions(dims: seq<Dim>, sels: seq<Sel>, sub: nat) returns (right: Expr, width: Expr)
    requires |dims| == |sels| && OnlyLastTwo(sels)
    ensures RightIfOrdered(right, width, dims, sels, sub)
    ensures right.Const? && width.Const? <==> AllConst(sels)
    ensures WidthIffLeftAbove(width, dims, sels, sub)
  {
    if |dims| == 0 {
      return Const(0), Const(sub);
    }
    var sizes := SuffixSizes(dims);
    var rightNode, rightOffset: int, isVariable := Const(0), 0, false;
    forall env: Env { PartialStart(dims, LowIndices(dims, sels, env)); }
    var last := |sels| - 1;
    for i := 0 to last
      invariant Summed(dims, sels, i, rightNode, rightOffset)
      invariant isVariable <==> exists j | 0 <= j < i :: !IsConst(sels[j])
      invariant !isVariable ==> rightNode == Const(0)
    {
      if sels[i].e.Const? {
        rightOffset := AddConstant(dims, sels, i, sizes[i], rightNode, rightOffset);
      } else {
        isVariable := true;
        rightNode := AddSymbolic(dims, sels, i, sizes[i], rightNode, rightOffset);
        rightOffset := 0;
      }
    }
    assert dims[last + 1..] == [] && Size([]) == 1;
    right, width := TraverseLast(dims, sels, sub, sizes[last], rightNode, rightOffset, isVariable);
  }

  // Adds the term of a constant index to the constant part.
  method AddConstant(dims: seq<Dim>, sels: seq<Sel>, i: nat, size: nat, ghost node: Expr,
      offset: int) returns (offset': int)
    requires |dims| == |sels| && i < |dims| && Summed(dims, sels, i, node, offset)
    requires sels[i].One? && sels[i].e.Const? && Cong(size, Size(dims[i + 1..]))
    ensures Summed(dims, sels, i + 1, node, offset')
  {
    offset' := Wrap(offset + Wrap(ConstLocal(dims[i], sels[i].e.n) * size));
    ConstTerm(dims, sels, i, size, node, offset, offset');
  }

  // Adds the term of a symbolic index to the expression, after the constant part.
  method AddSymbolic(dims: seq<Dim>, sels: seq<Sel>, i: nat, size: nat, node: Expr, offset: int) returns (node': Expr)
    requires |dims| == |sels| && i < |dims| && Summed(dims, sels, i, node, offset)
    requires sels[i].One? && Cong(size, Size(dims[i + 1..]))
    ensures Summed(dims, sels, i + 1, node', 0)
  {
    node' := Flush(node, offset);
    node' := Add(Mul(SymbolicLocal(dims[i], sels[i].e), Const(size)), node');
    SymbolicTerm(dims, sels, i, size, sels[i].e, node, offset);
  }

  lemma {:induction false} ConstTerm(dims: seq<Dim>, sels: seq<Sel>, i: nat, size: nat, node: Expr, offset: int,
      offset': int)
    requires |dims| == |sels| && i < |dims| && Summed(dims, sels, i, node, offset)
    requires sels[i].One? && sels[i].e.Const? && Cong(size, Size(dims[i + 1..]))
    requires offset' == Wrap(offset + Wrap(ConstLocal(dims[i], sels[i].e.n) * size))
    ensures Summed(dims, sels, i + 1, node, offset')
  {
    var n := sels[i].e.n;
    ConstOffset(offset, ConstLocal(dims[i], n), Local(dims[i], n), size, Size(dims[i + 1..]), offset');
    forall env: Env
      ensures Partial(dims, LowIndices(dims, sels, env), i + 1, Eval(node, env) + offset')
    {
      PartialStep(dims, LowIndices(dims, sels, env), i, Eval(node, env) + offset, offset' - offset);
    }
  }

  lemma {:induction false} ConstOffset(offset: int, local: int, exactLocal: int, size: int, exactSize: int,
      offset': int)
    requires Cong(local, exactLocal) && Cong(size, exactSize) && offset' == Wrap(offset + Wrap(local * size))
    ensures Cong(offset' - offset, exactLocal * exactSize)
  {
    CongMulBoth(local, exactLocal, size, exactSize);
    CongAdd(offset, offset, Wrap(local * size), exactLocal * exactSize);
    CongAdd(offset', offset + exactLocal * exactSize, offset, offset);
  }

  lemma {:induction false} SymbolicTerm(dims: seq<Dim>, sels: seq<Sel>, i: nat, size: nat, index: Expr, node: Expr,
      offset: int)
    requires |dims| == |sels| && i < |dims| && Summed(dims, sels, i, node, offset)
    requires sels[i] == One(index) && Cong(size, Size(dims[i + 1..]))
    ensures Summed(dims, sels, i + 1, Add(Mul(SymbolicLocal(dims[i], index), Const(size)), Flush(node, offset)), 0)
  {
    var node' := Add(Mul(SymbolicLocal(dims[i], index), Const(size)), Flush(node, offset));
    forall env: Env
      ensures Partial(dims, LowIndices(dims, sels, env), i + 1, Eval(node', env) + 0)
    {
      var local := Local(dims[i], Eval(index, env));
      SymbolicLocalValue(dims[i], index, env);
      FlushValue(node, offset, env);
      assert Eval(Mul(SymbolicLocal(dims[i], index), Const(size)), env) == local * size;
      CongMulBoth(local, local, size, Size(dims[i + 1..]));
      PartialStep(dims, LowIndices(dims, sels, env), i, Eval(node, env) + offset, local * size);
    }
  }

  // The last select decides the width. Both bounds constant: minimum and maximum of the
  // positions. Otherwise the positions are used in the order they are written, swapped
  // for an ascending dimension.
  method TraverseLast(dims: seq<Dim>, sels: seq<Sel>, sub: nat, size: nat, node: Expr, offset: int, variable: bool)
    returns (right: Expr, width: Expr)
    requires |dims| == |sels| > 0 && OnlyLastTwo(sels)
    requires Summed(dims, sels, |sels| - 1, node, offset) && Cong(size, 1)
    requires variable <==> exists j | 0 <= j < |sels| - 1 :: !IsConst(sels[j])
    requires !variable ==> node == Const(0)
    ensures RightIfOrdered(right, width, dims, sels, sub)
    ensures right.Const? && width.Const? <==> AllConst(sels)
    ensures WidthIffLeftAbove(width, dims, sels, sub)
  {
    var d, sel := dims[|dims| - 1], sels[|sels| - 1];
    assert AllConst(sels) <==> !variable && IsConst(sel);
    if !variable && IsConst(sel) {
      var low: nat, count: nat;
      match sel {
        case One(e) => low, count := ConstLocal(d, e.n), 1;
        case Two(l, r) =>
          var a, b := ConstLocal(d, l.n), ConstLocal(d, r.n);
          low, count := Min(a, b), Max(a, b) - Min(a, b) + 1;
      }
      var total := Wrap(offset + low * size);
      right, width := Const(Wrap(total * sub)), Const(Wrap(Wrap(size * count) * sub));
      forall env: Env | Ordered(dims, sels, env)
        ensures Cong(Eval(right, env), RowMajor(dims, LowIndices(dims, sels, env)) * sub)
        ensures Cong(Eval(width, env), Count(sels, env) * sub)
      {
        ConstLast(d, sel, low, count, env);
        LastTerm(dims, LowIndices(dims, sels, env), Eval(node, env) + offset, low, size);
        CongMul(total, RowMajor(dims, LowIndices(dims, sels, env)), sub);
        ScaledCount(size, count, Count(sels, env), sub);
        CongMul(Wrap(size * count), size * count, sub);
      }
    } else {
      var low: Expr, count: Expr;
      match sel {
        case One(e) => low, count := SymbolicLocal(d, e), Const(1);
        case Two(l, r) =>
          low, count := SymbolicLocal(d, if d.swapped then l else r), SymbolicCount(d, l, r);
      }
      var sum := Flush(Add(node, Mul(low, Const(size))), offset);
      right, width := Mul(sum, Const(sub)), Mul(Mul(Const(size), count), Const(sub));
      forall env: Env | Ordered(dims, sels, env)
        ensures Cong(Eval(right, env), RowMajor(dims, LowIndices(dims, sels, env)) * sub)
        ensures Cong(Eval(width, env), Count(sels, env) * sub)
      {
        SymbolicLast(d, sel, low, count, env);
        LastTerm(dims, LowIndices(dims, sels, env), Eval(node, env) + offset, Eval(low, env), size);
        FlushValue(Add(node, Mul(low, Const(size))), offset, env);
        assert Eval(Mul(low, Const(size)), env) == Eval(low, env) * size;
        assert Eval(Mul(Const(size), count), env) == size * Eval(count, env);
        CongMul(Eval(sum, env), RowMajor(dims, LowIndices(dims, sels, env)), sub);
        ScaledCount(size, Eval(count, env), Count(sels, env), sub);
      }
      forall env: Env | SymbolicBounds(dims, sels, sub, env)
        ensures Cong(Eval(width, env), Count(sels, env) * sub) <==> LeftAbove(sels, env)
      {
        assert Eval(Mul(Const(size), count), env) == size * Eval(count, env);
        ScaledCount(size, Eval(count, env), Eval(count, env), sub);
        SymbolicWidthIff(d, sel.l, sel.r, sub, env);
      }
    }
  }

  lemma {:induction false} ConstLast(d: Dim, sel: Sel, low: nat, count: nat, env: Env)
    requires IsConst(sel)
    requires match sel
             case One(e) => low == ConstLocal(d, e.n) && count == 1
             case Two(l, r) =>
               && SameSide(d, l.n, r.n)
               && low == Min(ConstLocal(d, l.n), ConstLocal(d, r.n))
               && count == Max(ConstLocal(d, l.n), ConstLocal(d, r.n)) - Min(ConstLocal(d, l.n), ConstLocal(d, r.n)) + 1
    ensures Cong(low, Local(d, LowIndex(d, sel, env))) && count == Count([sel], env)
  {
    if sel.Two? {
      ConstLocalExact(d, sel.l.n);
      ConstLocalExact(d, sel.r.n);
    }
  }

  lemma {:induction false} SymbolicLast(d: Dim, sel: Sel, low: Expr, count: Expr, env: Env)
    requires match sel
             case One(e) => low == SymbolicLocal(d, e) && count == Const(1)
             case Two(l, r) =>
               && low == SymbolicLocal(d, if d.swapped then l else r) && count == SymbolicCount(d, l, r)
               && Eval(l, env) >= Eval(r, env)
    ensures Eval(low, env) == Local(d, LowIndex(d, sel, env)) && Eval(count, env) == Count([sel], env)
  {
    match sel
    case One(e) => SymbolicLocalValue(d, e, env);
    case Two(l, r) =>
      SymbolicLocalValue(d, l, env);
      SymbolicLocalValue(d, r, env);
      var a, b := SymbolicLocal(d, l), SymbolicLocal(d, r);
      assert Eval(count, env) == 1 + Eval(if d.swapped then Sub(b, a) else Sub(a, b), env);
  }

  // A position wraps around once below 0.
  lemma {:induction false} ConstLocalExact(d: Dim, n: int)
    requires 0 - WORD <= Local(d, n) < WORD
    ensures ConstLocal(d, n) == if Local(d, n) < 0 then Local(d, n) + WORD else Local(d, n)
  {
    var p := Local(d, n);
    DivUnique(p, WORD, if p < 0 then -1 else 0, if p < 0 then p + WORD else p);
    Small(ConstLocal(d, n), p);
  }

  lemma {:induction false} Small(a: int, b: int)
    requires Cong(a, b) && 0 <= a < WORD
    ensures a == b % WORD
  {
  }

  lemma {:induction false} LastTerm(dims: seq<Dim>, idx: seq<int>, sum: int, low: int, size: nat)
    requires |dims| == |idx| > 0 && Partial(dims, idx, |dims| - 1, sum)
    requires Cong(size, 1) && Cong(low, Local(dims[|dims| - 1], idx[|dims| - 1]))
    ensures Cong(sum + low * size, RowMajor(dims, idx))
  {
    var i := |dims| - 1;
    assert dims[i + 1..] == [];
    CongMulBoth(low, Local(dims[i], idx[i]), size, 1);
    PartialStep(dims, idx, i, sum, low * size);
    PartialEnd(dims, idx, sum + low * size);
  }

  lemma {:induction false} ScaledCount(size: nat, count: int, exact: int, sub: nat)
    requires Cong(size, 1) && Cong(count, exact)
    ensures Cong(size * count * sub, exact * sub)
  {
    CongMulBoth(size, 1, count, exact);
    CongMul(size * count, exact, sub);
  }

  // ---------- constant and symbolic selects ----------

  // The constant form takes the distance of the bounds in either order. The symbolic form
  // gives the same width if and only if the left bound is numerically at least the right
  // one, in ascending dimensions too.
  lemma {:induction false} SymbolicWidthIff(d: Dim, l: Expr, r: Expr, sub: nat, env: Env)
    requires InDim(d, Eval(l, env)) && InDim(d, Eval(r, env)) && sub > 0 && d.width * sub < WORD / 2
    ensures Cong(Eval(SymbolicCount(d, l, r), env) * sub, Count([Two(l, r)], env) * sub) <==> Eval(l, env) >= Eval(r, env)
  {
    SymbolicLocalValue(d, l, env);
    SymbolicLocalValue(d, r, env);
    var a, b := SymbolicLocal(d, l), SymbolicLocal(d, r);
    assert Eval(if d.swapped then Sub(b, a) else Sub(a, b), env) == Eval(l, env) - Eval(r, env);
    WidthDiffers(Eval(r, env) - Eval(l, env), sub, d.width);
  }

  // The constant form is right for bounds in either order, but its positions wrap around:
  // width and offset are right if and only if both bounds lie on the same side of position
  // 0, where the symbolic form does not depend on sides.
  lemma {:induction false} ConstWidthIff(d: Dim, l: int, r: int, sub: nat)
    requires sub > 0 && 0 - WORD / 4 < Local(d, l) * sub < WORD / 4 && 0 - WORD / 4 < Local(d, r) * sub < WORD / 4
    ensures var a, b, p, q := ConstLocal(d, l), ConstLocal(d, r), Local(d, l), Local(d, r);
            && (Cong((Max(a, b) - Min(a, b) + 1) * sub, (Max(p, q) - Min(p, q) + 1) * sub) <==> SameSide(d, l, r))
            && (Cong(Min(a, b) * sub, Min(p, q) * sub) <==> SameSide(d, l, r))
  {
    var p, q := Local(d, l), Local(d, r);
    Shrinks(p, sub);
    Shrinks(q, sub);
    ConstLocalExact(d, l);
    ConstLocalExact(d, r);
    if p < 0 <= q {
      AcrossZero(p, q, sub);
    } else if q < 0 <= p {
      AcrossZero(q, p, sub);
    } else {
      OnOneSide(p, q, ConstLocal(d, l), ConstLocal(d, r), sub);
    }
  }

  lemma {:induction false} OnOneSide(p: int, q: int, a: int, b: int, sub: nat)
    requires (a == p && b == q) || (a == p + WORD && b == q + WORD)
    ensures Max(a, b) - Min(a, b) == Max(p, q) - Min(p, q) && Cong(Min(a, b) * sub, Min(p, q) * sub)
  {
    if a == p + WORD {
      assert (Min(p, q) + WORD) * sub == Min(p, q) * sub + WORD * sub;
      CongBy(Min(a, b) * sub, Min(p, q) * sub, sub);
    }
  }

  lemma {:induction false} Shrinks(p: int, sub: nat)
    requires sub > 0 && 0 - WORD / 4 < p * sub < WORD / 4
    ensures 0 - WORD / 4 < p < WORD / 4
  {
    if p > 0 { MulMono(p, 1, sub); }
    if p < 0 { MulMono(0 - p, 1, sub); assert (0 - p) * sub == 0 - p * sub; }
  }

  lemma {:induction false} AcrossZero(p: int, q: int, sub: nat)
    requires sub > 0 && p < 0 <= q && 0 - WORD / 4 < p * sub && q * sub < WORD / 4 && 0 - WORD / 4 < p && q < WORD / 4
    ensures !Cong((p + WORD - q + 1) * sub, (q - p + 1) * sub) && !Cong(q * sub, p * sub)
  {
    var dist := (q - p) * sub;
    Distribute(sub, q, -p);
    MulGrows(sub, q - p);
    assert dist == q * sub - p * sub && dist == sub * (q - p);
    NotCong(p * sub, q * sub);
    assert (q - p + 1) * sub == dist + sub && (p - q + 1) * sub == sub - dist;
    NotCong(sub - dist, sub + dist);
    assert (p + WORD - q + 1) * sub == (p - q + 1) * sub + WORD * sub;
    CongBy((p + WORD - q + 1) * sub, (p - q + 1) * sub, sub);
  }

  lemma {:induction false} WidthDiffers(back: int, sub: nat, width: nat)
    requires sub > 0 && 0 - width < back < width && width * sub < WORD / 2
    ensures Cong((1 - back) * sub, ((if back < 0 then -back else back) + 1) * sub) <==> back <= 0
  {
    if back > 0 {
      MulGrows(sub, back);
      MulMono(sub, back, width);
      assert (back + 1) * sub - (1 - back) * sub == 2 * (back * sub);
      NotCong((1 - back) * sub, (back + 1) * sub);
    }
  }

  lemma {:induction false} NotCong(a: int, b: int)
    requires 0 < b - a < WORD
    ensures !Cong(a, b)
  {
  }

  // x[i:j] with i = 0 and j = 3 in [3:0]: four bits are selected, but the width is not 4.
  method BackwardsSelectMissed() returns (right: Expr, width: Expr)
    ensures forall env: Env | env(0) == 0 && env(1) == 3 :: !Cong(Eval(width, env), 4)
  {
    var dims, sels := [Dim(0, 4, false)], [Two(Dyn(0), Dyn(1))];
    right, width := TraverseDimensions(dims, sels, 1);
    assert !IsConst(sels[0]) && !AllConst(sels);
    forall env: Env | env(0) == 0 && env(1) == 3 ensures !Cong(Eval(width, env), 4) {
      assert SymbolicBounds(dims, sels, 1, env) && !LeftAbove(sels, env);
      assert Count(sels, env) * 1 == 4;
    }
  }
}
