// The unroller folds the control of a loop in the width of its expressions, as signed
// numbers: 32 bits where the literals have no size and the loop variable is no wider.
// Here is when that makes no difference to folding unbounded integers.
module FoldWidth {
  import opened Wrappers
  import opened Arithmetic
  import opened Procedural
  import opened Unrolling
  import opened UnrollingMeaning

  // A number cut to w bits and read as signed.
  function Cut(n: int, w: nat): int {
    Fit(Var("", w, true), n)
  }

  predicate InWidth(n: int, w: nat)
    requires w > 0
  {
    0 - Pow2(w - 1) <= n < Pow2(w - 1)
  }

  lemma {:induction false} CutIffInWidth(n: int, w: nat)
    requires w > 0
    ensures Cut(n, w) == n <==> InWidth(n, w)
    ensures InWidth(Cut(n, w), w)
  {
    var v := Var("", w, true);
    FitInRange(v, n);
    assert Lowest(v) == 0 - Pow2(w - 1) && Limit(v) == Pow2(w - 1);
  }

  // ---------- folding an expression ----------

  function Folded(e: Expr, w: nat): int
    requires IsConst(e)
  {
    match e
    case Const(n) => Cut(n, w)
    case LogicNot(e1) => Truth(Folded(e1, w) == 0)
    case Binary(op, l, r) =>
      var x := Apply(op, Folded(l, w), Folded(r, w));
      if op in {Add, Sub, Mul} then Cut(x, w) else x
  }

  // No intermediate result outgrows the width.
  predicate Within(e: Expr, w: nat)
    requires IsConst(e) && w > 0
  {
    match e
    case Const(n) => InWidth(n, w)
    case LogicNot(e1) => Within(e1, w)
    case Binary(op, l, r) => Within(l, w) && Within(r, w) && (op in {Add, Sub, Mul} ==> InWidth(Value(e), w))
  }

  lemma {:induction false} FoldedWithin(e: Expr, w: nat)
    requires IsConst(e) && w > 0 && Within(e, w)
    ensures Folded(e, w) == Value(e)
  {
    match e
    case Const(n) => CutIffInWidth(n, w);
    case LogicNot(e1) => FoldedWithin(e1, w);
    case Binary(op, l, r) =>
      FoldedWithin(l, w);
      FoldedWithin(r, w);
      if op in {Add, Sub, Mul} { CutIffInWidth(Value(e), w); }
  }

  predicate Arithmetical(e: Expr) {
    match e
    case Const(_) => true
    case Binary(op, l, r) => op in {Add, Sub, Mul} && Arithmetical(l) && Arithmetical(r)
    case _ => false
  }

  // Sums and products lose nothing but multiples of the power of two on the way: the
  // result is right exactly when it fits, whatever its parts do.
  lemma {:induction false} ArithmeticIff(e: Expr, w: nat)
    requires Arithmetical(e) && w > 0
    ensures IsConst(e) && Folded(e, w) == Cut(Value(e), w)
    ensures Folded(e, w) == Value(e) <==> InWidth(Value(e), w)
  {
    CutIffInWidth(Value(e), w);
    if e.Binary? {
      ArithmeticIff(e.l, w);
      ArithmeticIff(e.r, w);
      CutApply(e.op, Value(e.l), Value(e.r), w);
    }
  }

  lemma {:induction false} CutShift(n: int, k: int, w: nat)
    ensures Cut(n + Pow2(w) * k, w) == Cut(n, w)
  {
    var m := Pow2(w);
    DivUnique(n + m * k, m, n / m + k, n % m);
  }

  lemma {:induction false} CutApply(op: Op, x: int, y: int, w: nat)
    requires op in {Add, Sub, Mul}
    ensures Cut(Apply(op, Cut(x, w), Cut(y, w)), w) == Cut(Apply(op, x, y), w)
  {
    var m := Pow2(w);
    var j := CutBy(x, w);
    var k := CutBy(y, w);
    match op
    case Add =>
      SumParts(x, y, m, j, k);
      CutShift(x + y, j + k, w);
    case Sub =>
      SumParts(x, 0 - y, m, j, 0 - k);
      CutShift(x - y, j - k, w);
    case Mul =>
      ProductParts(x, y, m, j, k);
      CutShift(x * y, x * k + j * y + j * (m * k), w);
    case _ =>
  }

  lemma {:induction false} SumParts(x: int, y: int, m: int, j: int, k: int)
    ensures (x + m * j) + (y + m * k) == (x + y) + m * (j + k)
    ensures m * (0 - k) == 0 - m * k
  {
  }

  lemma {:induction false} ProductParts(x: int, y: int, m: int, j: int, k: int)
    ensures (x + m * j) * (y + m * k) == x * y + m * (x * k + j * y + j * (m * k))
  {
    var d := m * k;
    assert (x + m * j) * (y + d) == x * y + x * d + (m * j) * y + (m * j) * d;
    assert x * d == m * (x * k) && (m * j) * y == m * (j * y) && (m * j) * d == m * (j * d);
    Distribute(m, x * k + j * y, j * d);
    Distribute(m, x * k, j * y);
  }

  lemma {:induction false} CutBy(n: int, w: nat) returns (k: int)
    ensures Cut(n, w) == n + Pow2(w) * k
  {
    var m := Pow2(w);
    k := 0 - n / m - (if 2 * (n % m) >= m then 1 else 0);
    assert n == m * (n / m) + n % m;
  }

  // ---------- the iterations of a loop ----------

  // The values of the loop variable when its control is folded in w bits.
  function FoldedIndices(h: Head, n: int, limit: nat, w: nat): Option<Indices>
    requires h.For?
    decreases limit
  {
    var c, st := SubstExpr(h.cond, h.v, n), SubstExpr(h.step, h.v, n);
    if !IsConst(c) then None
    else if Folded(c, w) == 0 then Some(Indices([], n))
    else if limit == 0 || !IsConst(st) then None
    else
      match FoldedIndices(h, Folded(st, w), limit - 1, w)
      case None => None
      case Some(rest) => Some(Indices([n] + rest.visited, rest.last))
  }

  predicate ControlWithin(h: Head, n: int, limit: nat, w: nat)
    requires h.For? && w > 0
    decreases limit
  {
    var c, st := SubstExpr(h.cond, h.v, n), SubstExpr(h.step, h.v, n);
    && (IsConst(c) ==> Within(c, w))
    && (IsConst(c) && Value(c) != 0 && limit > 0 && IsConst(st) ==>
          Within(st, w) && ControlWithin(h, Value(st), limit - 1, w))
  }

  // Any loop whose control stays within the width is unrolled as with unbounded integers.
  lemma {:induction false} WithinFoldsAlike(h: Head, n: int, limit: nat, w: nat)
    requires h.For? && w > 0 && ControlWithin(h, n, limit, w)
    ensures FoldedIndices(h, n, limit, w) == ForIndices(h, n, limit)
    decreases limit
  {
    var c, st := SubstExpr(h.cond, h.v, n), SubstExpr(h.step, h.v, n);
    if IsConst(c) {
      FoldedWithin(c, w);
      if Value(c) != 0 && limit > 0 && IsConst(st) {
        FoldedWithin(st, w);
        WithinFoldsAlike(h, Value(st), limit - 1, w);
      }
    }
  }

  // ---------- counting loops ----------

  lemma {:induction false} CountingFolds(v: Var, a: int, b: int, c: int, n: int, w: nat)
    requires w > 0 && InWidth(n, w) && InWidth(b, w) && InWidth(c, w)
    ensures var h := Counting(v, a, b, c);
            && IsConst(SubstExpr(h.cond, v, n)) && Folded(SubstExpr(h.cond, v, n), w) == Truth(n < b)
            && IsConst(SubstExpr(h.step, v, n)) && Folded(SubstExpr(h.step, v, n), w) == Cut(n + c, w)
  {
    assert SubstExpr(Ref(v), v, n) == Const(n);
    CutIffInWidth(n, w);
    CutIffInWidth(b, w);
    CutIffInWidth(c, w);
    assert Folded(Const(n), w) == n && Folded(Const(b), w) == b && Folded(Const(c), w) == c;
  }

  predicate FoldsAlike(h: Head, n: int, limit: nat, w: nat)
    requires h.For?
  {
    FoldedIndices(h, n, limit, w) == ForIndices(h, n, limit)
  }

  // A counting loop that ends is unrolled as with unbounded integers exactly when the
  // first value from its bound on fits the width.
  lemma {:induction false} CountingFoldsIff(v: Var, a: int, b: int, c: int, n: int, limit: nat, w: nat)
    requires w > 0 && c > 0 && InWidth(n, w) && InWidth(b, w) && InWidth(c, w)
    requires ForIndices(Counting(v, a, b, c), n, limit).Some?
    ensures FoldsAlike(Counting(v, a, b, c), n, limit, w) <==> n >= b || InWidth(b + (n - b) % c, w)
    decreases limit
  {
    LastReached(n, b, c);
    if n >= b {
      CountingStops(v, a, b, c, n, limit, w);
    } else if InWidth(n + c, w) {
      CountingGoesOn(v, a, b, c, n, limit, w);
      CountingFoldsIff(v, a, b, c, n + c, limit - 1, w);
    } else {
      CountingOverflows(v, a, b, c, n, limit, w);
    }
  }

  lemma {:induction false} LastReached(n: int, b: int, c: int)
    requires c > 0
    ensures n < b <= n + c ==> b + (n - b) % c == n + c
    ensures (n + c - b) % c == (n - b) % c
  {
    StepsAlike(n - b, c);
    if n < b <= n + c { DivUnique(n - b, c, -1, n + c - b); }
  }

  lemma {:induction false} CountingStops(v: Var, a: int, b: int, c: int, n: int, limit: nat, w: nat)
    requires w > 0 && InWidth(n, w) && InWidth(b, w) && InWidth(c, w) && n >= b
    ensures FoldsAlike(Counting(v, a, b, c), n, limit, w)
  {
    CountingValues(v, a, b, c, n);
    CountingFolds(v, a, b, c, n, w);
  }

  lemma {:induction false} CountingGoesOn(v: Var, a: int, b: int, c: int, n: int, limit: nat, w: nat)
    requires w > 0 && InWidth(n, w) && InWidth(b, w) && InWidth(c, w) && n < b && InWidth(n + c, w)
    requires ForIndices(Counting(v, a, b, c), n, limit).Some?
    ensures limit > 0 && ForIndices(Counting(v, a, b, c), n + c, limit - 1).Some?
    ensures FoldsAlike(Counting(v, a, b, c), n, limit, w) <==> FoldsAlike(Counting(v, a, b, c), n + c, limit - 1, w)
  {
    CountingValues(v, a, b, c, n);
    CountingFolds(v, a, b, c, n, w);
    CutIffInWidth(n + c, w);
    OneMoreTurn(Counting(v, a, b, c), n, limit, w, n + c);
  }

  lemma {:induction false} OneMoreTurn(h: Head, n: int, limit: nat, w: nat, next: int)
    requires h.For? && limit > 0 && ForIndices(h, n, limit).Some?
    requires var c, st := SubstExpr(h.cond, h.v, n), SubstExpr(h.step, h.v, n);
             IsConst(c) && IsConst(st) && Value(c) != 0 && Folded(c, w) != 0 && Value(st) == next == Folded(st, w)
    ensures FoldsAlike(h, n, limit, w) <==> FoldsAlike(h, next, limit - 1, w)
  {
    var f, u := FoldedIndices(h, next, limit - 1, w), ForIndices(h, next, limit - 1);
    assert u.Some?;
    if f.Some? {
      assert ([n] + f.value.visited)[1..] == f.value.visited && ([n] + u.value.visited)[1..] == u.value.visited;
    }
  }

  // Past the largest number the folded variable is below its bound again.
  lemma {:induction false} CountingOverflows(v: Var, a: int, b: int, c: int, n: int, limit: nat, w: nat)
    requires w > 0 && c > 0 && InWidth(n, w) && InWidth(b, w) && InWidth(c, w) && n < b && !InWidth(n + c, w)
    requires ForIndices(Counting(v, a, b, c), n, limit).Some?
    ensures n + c >= b && !FoldsAlike(Counting(v, a, b, c), n, limit, w)
  {
    var h := Counting(v, a, b, c);
    var back := Cut(n + c, w);
    CountingValues(v, a, b, c, n);
    CountingValues(v, a, b, c, n + c);
    CountingFolds(v, a, b, c, n, w);
    assert ForIndices(h, n, limit).value.visited == [n];
    FitInRange(Var("", w, true), n + c);
    assert back == n + c - Pow2(w) < b;
    CutIffInWidth(n + c, w);
    CountingFolds(v, a, b, c, back, w);
    var f := FoldedIndices(h, back, limit - 1, w);
    if f.Some? { assert |f.value.visited| > 0; }
  }

  // In particular a counting loop whose indices fit a variable within the width.
  lemma {:induction false} FittingFoldsAlike(v: Var, a: int, b: int, c: int, n: int, limit: nat, w: nat)
    requires w > 0 && 0 < c <= Pow2(v.width) && InWidth(n, w) && InWidth(b, w) && InWidth(c, w)
    requires Limit(v) <= Pow2(w - 1) && ForIndices(Counting(v, a, b, c), n, limit).Some?
    requires IndicesFit(Counting(v, a, b, c), ForIndices(Counting(v, a, b, c), n, limit).value)
    ensures FoldsAlike(Counting(v, a, b, c), n, limit, w)
  {
    FittingEnds(v, a, b, c, n, limit);
    var last := b + (n - b) % c;
    assert n < b ==> InWidth(last, w);
    CountingFoldsIff(v, a, b, c, n, limit, w);
  }

  lemma {:induction false} FittingEnds(v: Var, a: int, b: int, c: int, n: int, limit: nat)
    requires 0 < c <= Pow2(v.width) && ForIndices(Counting(v, a, b, c), n, limit).Some?
    requires IndicesFit(Counting(v, a, b, c), ForIndices(Counting(v, a, b, c), n, limit).value)
    ensures n < b ==> b <= b + (n - b) % c < Limit(v)
  {
    CountingFitsIff(v, a, b, c, n, limit);
  }

  predicate FoldsAsStored(h: Head, n: int, limit: nat)
    requires h.For?
  {
    FoldedIndices(h, n, limit, h.v.width) == StoredIndices(h, n, limit)
  }

  // A signed variable of the folded width, as an int in 32 bits, is folded like it is
  // stored, even where it overflows.
  lemma {:induction false} FullWidthIsStored(v: Var, a: int, b: int, c: int, n: int, limit: nat)
    requires v.signed && v.width > 0 && InWidth(n, v.width) && InWidth(b, v.width) && InWidth(c, v.width)
    ensures FoldsAsStored(Counting(v, a, b, c), n, limit)
    decreases limit
  {
    if n < b && limit > 0 {
      CutIsFit(v, n + c);
      FullWidthIsStored(v, a, b, c, Fit(v, n + c), limit - 1);
    }
    FullWidthTurn(v, a, b, c, n, limit);
  }

  lemma {:induction false} FullWidthTurn(v: Var, a: int, b: int, c: int, n: int, limit: nat)
    requires v.signed && v.width > 0 && InWidth(n, v.width) && InWidth(b, v.width) && InWidth(c, v.width)
    requires n < b && limit > 0 ==> FoldsAsStored(Counting(v, a, b, c), Fit(v, n + c), limit - 1)
    ensures FoldsAsStored(Counting(v, a, b, c), n, limit)
  {
    CountingValues(v, a, b, c, n);
    CountingFolds(v, a, b, c, n, v.width);
    CutIsFit(v, n);
    CutIsFit(v, n + c);
    if n >= b || limit == 0 {
      LastTurn(Counting(v, a, b, c), n, limit);
    } else {
      TurnsAlike(Counting(v, a, b, c), n, limit, n + c);
    }
  }

  lemma {:induction false} CutIsFit(v: Var, n: int)
    requires v.signed && v.width > 0
    ensures Cut(n, v.width) == Fit(v, n) && InWidth(Fit(v, n), v.width) && (InWidth(n, v.width) ==> Fit(v, n) == n)
  {
    CutIffInWidth(n, v.width);
  }

  lemma {:induction false} LastTurn(h: Head, n: int, limit: nat)
    requires h.For? && Fit(h.v, n) == n
    requires var c := SubstExpr(h.cond, h.v, n);
             IsConst(c) && Folded(c, h.v.width) == Value(c) && (Value(c) == 0 || limit == 0)
    ensures FoldsAsStored(h, n, limit)
  {
  }

  lemma {:induction false} TurnsAlike(h: Head, n: int, limit: nat, next: int)
    requires h.For? && Fit(h.v, n) == n && limit > 0
    requires var c := SubstExpr(h.cond, h.v, n); IsConst(c) && Folded(c, h.v.width) == Value(c) != 0
    requires var st := SubstExpr(h.step, h.v, n);
             IsConst(st) && Value(st) == next && Folded(st, h.v.width) == Fit(h.v, next)
    requires FoldsAsStored(h, Fit(h.v, next), limit - 1)
    ensures FoldsAsStored(h, n, limit)
  {
    StoredAgain(h, next, limit - 1);
  }

  // Storing a value twice changes nothing.
  lemma {:induction false} StoredAgain(h: Head, n: int, limit: nat)
    requires h.For?
    ensures StoredIndices(h, Fit(h.v, n), limit) == StoredIndices(h, n, limit)
  {
    FitInRange(h.v, n);
    FitInRange(h.v, Fit(h.v, n));
  }
}
