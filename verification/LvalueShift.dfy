// Assignments to a select with a variable index, foo[idx +: n] = v, become either a mask and
// shift computation or a case block over all start bits.
module LvalueShift {
  import opened BitVectors

  // ---------- the expressions of the resulting block ----------

  datatype Amount = Index | Num(n: int) | Minus(a: Amount, b: Amount) | Neg(a: Amount)

  // Shift moves towards the lower end for positive amounts.
  datatype Expr =
    | Lit(bits: Bits)
    | Value(bits: Bits, signed: bool)
    | Mask
    | Data
    | Old
    | Not(e: Expr)
    | And(l: Expr, r: Expr)
    | Or(l: Expr, r: Expr)
    | Shift(e: Expr, amount: Amount)

  datatype Assign = SetSel(index: int) | SetMask(e: Expr) | SetData(e: Expr) | SetWire(e: Expr)

  datatype State = State(wire: Bits, mask: Bits, data: Bits, sel: int)

  function Amt(a: Amount, sel: int): int {
    match a
    case Index => sel
    case Num(n) => n
    case Minus(x, y) => Amt(x, sel) - Amt(y, sel)
    case Neg(x) => -Amt(x, sel)
  }

  function Width(e: Expr, st: State): nat {
    match e
    case Lit(b) => |b|
    case Value(b, _) => |b|
    case Mask => |st.mask|
    case Data => |st.data|
    case Old => |st.wire|
    case Not(x) => Width(x, st)
    case And(l, r) => MaxNat(Width(l, st), Width(r, st))
    case Or(l, r) => MaxNat(Width(l, st), Width(r, st))
    case Shift(x, _) => Width(x, st)
  }

  // An expression is signed only if all its operands are (section 11.8.1 of IEEE 1800-2017).
  predicate Signed(e: Expr) {
    match e
    case Value(_, s) => s
    case Not(x) => Signed(x)
    case And(l, r) => Signed(l) && Signed(r)
    case Or(l, r) => Signed(l) && Signed(r)
    case Shift(x, _) => Signed(x)
    case _ => false
  }

  // Operands are extended to the width of the whole expression first.
  function Eval(e: Expr, st: State, w: nat, signed: bool): (r: Bits)
    ensures |r| == w
  {
    match e
    case Lit(b) => Extend(b, w, signed)
    case Value(b, _) => Extend(b, w, signed)
    case Mask => Extend(st.mask, w, signed)
    case Data => Extend(st.data, w, signed)
    case Old => Extend(st.wire, w, signed)
    case Not(x) => var v := Eval(x, st, w, signed); seq(w, i requires 0 <= i < w => !v[i])
    case And(l, r) =>
      var a, b := Eval(l, st, w, signed), Eval(r, st, w, signed);
      seq(w, i requires 0 <= i < w => a[i] && b[i])
    case Or(l, r) =>
      var a, b := Eval(l, st, w, signed), Eval(r, st, w, signed);
      seq(w, i requires 0 <= i < w => a[i] || b[i])
    case Shift(x, n) =>
      var v := Eval(x, st, w, signed);
      seq(w, i requires 0 <= i < w => BitAt(v, i + Amt(n, st.sel)))
  }

  // What an assignment to a target of the given width stores.
  function Stored(e: Expr, st: State, width: nat): (r: Bits)
    ensures |r| == width
  {
    Eval(e, st, MaxNat(width, Width(e, st)), Signed(e))[..width]
  }

  function Exec(a: Assign, st: State): State {
    match a
    case SetSel(i) => st.(sel := i)
    case SetMask(e) => st.(mask := Stored(e, st, |st.mask|))
    case SetData(e) => st.(data := Stored(e, st, |st.data|))
    case SetWire(e) => st.(wire := Stored(e, st, |st.wire|))
  }

  function Run(block: seq<Assign>, st: State): State {
    if block == [] then st else Run(block[1..], Exec(block[0], st))
  }

  // ---------- what the assignment means ----------

  // A wire with declared indices offset .. offset + width - 1, counted upwards from bit 0
  // or, for an ascending range, downwards.
  datatype Wire = Wire(width: nat, offset: int, swapped: bool)

  function Declared(w: Wire, p: int): int {
    if w.swapped then w.offset + w.width - 1 - p else w.offset + p
  }

  // The position in the wire of bit k of a value of n bits assigned at idx.
  function Position(w: Wire, idx: int, n: nat, k: int): int {
    if w.swapped then w.width - n - (idx - w.offset) + k else idx - w.offset + k
  }

  // The bits whose declared indices are idx .. idx + n - 1 take the value, which for an
  // ascending wire has its top bit at idx; all others keep theirs.
  function Updated(w: Wire, prior: Bits, idx: int, n: nat, v: Bits): (r: Bits)
    requires |prior| == w.width && |v| == n
    ensures |r| == |prior|
  {
    seq(|prior|, p requires 0 <= p < |prior| =>
      var d := Declared(w, p);
      if idx <= d < idx + n then (if w.swapped then v[idx + n - 1 - d] else v[d - idx]) else prior[p])
  }

  lemma {:induction false} UpdatedAt(w: Wire, prior: Bits, idx: int, n: nat, v: Bits, k: nat)
    requires |prior| == w.width && |v| == n && k < n && 0 <= Position(w, idx, n, k) < w.width
    ensures Updated(w, prior, idx, n, v)[Position(w, idx, n, k)] == v[k]
  {
  }

  // ---------- mask and shift ----------

  function ShiftAmount(w: Wire, n: nat): Amount {
    var fromOffset := Minus(Index, Num(w.offset));
    Neg(if w.swapped then Minus(Num(w.width - n), fromOffset) else fromOffset)
  }

  function MaskAndShift(w: Wire, idx: int, n: nat, rhs: Bits, signed: bool): seq<Assign> {
    var amount := ShiftAmount(w, n);
    [ SetSel(idx),
      SetMask(Shift(Lit(Ones(n)), amount)),
      SetData(Shift(And(Lit(Ones(n)), Value(rhs, signed)), amount)),
      SetWire(Or(And(Old, Not(Mask)), Data)) ]
  }

  // The two helper wires are as wide as the wire.
  predicate Sized(w: Wire, st: State) {
    |st.wire| == |st.mask| == |st.data| == w.width
  }

  lemma {:induction false} ShiftedBit(e: Expr, a: Amount, st: State, width: nat, p: nat)
    requires p < width
    ensures Stored(Shift(e, a), st, width)[p] == BitAt(Eval(e, st, MaxNat(width, Width(e, st)), Signed(e)), p + Amt(a, st.sel))
  {
    var w := MaxNat(width, Width(e, st));
    assert Eval(Shift(e, a), st, w, Signed(e))[p] == BitAt(Eval(e, st, w, Signed(e)), p + Amt(a, st.sel));
  }

  // The shift moves bit p down to its place in the value, or out of it.
  lemma {:induction false} AmountReaches(w: Wire, idx: int, n: nat, p: nat)
    requires p < w.width
    ensures var d := Declared(w, p);
            p + Amt(ShiftAmount(w, n), idx) == if w.swapped then idx + n - 1 - d else d - idx
  {
    var fromOffset := Minus(Index, Num(w.offset));
    assert Amt(fromOffset, idx) == idx - w.offset;
    assert Amt(Minus(Num(w.width - n), fromOffset), idx) == w.width - n - (idx - w.offset);
  }

  lemma {:induction false} MaskBits(w: Wire, st: State, idx: int, n: nat, p: nat)
    requires Sized(w, st) && st.sel == idx && p < w.width
    ensures Stored(Shift(Lit(Ones(n)), ShiftAmount(w, n)), st, w.width)[p] == (idx <= Declared(w, p) < idx + n)
  {
    ShiftedBit(Lit(Ones(n)), ShiftAmount(w, n), st, w.width, p);
    AmountReaches(w, idx, n, p);
  }

  lemma {:induction false} MaskedValue(rhs: Bits, signed: bool, n: nat, st: State, w: nat, j: int)
    requires w >= n && w >= |rhs|
    ensures BitAt(Eval(And(Lit(Ones(n)), Value(rhs, signed)), st, w, false), j) == (0 <= j < n && BitAt(rhs, j))
  {
    var a, b := Eval(Lit(Ones(n)), st, w, false), Eval(Value(rhs, signed), st, w, false);
    assert 0 <= j < w ==> Eval(And(Lit(Ones(n)), Value(rhs, signed)), st, w, false)[j] == (a[j] && b[j]);
  }

  lemma {:induction false} DataBits(w: Wire, st: State, idx: int, n: nat, rhs: Bits, signed: bool, p: nat)
    requires Sized(w, st) && st.sel == idx && p < w.width
    ensures var d := Declared(w, p);
            var k := if w.swapped then idx + n - 1 - d else d - idx;
            Stored(Shift(And(Lit(Ones(n)), Value(rhs, signed)), ShiftAmount(w, n)), st, w.width)[p] ==
            (idx <= d < idx + n && BitAt(rhs, k))
  {
    var e := And(Lit(Ones(n)), Value(rhs, signed));
    assert !Signed(e) by { assert !Signed(Lit(Ones(n))); }
    ShiftedBit(e, ShiftAmount(w, n), st, w.width, p);
    AmountReaches(w, idx, n, p);
    assert Width(e, st) == MaxNat(n, |rhs|) by { assert Width(Lit(Ones(n)), st) == n && Width(Value(rhs, signed), st) == |rhs|; }
    MaskedValue(rhs, signed, n, st, MaxNat(w.width, Width(e, st)), p + Amt(ShiftAmount(w, n), idx));
  }

  // Mask and shift changes exactly the selected bits that exist, for any index, offset and
  // direction. The value is extended with zeros, whatever its sign.
  lemma {:induction false} MaskAndShiftUpdates(w: Wire, st: State, idx: int, n: nat, rhs: Bits, signed: bool)
    requires Sized(w, st)
    ensures Run(MaskAndShift(w, idx, n, rhs, signed), st).wire == Updated(w, st.wire, idx, n, Extend(rhs, n, false))
  {
    var block := MaskAndShift(w, idx, n, rhs, signed);
    var s1 := Exec(block[0], st);
    var s2 := Exec(block[1], s1);
    var s3 := Exec(block[2], s2);
    var s4 := Exec(block[3], s3);
    RunFour(block, st);
    forall p | 0 <= p < w.width
      ensures s4.wire[p] == Updated(w, st.wire, idx, n, Extend(rhs, n, false))[p]
    {
      MaskBits(w, s1, idx, n, p);
      DataBits(w, s2, idx, n, rhs, signed, p);
      CombineBits(s3, p);
    }
  }

  lemma {:induction false} RunFour(block: seq<Assign>, st: State)
    requires |block| == 4
    ensures Run(block, st) == Exec(block[3], Exec(block[2], Exec(block[1], Exec(block[0], st))))
  {
    assert block[1..][1..] == block[2..] && block[2..][1..] == block[3..] && block[3..][1..] == [];
    var s2 := Exec(block[1], Exec(block[0], st));
    assert Run(block[2..], s2) == Run(block[3..], Exec(block[2], s2));
    assert Run(block[3..], Exec(block[2], s2)) == Run([], Exec(block[3], Exec(block[2], s2)));
  }

  lemma {:induction false} CombineBits(st: State, p: nat)
    requires |st.wire| == |st.mask| == |st.data| && p < |st.wire|
    ensures Stored(Or(And(Old, Not(Mask)), Data), st, |st.wire|)[p] == ((st.wire[p] && !st.mask[p]) || st.data[p])
  {
    var w := |st.wire|;
    var kept := And(Old, Not(Mask));
    assert Width(Not(Mask), st) == w && Width(kept, st) == w && Width(Or(kept, Data), st) == w;
    assert !Signed(kept);
    assert Eval(Not(Mask), st, w, false)[p] == !st.mask[p];
    assert Eval(kept, st, w, false)[p] == (st.wire[p] && !st.mask[p]);
    assert Eval(Or(kept, Data), st, w, false)[p] == ((st.wire[p] && !st.mask[p]) || st.data[p]);
  }

  // The zero extension is visible: a negative value that is too narrow, with one of the
  // missing bits inside the wire.
  predicate LosesSign(w: Wire, idx: int, n: nat, rhs: Bits, signed: bool) {
    signed && rhs != [] && rhs[|rhs| - 1] &&
    exists k: nat | |rhs| <= k < n :: 0 <= Position(w, idx, n, k) < w.width
  }

  // Mask and shift is the assignment itself exactly when no sign bits are lost.
  lemma {:induction false} MaskAndShiftAssignsIff(w: Wire, st: State, idx: int, n: nat, rhs: Bits, signed: bool)
    requires Sized(w, st)
    ensures Run(MaskAndShift(w, idx, n, rhs, signed), st).wire == Updated(w, st.wire, idx, n, Extend(rhs, n, signed))
            <==> !LosesSign(w, idx, n, rhs, signed)
  {
    MaskAndShiftUpdates(w, st, idx, n, rhs, signed);
    var a, b := Extend(rhs, n, false), Extend(rhs, n, signed);
    var u, v := Updated(w, st.wire, idx, n, a), Updated(w, st.wire, idx, n, b);
    if LosesSign(w, idx, n, rhs, signed) {
      var k: nat :| |rhs| <= k < n && 0 <= Position(w, idx, n, k) < w.width;
      UpdatedAt(w, st.wire, idx, n, a, k);
      UpdatedAt(w, st.wire, idx, n, b, k);
      assert u[Position(w, idx, n, k)] != v[Position(w, idx, n, k)];
    } else {
      forall p | 0 <= p < w.width ensures u[p] == v[p] { SameBit(w, st.wire, idx, n, rhs, signed, p); }
    }
  }

  lemma {:induction false} SameBit(w: Wire, prior: Bits, idx: int, n: nat, rhs: Bits, signed: bool, p: nat)
    requires |prior| == w.width && p < w.width && !LosesSign(w, idx, n, rhs, signed)
    ensures Updated(w, prior, idx, n, Extend(rhs, n, false))[p] == Updated(w, prior, idx, n, Extend(rhs, n, signed))[p]
  {
    var d := Declared(w, p);
    if idx <= d < idx + n {
      var k := if w.swapped then idx + n - 1 - d else d - idx;
      assert Position(w, idx, n, k) == p;
    }
  }

  // ---------- the case block ----------

  // Label and the range its branch assigns.
  datatype Item = Item(index: int, left: int, right: int)

  function ItemOf(w: Wire, n: nat, i: nat): Item {
    var start := w.offset + i;
    Item(start, (if start + n < w.width then start + n else w.width) - 1, start)
  }

  method CaseItems(w: Wire, n: nat) returns (items: seq<Item>)
    ensures items == AllItems(w, n)
  {
    items := [];
    for i := 0 to w.width
      invariant items == AllItems(w, n)[..i]
    {
      items := items + [ItemOf(w, n, i)];
    }
  }

  function AllItems(w: Wire, n: nat): (r: seq<Item>)
    ensures |r| == w.width
  {
    seq(w.width, i requires 0 <= i < w.width => ItemOf(w, n, i))
  }

  // The branches, for a wire whose declared indices are its positions.
  function RunCase(items: seq<Item>, idx: int, prior: Bits, rhs: Bits, signed: bool): (r: Bits)
    ensures |r| == |prior|
  {
    if items == [] then prior
    else if items[0].index != idx then RunCase(items[1..], idx, prior, rhs, signed)
    else AssignRange(prior, items[0].left, items[0].right, rhs, signed)
  }

  function AssignRange(prior: Bits, left: int, right: int, rhs: Bits, signed: bool): (r: Bits)
    ensures |r| == |prior|
  {
    var v := if left >= right then Extend(rhs, left - right + 1, signed) else [];
    seq(|prior|, p requires 0 <= p < |prior| => if right <= p <= left then v[p - right] else prior[p])
  }

  lemma {:induction false} CaseTaken(items: seq<Item>, i: nat, idx: int, prior: Bits, rhs: Bits, signed: bool)
    requires forall j | 0 <= j < |items| :: items[j].index == i + j
    ensures RunCase(items, idx, prior, rhs, signed) ==
            if i <= idx < i + |items| then AssignRange(prior, items[idx - i].left, items[idx - i].right, rhs, signed) else prior
  {
    if items != [] && items[0].index != idx {
      CaseTaken(items[1..], i + 1, idx, prior, rhs, signed);
    }
  }

  // For a descending zero-based wire and a non-negative index the case block is the
  // assignment; past the top nothing changes.
  lemma {:induction false} CaseUpdates(w: Wire, prior: Bits, idx: nat, n: nat, rhs: Bits, signed: bool)
    requires |prior| == w.width && w.offset == 0 && !w.swapped && n > 0
    ensures RunCase(AllItems(w, n), idx, prior, rhs, signed) == Updated(w, prior, idx, n, Extend(rhs, n, signed))
  {
    CaseTaken(AllItems(w, n), 0, idx, prior, rhs, signed);
    if idx < w.width {
      ClippedAssign(w, prior, idx, n, rhs, signed);
    }
  }

  lemma {:induction false} ClippedAssign(w: Wire, prior: Bits, idx: nat, n: nat, rhs: Bits, signed: bool)
    requires |prior| == w.width && w.offset == 0 && !w.swapped && n > 0 && idx < w.width
    ensures AssignRange(prior, ItemOf(w, n, idx).left, idx, rhs, signed) == Updated(w, prior, idx, n, Extend(rhs, n, signed))
  {
    var a, b := AssignRange(prior, ItemOf(w, n, idx).left, idx, rhs, signed), Updated(w, prior, idx, n, Extend(rhs, n, signed));
    forall p | 0 <= p < |prior| ensures a[p] == b[p] {
    }
  }

  // For every index, the case block is the assignment on all wire contents if and only if
  // the select does not hang over the lower end.
  lemma {:induction false} CaseAssignsIff(w: Wire, idx: int, n: nat, rhs: Bits, signed: bool)
    requires w.width > 0 && w.offset == 0 && !w.swapped && n > 0
    ensures (forall prior: Bits | |prior| == w.width ::
               RunCase(AllItems(w, n), idx, prior, rhs, signed) == Updated(w, prior, idx, n, Extend(rhs, n, signed)))
            <==> (idx >= 0 || idx + n <= 0)
  {
    var v := Extend(rhs, n, signed);
    forall prior: Bits | |prior| == w.width && (idx >= 0 || idx + n <= 0)
      ensures RunCase(AllItems(w, n), idx, prior, rhs, signed) == Updated(w, prior, idx, n, v)
    {
      if idx >= 0 {
        CaseUpdates(w, prior, idx, n, rhs, signed);
      } else {
        CaseTaken(AllItems(w, n), 0, idx, prior, rhs, signed);
        assert Updated(w, prior, idx, n, v) == prior;
      }
    }
    if idx < 0 < idx + n {
      var prior := seq(w.width, i => !v[-idx]);
      CaseTaken(AllItems(w, n), 0, idx, prior, rhs, signed);
      UpdatedAt(w, prior, idx, n, v, -idx);
      assert RunCase(AllItems(w, n), idx, prior, rhs, signed)[0] != Updated(w, prior, idx, n, v)[0];
    }
  }

  // Both forms agree on every wire content if the select has no part below bit 0 and the
  // value keeps its sign.
  lemma {:induction false} FormsAgree(w: Wire, st: State, idx: nat, n: nat, rhs: Bits, signed: bool)
    requires Sized(w, st) && w.offset == 0 && !w.swapped && n > 0
    ensures RunCase(AllItems(w, n), idx, st.wire, rhs, signed) == Run(MaskAndShift(w, idx, n, rhs, signed), st).wire
            <==> !LosesSign(w, idx, n, rhs, signed)
  {
    CaseUpdates(w, st.wire, idx, n, rhs, signed);
    MaskAndShiftAssignsIff(w, st, idx, n, rhs, signed);
  }

  // The range that a branch should assign: the selected indices that the wire declares.
  function Clipped(w: Wire, n: nat, i: nat): Item {
    var start, top := w.offset + i, w.offset + w.width;
    Item(start, (if start + n < top then start + n else top) - 1, start)
  }

  // Branch ranges are cut off at the width of the wire instead of its top index, so on
  // wires that do not start at 0 they are right only for single bits of negative offsets.
  lemma {:induction false} RangesRightIff(w: Wire, n: nat)
    requires w.width > 0 && n > 0 && !w.swapped
    ensures (forall i | 0 <= i < w.width :: ItemOf(w, n, i) == Clipped(w, n, i)) <==> (w.offset == 0 || (w.offset < 0 && n == 1))
  {
    if w.offset != 0 && !(w.offset < 0 && n == 1) {
      assert ItemOf(w, n, w.width - 1) != Clipped(w, n, w.width - 1);
    }
  }
}
