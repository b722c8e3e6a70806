// Case statements whose selector is a defined constant lose the branches that cannot be
// taken.
module CasePruning {
  import opened Arithmetic
  import opened BitVectors

  // An item of a branch: the default mark, a fully defined constant, or anything else,
  // whose comparison with the selector is not known before run time.
  datatype Label = Default | Constant(bits: Bits) | Open(id: nat)

  datatype Branch = Branch(labels: seq<Label>, body: nat)

  // Selector and items are compared in the common width and sign of the statement.
  datatype Context = Context(width: nat, signed: bool, selector: Bits)

  predicate Equal(c: Context, bits: Bits) {
    Extend(bits, c.width, c.signed) == Extend(c.selector, c.width, c.signed)
  }

  // The number a vector stands for, unsigned or in two's complement.
  function Number(v: Bits, signed: bool): int {
    if signed && v != [] && v[|v| - 1] then Unsigned(v) - Pow2(|v|) else Unsigned(v)
  }

  function Unsigned(v: Bits): nat {
    if v == [] then 0 else Unsigned(v[..|v| - 1]) + if v[|v| - 1] then Pow2(|v| - 1) else 0
  }

  lemma {:induction false} UnsignedBounds(v: Bits)
    ensures Unsigned(v) < Pow2(|v|)
    ensures v != [] ==> (v[|v| - 1] <==> Unsigned(v) >= Pow2(|v| - 1))
  {
    if v != [] { UnsignedBounds(v[..|v| - 1]); }
  }

  lemma {:induction false} SameUnsigned(a: Bits, b: Bits)
    requires |a| == |b|
    ensures Unsigned(a) == Unsigned(b) <==> a == b
  {
    if a != [] {
      var n := |a| - 1;
      UnsignedBounds(a);
      UnsignedBounds(b);
      SameUnsigned(a[..n], b[..n]);
      if a[..n] == b[..n] && a[n] == b[n] { assert a == a[..n] + [a[n]] && b == b[..n] + [b[n]]; }
    }
  }

  lemma {:induction false} ExtendNumber(v: Bits, width: nat, signed: bool)
    requires |v| <= width
    ensures Number(Extend(v, width, signed), signed) == Number(v, signed)
    decreases width - |v|
  {
    if |v| == width {
      assert Extend(v, width, signed) == v;
    } else {
      var top := signed && v != [] && v[|v| - 1];
      var w := v + [top];
      assert w[..|v|] == v;
      ExtendNumber(w, width, signed);
      assert Extend(w, width, signed) == Extend(v, width, signed);
      assert Unsigned(w) == Unsigned(v) + if top then Pow2(|v|) else 0;
    }
  }

  // The pass compares numbers: where the context is as wide as both vectors, they are
  // equal exactly when the numbers are, signed or not.
  lemma {:induction false} EqualIff(c: Context, bits: Bits)
    requires |bits| <= c.width && |c.selector| <= c.width
    ensures Equal(c, bits) <==> Number(bits, c.signed) == Number(c.selector, c.signed)
  {
    var a, b := Extend(bits, c.width, c.signed), Extend(c.selector, c.width, c.signed);
    ExtendNumber(bits, c.width, c.signed);
    ExtendNumber(c.selector, c.width, c.signed);
    SameUnsigned(a, b);
    UnsignedBounds(a);
    UnsignedBounds(b);
  }

  // ---------- which branch is taken ----------

  // Run-time outcomes of the open comparisons.
  type Outcomes = nat -> bool

  predicate Hit(c: Context, l: Label, o: Outcomes) {
    match l
    case Default => false
    case Constant(b) => Equal(c, b)
    case Open(id) => o(id)
  }

  predicate Matches(c: Context, b: Branch, o: Outcomes) {
    exists i | 0 <= i < |b.labels| :: Hit(c, b.labels[i], o)
  }

  predicate HasDefault(b: Branch) {
    exists i | 0 <= i < |b.labels| :: b.labels[i] == Default
  }

  datatype Taken = Nothing | Body(body: nat)

  // The first matching branch, wherever the default stands; without a match the default,
  // the last one if there are several.
  function Take(c: Context, branches: seq<Branch>, o: Outcomes): Taken {
    TakeOr(c, branches, o, Nothing)
  }

  function TakeOr(c: Context, branches: seq<Branch>, o: Outcomes, otherwise: Taken): Taken {
    if branches == [] then otherwise
    else if Matches(c, branches[0], o) then Body(branches[0].body)
    else TakeOr(c, branches[1..], o, if HasDefault(branches[0]) then Body(branches[0].body) else otherwise)
  }

  // ---------- the pass ----------

  // Final: matches for certain. Keep: may match, or is the default. Drop: cannot match.
  datatype Verdict = Final | Keep | Drop

  // The first item that decides.
  function Judge(c: Context, labels: seq<Label>): Verdict {
    if labels == [] then Drop
    else
      match labels[0]
      case Default => Keep
      case Open(_) => Keep
      case Constant(b) => if Equal(c, b) then Final else Judge(c, labels[1..])
  }

  function Pruned(c: Context, branches: seq<Branch>): seq<Branch> {
    if branches == [] then []
    else
      match Judge(c, branches[0].labels)
      case Final => [branches[0]]
      case Keep => [branches[0]] + Pruned(c, branches[1..])
      case Drop => Pruned(c, branches[1..])
  }

  method JudgeLabels(c: Context, labels: seq<Label>) returns (verdict: Verdict)
    ensures verdict == Judge(c, labels)
  {
    verdict := Drop;
    var v := 0;
    while v < |labels| && verdict == Drop
      invariant 0 <= v <= |labels|
      invariant Judge(c, labels) == if verdict == Drop then Judge(c, labels[v..]) else verdict
    {
      assert labels[v..][1..] == labels[v + 1..];
      match labels[v] {
        case Default => verdict := Keep;
        case Open(_) => verdict := Keep;
        case Constant(b) => verdict := if Equal(c, b) then Final else Drop;
      }
      v := v + 1;
    }
  }

  method Prune(c: Context, branches: seq<Branch>) returns (kept: seq<Branch>)
    ensures kept == Pruned(c, branches)
  {
    kept := [];
    var i := 0;
    while i < |branches|
      invariant 0 <= i <= |branches| && Pruned(c, branches) == kept + Pruned(c, branches[i..])
    {
      var child := branches[i];
      PruneStep(c, branches, i, kept);
      var verdict := JudgeLabels(c, child.labels);
      if verdict != Drop {
        kept := kept + [child];
      }
      if verdict == Final {
        return;
      }
      i := i + 1;
    }
  }

  lemma {:induction false} PruneStep(c: Context, branches: seq<Branch>, i: nat, kept: seq<Branch>)
    requires i < |branches|
    ensures kept + Pruned(c, branches[i..]) ==
            match Judge(c, branches[i].labels)
            case Final => kept + [branches[i]]
            case Keep => (kept + [branches[i]]) + Pruned(c, branches[i + 1..])
            case Drop => kept + Pruned(c, branches[i + 1..])
  {
    assert branches[i..][0] == branches[i] && branches[i..][1..] == branches[i + 1..];
  }

  // ---------- the same branch is taken ----------

  lemma {:induction false} JudgeFinal(c: Context, labels: seq<Label>) returns (i: nat)
    requires Judge(c, labels) == Final
    ensures i < |labels| && labels[i].Constant? && Equal(c, labels[i].bits)
  {
    if labels[0].Constant? && Equal(c, labels[0].bits) {
      i := 0;
    } else {
      i := JudgeFinal(c, labels[1..]);
      i := i + 1;
    }
  }

  lemma {:induction false} JudgeDrop(c: Context, labels: seq<Label>, i: nat)
    requires Judge(c, labels) == Drop && i < |labels|
    ensures labels[i].Constant? && !Equal(c, labels[i].bits)
  {
    if i > 0 { JudgeDrop(c, labels[1..], i - 1); }
  }

  lemma {:induction false} PrunedTakesOr(c: Context, branches: seq<Branch>, o: Outcomes, otherwise: Taken)
    ensures TakeOr(c, Pruned(c, branches), o, otherwise) == TakeOr(c, branches, o, otherwise)
  {
    if branches != [] {
      var b := branches[0];
      match Judge(c, b.labels)
      case Final =>
        var i := JudgeFinal(c, b.labels);
        assert Hit(c, b.labels[i], o);
      case Keep =>
        var rest := Pruned(c, branches[1..]);
        assert ([b] + rest)[1..] == rest;
        PrunedTakesOr(c, branches[1..], o, if HasDefault(b) then Body(b.body) else otherwise);
      case Drop =>
        forall i: nat | i < |b.labels| ensures b.labels[i].Constant? && !Equal(c, b.labels[i].bits) { JudgeDrop(c, b.labels, i); }
        PrunedTakesOr(c, branches[1..], o, otherwise);
    }
  }

  // Whatever the open comparisons turn out to be, the pruned statement takes the same branch.
  lemma {:induction false} PrunedTakesSame(c: Context, branches: seq<Branch>, o: Outcomes)
    ensures Take(c, Pruned(c, branches), o) == Take(c, branches, o)
  {
    PrunedTakesOr(c, branches, o, Nothing);
  }

  // ---------- nothing more could go ----------

  // A second pass changes nothing, and a branch that matches for certain is the last one.
  lemma {:induction false} PruningIsComplete(c: Context, branches: seq<Branch>)
    ensures Pruned(c, Pruned(c, branches)) == Pruned(c, branches)
    ensures forall i | 0 <= i < |Pruned(c, branches)| - 1 :: Judge(c, Pruned(c, branches)[i].labels) == Keep
  {
    if branches != [] {
      var rest := Pruned(c, branches[1..]);
      PruningIsComplete(c, branches[1..]);
      assert ([branches[0]] + rest)[1..] == rest;
      assert [branches[0]][1..] == [];
    }
  }

  // A branch that was kept is the default, or matches when all open comparisons succeed.
  lemma {:induction false} KeptForAReason(c: Context, b: Branch)
    requires Judge(c, b.labels) != Drop
    ensures HasDefault(b) || Matches(c, b, (id: nat) => true)
  {
    KeptItem(c, b.labels, b);
  }

  lemma {:induction false} KeptItem(c: Context, labels: seq<Label>, b: Branch)
    requires Judge(c, labels) != Drop && |labels| <= |b.labels| && labels == b.labels[|b.labels| - |labels|..]
    ensures HasDefault(b) || Matches(c, b, (id: nat) => true)
  {
    var i := |b.labels| - |labels|;
    assert labels[0] == b.labels[i];
    if labels[0].Constant? && !Equal(c, labels[0].bits) {
      KeptItem(c, labels[1..], b);
    } else if !labels[0].Default? {
      assert Hit(c, b.labels[i], (id: nat) => true);
    }
  }

  // ---------- which branches are kept ----------

  // One item equals the selector, and all items before it are constants that do not.
  ghost predicate Sure(c: Context, b: Branch) {
    exists i | 0 <= i < |b.labels| :: SureAt(c, b.labels, i)
  }

  ghost predicate SureAt(c: Context, labels: seq<Label>, i: nat)
    requires i < |labels|
  {
    && labels[i].Constant? && Equal(c, labels[i].bits)
    && forall j | 0 <= j < i :: labels[j].Constant? && !Equal(c, labels[j].bits)
  }

  // All items are constants, and none equals the selector.
  ghost predicate Dead(c: Context, labels: seq<Label>) {
    forall i | 0 <= i < |labels| :: labels[i].Constant? && !Equal(c, labels[i].bits)
  }

  lemma {:induction false} JudgeIff(c: Context, labels: seq<Label>)
    ensures Judge(c, labels) == Final <==> exists i | 0 <= i < |labels| :: SureAt(c, labels, i)
    ensures Judge(c, labels) == Drop <==> Dead(c, labels)
  {
    if labels != [] {
      var rest := labels[1..];
      JudgeIff(c, rest);
      if labels[0].Constant? {
        if Equal(c, labels[0].bits) { assert SureAt(c, labels, 0); }
        if i :| 0 <= i < |rest| && !Equal(c, labels[0].bits) && SureAt(c, rest, i) {
          assert SureAt(c, labels, i + 1) by {
            assert forall j | 0 < j < i + 1 :: labels[j] == rest[j - 1];
          }
        }
        if i :| 0 < i < |labels| && SureAt(c, labels, i) {
          assert SureAt(c, rest, i - 1) by {
            assert forall j | 0 <= j < i - 1 :: rest[j] == labels[j + 1];
          }
        }
        if Dead(c, labels) { assert Dead(c, rest) by { assert forall i | 0 <= i < |rest| :: rest[i] == labels[i + 1]; } }
        if Dead(c, rest) && !Equal(c, labels[0].bits) {
          assert forall i | 0 < i < |labels| :: labels[i] == rest[i - 1];
        }
      }
    }
  }

  // A branch alone goes exactly if it is dead.
  lemma {:induction false} OneBranch(c: Context, b: Branch)
    ensures Pruned(c, [b]) == if Dead(c, b.labels) then [] else [b]
  {
    JudgeIff(c, b.labels);
    assert [b][1..] == [];
  }

  // Everything after a sure branch goes, and otherwise branches are kept one by one.
  lemma {:induction false} PrunedSplits(c: Context, a: seq<Branch>, b: seq<Branch>)
    ensures Pruned(c, a + b) ==
            if exists i | 0 <= i < |a| :: Sure(c, a[i]) then Pruned(c, a) else Pruned(c, a) + Pruned(c, b)
  {
    if a == [] {
      assert a + b == b;
    } else {
      var rest := a[1..];
      assert (a + b)[1..] == rest + b;
      PrunedSplits(c, rest, b);
      JudgeIff(c, a[0].labels);
      assert Judge(c, a[0].labels) == Final <==> Sure(c, a[0]);
      if i :| 0 <= i < |rest| && Sure(c, rest[i]) { assert Sure(c, a[i + 1]); }
      if i :| 0 < i < |a| && Sure(c, a[i]) { assert Sure(c, rest[i - 1]); }
    }
  }
}
