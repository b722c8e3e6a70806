// Two accesses to a struct { bit [3:0] x, y; } whose range is not that of the declared bits.
module AccessFailures {
  import opened Wrappers
  import opened Dimensions
  import opened PackedLayout
  import opened IndexSelects
  import opened StructPaths
  import opened StructAccess

  function Nibble(id: nat, name: string): Field {
    Field(id, name, Item(4), [Dim(0, 4, false)])
  }

  const PAIR := Field(0, "s", Struct([Nibble(1, "x"), Nibble(2, "y")]), [])

  lemma {:induction false} PairLayout()
    ensures Proper(PAIR) && UnionsAgree(PAIR) && Distinct(PAIR) && ElemWidth(PAIR) == 8
    ensures MemberOffset(PAIR, 0) == 4 && MemberOffset(PAIR, 1) == 0
    ensures Find(PAIR.kind.members, "x") == 0 && Find(PAIR.kind.members, "y") == 1
  {
    var ms := PAIR.kind.members;
    var x, y := Nibble(1, "x"), Nibble(2, "y");
    assert ms[1..] == [y] && [y][1..] == [] && ms[2..] == [];
    OneDim(Dim(0, 4, false), 0);
    assert Proper(x) && Proper(y) && ProperAll([y]) && ProperAll(ms);
    assert UnionsAgreeAll([y]) && UnionsAgreeAll(ms);
    assert Ids(x) == {} && Ids(y) == {} && IdsAll([y]) == {2} && DistinctAll([y]) && DistinctAll(ms);
    assert TotalWidth([y]) == 4 && TotalWidth(ms) == 8;
    assert "x" != "y" && Find([y], "y") == 0;
  }

  // In x[1] of a wire without dimensions, x has no recorded dimensions and starts at bit 4:
  // the range is computed as bit 1 instead of bit 5.
  method BareMemberMissed() returns (r: Option<RangeNode>)
    ensures var wire, steps := Wire([], 7, 0), [Step("x", [One(Const(1))])];
            && IsPath(PAIR, steps) && r.Some?
            && forall env: Env :: !Cong(Eval(r.value.right, env), Target(wire, PAIR, [], steps, env).lo)
  {
    PairLayout();
    var pass := new StructPass();
    var width := pass.SimplifyStruct(PAIR, 0);
    var sels := [One(Const(1))];
    var wire, steps, wsels := Wire([], 7, 0), [Step("x", sels)], [];
    assert WireDims(wire, 0) == [] && DeclaredDims(wire, 0) == [];
    assert Found(PAIR, steps) by { assert steps[1..] == []; }
    r := ConvertDot(wire, PAIR, wsels, steps, pass.ranges, {1});
    forall env: Env ensures !Cong(Eval(r.value.right, env), Target(wire, PAIR, wsels, steps, env).lo) {
      assert SelInDim(First(PAIR, steps).dims[0], sels[0], env);
      assert LastOrdered(PAIR, 0, steps, {1}, env);
      RangeIsRightIff(r.value, wire, PAIR, wsels, steps, pass.ranges, {1}, env);
    }
  }

  const UPPER := Wire([Dim(0, 2, true)], 15, 0)
  const FIRST: seq<Sel> := [One(Const(0))]
  const LOW: seq<Step> := [Step("y", [])]

  lemma {:induction false} UpperIsLaid(ranges: map<nat, Range>)
    requires Shows(ranges, Placed(PAIR, 0))
    ensures Laid(UPPER, PAIR, |FIRST|, ranges) && IsPath(PAIR, LOW) && Found(PAIR, LOW)
  {
    PairLayout();
    var dims := DeclaredDims(UPPER, 1);
    assert dims == [Dim(0, 2, true)] && WireDims(UPPER, 1) == [Dim(0, 2, false)];
    OneDim(Dim(0, 2, false), 0);
    assert LOW[1..] == [];
  }

  lemma {:induction false} UpperIsMissed(r: RangeNode, ranges: map<nat, Range>, env: Env)
    requires Shows(ranges, Placed(PAIR, 0)) && |FIRST| == |WireDims(UPPER, |FIRST|)| && IsPath(PAIR, LOW)
    requires DenotesIfOrdered(r, UPPER, PAIR, FIRST, LOW, {})
    ensures !Cong(Eval(r.right, env), Target(UPPER, PAIR, FIRST, LOW, env).lo)
  {
    UpperIsLaid(ranges);
    var dims := DeclaredDims(UPPER, 1);
    assert dims == [Dim(0, 2, true)];
    assert SelInDim(dims[0], FIRST[0], env);
    assert LastOrdered(PAIR, 0, LOW, {}, env);
    assert !WireCentred(UPPER, FIRST, env) by {
      assert dims[0].swapped && LowIndices(dims, FIRST, env)[0] == 0;
    }
    RangeIsRightIff(r, UPPER, PAIR, FIRST, LOW, ranges, {}, env);
  }

  // In w[0].y of a wire declared [0:1], the range is computed in the lower element instead
  // of the upper one.
  method AscendingWireMissed() returns (r: Option<RangeNode>)
    ensures |FIRST| == |WireDims(UPPER, |FIRST|)| && IsPath(PAIR, LOW) && r.Some?
    ensures forall env: Env :: !Cong(Eval(r.value.right, env), Target(UPPER, PAIR, FIRST, LOW, env).lo)
  {
    PairLayout();
    var pass := new StructPass();
    var width := pass.SimplifyStruct(PAIR, 0);
    UpperIsLaid(pass.ranges);
    r := ConvertDot(UPPER, PAIR, FIRST, LOW, pass.ranges, {});
    forall env: Env ensures !Cong(Eval(r.value.right, env), Target(UPPER, PAIR, FIRST, LOW, env).lo) {
      UpperIsMissed(r.value, pass.ranges, env);
    }
  }
}
