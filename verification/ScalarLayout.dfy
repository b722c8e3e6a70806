// The layout pass of the simplifier (synlig_size_packed_struct) beside that of the front
// end: it does the same, except that it does not multiply the width of a nested struct or
// union by its dimensions.
module ScalarLayout {
  import opened Wrappers
  import opened Arithmetic
  import opened Dimensions
  import opened PackedLayout

  // ---------- widths ----------

  function ScalarWidth(f: Field): nat
    decreases f
  {
    match f.kind
    case Item(w) => w
    case Struct(ms) => ScalarTotal(ms)
    case Union(ms) => if ms == [] then 0 else ScalarWidth(ms[0])
  }

  function ScalarTotal(ms: seq<Field>): nat
    decreases ms
  {
    if ms == [] then 0 else ScalarWidth(ms[0]) + ScalarTotal(ms[1..])
  }

  // The pass finds the members of every union equally wide.
  predicate ScalarUnionsAgree(f: Field)
    decreases f
  {
    match f.kind
    case Item(_) => true
    case Struct(ms) => ScalarUnionsAgreeAll(ms)
    case Union(ms) => ScalarUnionsAgreeAll(ms) && forall i | 0 <= i < |ms| :: ScalarWidth(ms[i]) == ScalarWidth(ms[0])
  }

  predicate ScalarUnionsAgreeAll(ms: seq<Field>)
    decreases ms
  {
    ms == [] || (ScalarUnionsAgree(ms[0]) && ScalarUnionsAgreeAll(ms[1..]))
  }

  // Below f, no struct or union is an array of more than one element.
  predicate ScalarBelow(f: Field)
    decreases f
  {
    match f.kind
    case Item(_) => true
    case Struct(ms) => ScalarAll(ms)
    case Union(ms) => ScalarAll(ms)
  }

  predicate ScalarAll(ms: seq<Field>)
    decreases ms
  {
    ms == [] || ((ms[0].kind.Item? || Size(ms[0].dims) == 1) && ScalarBelow(ms[0]) && ScalarAll(ms[1..]))
  }

  // ---------- placement ----------

  function ScalarWritten(f: Field, start: int): map<nat, Range> {
    map[f.id := Range(start + ScalarWidth(f) - 1, start)]
  }

  function ScalarPlaced(f: Field, base: int): map<nat, Range>
    decreases f
  {
    if f.kind.Item? then map[] else ScalarPlacedMembers(f.kind.members, base, f.kind.Struct?)
  }

  function ScalarPlacedMembers(ms: seq<Field>, base: int, stacked: bool): map<nat, Range>
    decreases ms
  {
    if ms == [] then map[]
    else
      var start := if stacked then base + ScalarTotal(ms[1..]) else base;
      ScalarPlacedMembers(ms[1..], base, stacked) + ScalarPlaced(ms[0], start) + ScalarWritten(ms[0], start)
  }

  // The pass, over the same node fields.
  class ScalarPass {
    var ranges: map<nat, Range>

    constructor ()
      ensures ranges == map[]
    {
      ranges := map[];
    }

    method SizePackedStruct(f: Field, base: int) returns (width: Option<nat>)
      requires !f.kind.Item? && Proper(f)
      modifies this
      ensures width.Some? <==> ScalarUnionsAgree(f)
      ensures width.Some? ==> width.value == ScalarWidth(f) && ranges == old(ranges) + ScalarPlaced(f, base)
      decreases f, 0
    {
      var ms, stacked := f.kind.members, f.kind.Struct?;
      ghost var before := ranges;
      var offset: nat := 0;
      var packed: Option<nat> := None;
      var it := |ms|;
      while it > 0
        invariant 0 <= it <= |ms| && ScalarUnionsAgreeAll(ms[it..])
        invariant offset == if stacked then ScalarTotal(ms[it..]) else 0
        invariant f.kind.Union? ==> ScalarPack(ms, it, packed)
        invariant ranges == before + ScalarPlacedMembers(ms[it..], base, stacked)
      {
        it := it - 1;
        assert ms[it..][1..] == ms[it + 1..];
        ProperAt(ms, it);
        var w := SizeMember(ms[it], base + offset);
        if w.None? {
          ScalarDisagreeAt(ms, it);
          return None;
        }
        ScalarPlacedNext(before, ms, it, base, stacked, base + offset, ranges);
        if f.kind.Union? {
          if packed.None? {
            packed := w;
          } else if packed != w {
            ScalarWidthsDiffer(ms, it, packed);
            return None;
          }
        } else {
          offset := offset + w.value;
        }
      }
      assert ms[0..] == ms;
      width := if f.kind.Union? then packed else Some(offset);
    }

    method SizeMember(node: Field, start: int) returns (width: Option<nat>)
      requires Proper(node)
      modifies this
      ensures width.Some? <==> ScalarUnionsAgree(node)
      ensures width.Some? ==>
                width.value == ScalarWidth(node) && ranges == (old(ranges) + ScalarPlaced(node, start)) + ScalarWritten(node, start)
      decreases node, 1
    {
      if node.kind.Item? {
        width := Some(node.kind.width);
        assert old(ranges) + ScalarPlaced(node, start) == old(ranges);
      } else {
        width := SizePackedStruct(node, start);
        if width.None? {
          return;
        }
      }
      ranges := ranges[node.id := Range(start + width.value - 1, start)];
    }
  }

  // The common width of the members of a union from it on.
  predicate ScalarPack(ms: seq<Field>, it: nat, packed: Option<nat>) {
    if it >= |ms| then packed == None
    else packed.Some? && forall i | it <= i < |ms| :: ScalarWidth(ms[i]) == packed.value
  }

  lemma {:induction false} ScalarWidthsDiffer(ms: seq<Field>, it: nat, packed: Option<nat>)
    requires it + 1 < |ms| && ScalarPack(ms, it + 1, packed) && ScalarWidth(ms[it]) != packed.value
    ensures exists i | 0 <= i < |ms| :: ScalarWidth(ms[i]) != ScalarWidth(ms[0])
  {
    assert ScalarWidth(ms[it + 1]) == packed.value;
    assert ScalarWidth(ms[it]) != ScalarWidth(ms[0]) || ScalarWidth(ms[it + 1]) != ScalarWidth(ms[0]);
  }

  lemma {:induction false} ScalarPlacedNext(before: map<nat, Range>, ms: seq<Field>, it: nat, base: int, stacked: bool,
      start: int, ranges: map<nat, Range>)
    requires it < |ms| && start == if stacked then base + ScalarTotal(ms[it + 1..]) else base
    requires ranges == ((before + ScalarPlacedMembers(ms[it + 1..], base, stacked)) + ScalarPlaced(ms[it], start)) + ScalarWritten(ms[it], start)
    ensures ranges == before + ScalarPlacedMembers(ms[it..], base, stacked)
  {
    assert ms[it..][1..] == ms[it + 1..];
    RegroupMaps(before, ScalarPlacedMembers(ms[it + 1..], base, stacked), ScalarPlaced(ms[it], start), ScalarWritten(ms[it], start));
  }

  lemma {:induction false} ScalarDisagreeAt(ms: seq<Field>, i: nat)
    requires i < |ms| && !ScalarUnionsAgree(ms[i])
    ensures !ScalarUnionsAgreeAll(ms)
  {
    if i > 0 { ScalarDisagreeAt(ms[1..], i - 1); }
  }

  // ---------- trees without arrays ----------

  // Both passes accept such a tree and give it the same width and the same ranges.
  lemma {:induction false} ScalarSame(f: Field, base: int)
    requires Proper(f) && UnionsAgree(f) && ScalarBelow(f)
    ensures ScalarUnionsAgree(f) && ScalarWidth(f) == ElemWidth(f) && ScalarPlaced(f, base) == Placed(f, base)
    decreases f, 1
  {
    if !f.kind.Item? {
      var ms := f.kind.members;
      ScalarMembersSame(ms, base, f.kind.Struct?);
      if f.kind.Union? {
        forall i | 0 <= i < |ms| ensures ScalarWidth(ms[i]) == ScalarWidth(ms[0]) {
          ScalarMemberWidth(ms, i);
          ScalarMemberWidth(ms, 0);
        }
      }
    }
  }

  lemma {:induction false} ScalarMembersSame(ms: seq<Field>, base: int, stacked: bool)
    requires ProperAll(ms) && UnionsAgreeAll(ms) && ScalarAll(ms)
    ensures ScalarUnionsAgreeAll(ms) && ScalarTotal(ms) == TotalWidth(ms)
    ensures ScalarPlacedMembers(ms, base, stacked) == PlacedMembers(ms, base, stacked)
    ensures ms != [] ==> ScalarWidth(ms[0]) == Width(ms[0])
    decreases ms, 0
  {
    if ms != [] {
      var start := if stacked then base + TotalWidth(ms[1..]) else base;
      ScalarMembersSame(ms[1..], base, stacked);
      ScalarSame(ms[0], start);
      OneElement(ms[0]);
      assert ScalarWritten(ms[0], start) == Written(ms[0], start);
    }
  }

  lemma {:induction false} OneElement(m: Field)
    requires m.kind.Item? || Size(m.dims) == 1
    ensures Width(m) == ElemWidth(m)
  {
  }

  lemma {:induction false} ScalarMemberWidth(ms: seq<Field>, i: nat)
    requires ProperAll(ms) && UnionsAgreeAll(ms) && ScalarAll(ms) && i < |ms|
    ensures ScalarWidth(ms[i]) == Width(ms[i])
    decreases ms, 1
  {
    if i == 0 { ScalarMembersSame(ms, 0, true); } else { ScalarMemberWidth(ms[1..], i - 1); }
  }

  // ---------- trees with arrays ----------

  // If the passes accept a tree and agree on its width, there is no array in it.
  lemma {:induction false} SameWidthIsScalar(f: Field)
    requires Proper(f) && UnionsAgree(f) && ScalarUnionsAgree(f)
    ensures 0 < ScalarWidth(f) <= ElemWidth(f)
    ensures ScalarWidth(f) == ElemWidth(f) ==> ScalarBelow(f)
    decreases f, 1
  {
    match f.kind
    case Item(_) =>
    case Struct(ms) => TotalIsScalar(ms);
    case Union(ms) => EveryIsScalar(ms, Width(ms[0]), ScalarWidth(ms[0]));
  }

  lemma {:induction false} MemberIsScalar(m: Field)
    requires Proper(m) && UnionsAgree(m) && ScalarUnionsAgree(m)
    ensures 0 < ScalarWidth(m) <= Width(m)
    ensures ScalarWidth(m) == Width(m) ==> (m.kind.Item? || Size(m.dims) == 1) && ScalarBelow(m)
    decreases m, 2
  {
    SameWidthIsScalar(m);
    if !m.kind.Item? { ArrayIsWider(m); }
  }

  lemma {:induction false} TotalIsScalar(ms: seq<Field>)
    requires ProperAll(ms) && UnionsAgreeAll(ms) && ScalarUnionsAgreeAll(ms)
    ensures ScalarTotal(ms) <= TotalWidth(ms) && (ms != [] ==> ScalarTotal(ms) > 0)
    ensures ScalarTotal(ms) == TotalWidth(ms) ==> ScalarAll(ms)
    decreases ms, 0
  {
    if ms != [] {
      MemberIsScalar(ms[0]);
      TotalIsScalar(ms[1..]);
    }
  }

  lemma {:induction false} EveryIsScalar(ms: seq<Field>, w: nat, v: nat)
    requires ProperAll(ms) && UnionsAgreeAll(ms) && ScalarUnionsAgreeAll(ms)
    requires forall i | 0 <= i < |ms| :: Width(ms[i]) == w && ScalarWidth(ms[i]) == v
    ensures ms != [] ==> 0 < v <= w && (v == w ==> ScalarAll(ms))
    decreases ms, 0
  {
    if ms != [] {
      MemberIsScalar(ms[0]);
      forall i | 0 <= i < |ms[1..]| ensures Width(ms[1..][i]) == w && ScalarWidth(ms[1..][i]) == v {
        assert ms[1..][i] == ms[i + 1];
      }
      EveryIsScalar(ms[1..], w, v);
    }
  }

  // The second pass accepts a tree that the first accepts, and gives it the same width,
  // exactly when nothing inside it is an array of structs or unions.
  lemma {:induction false} PassesAgreeIffScalar(f: Field)
    requires Proper(f) && UnionsAgree(f)
    ensures ScalarUnionsAgree(f) && ScalarWidth(f) == ElemWidth(f) <==> ScalarBelow(f)
  {
    if ScalarBelow(f) { ScalarSame(f, 0); }
    if ScalarUnionsAgree(f) { SameWidthIsScalar(f); }
  }

  // ---------- the ranges ----------

  lemma {:induction false} ScalarKeys(f: Field, base: int)
    ensures ScalarPlaced(f, base).Keys == Ids(f)
    decreases f
  {
    if !f.kind.Item? { ScalarMembersKeys(f.kind.members, base, f.kind.Struct?); }
  }

  lemma {:induction false} ScalarMembersKeys(ms: seq<Field>, base: int, stacked: bool)
    ensures ScalarPlacedMembers(ms, base, stacked).Keys == IdsAll(ms)
    decreases ms
  {
    if ms != [] {
      ScalarMembersKeys(ms[1..], base, stacked);
      ScalarKeys(ms[0], if stacked then base + ScalarTotal(ms[1..]) else base);
    }
  }

  // Equal ranges show equal widths of all members.
  lemma {:induction false} SameRangesSameWidths(ms: seq<Field>, base: int, stacked: bool)
    requires DistinctAll(ms) && ScalarPlacedMembers(ms, base, stacked) == PlacedMembers(ms, base, stacked)
    ensures forall i | 0 <= i < |ms| :: ScalarWidth(ms[i]) == Width(ms[i])
    ensures ScalarTotal(ms) == TotalWidth(ms)
    decreases ms
  {
    if ms != [] {
      TailRanges(ms, base, stacked);
      SameRangesSameWidths(ms[1..], base, stacked);
      var start, start' := if stacked then base + TotalWidth(ms[1..]) else base, if stacked then base + ScalarTotal(ms[1..]) else base;
      assert PlacedMembers(ms, base, stacked)[ms[0].id] == Range(start + Width(ms[0]) - 1, start);
      assert ScalarPlacedMembers(ms, base, stacked)[ms[0].id] == Range(start' + ScalarWidth(ms[0]) - 1, start');
      forall i | 0 <= i < |ms| ensures ScalarWidth(ms[i]) == Width(ms[i]) {
        if i > 0 { assert ms[i] == ms[1..][i - 1]; }
      }
    }
  }

  lemma {:induction false} TailRanges(ms: seq<Field>, base: int, stacked: bool)
    requires ms != [] && DistinctAll(ms) && ScalarPlacedMembers(ms, base, stacked) == PlacedMembers(ms, base, stacked)
    ensures ScalarPlacedMembers(ms[1..], base, stacked) == PlacedMembers(ms[1..], base, stacked)
  {
    var a, b := PlacedMembers(ms[1..], base, stacked), ScalarPlacedMembers(ms[1..], base, stacked);
    PlacedMembersKeys(ms[1..], base, stacked);
    ScalarMembersKeys(ms[1..], base, stacked);
    PlacedKeys(ms[0], if stacked then base + TotalWidth(ms[1..]) else base);
    ScalarKeys(ms[0], if stacked then base + ScalarTotal(ms[1..]) else base);
    forall id | id in a ensures b[id] == a[id] {
      assert PlacedMembers(ms, base, stacked)[id] == a[id] && ScalarPlacedMembers(ms, base, stacked)[id] == b[id];
    }
  }

  // The second pass accepts the tree and writes the ranges of the first exactly when
  // nothing inside it is an array of structs or unions.
  lemma {:induction false} RangesAgreeIffScalar(f: Field, base: int)
    requires Proper(f) && UnionsAgree(f) && Distinct(f)
    ensures ScalarUnionsAgree(f) && ScalarPlaced(f, base) == Placed(f, base) <==> ScalarBelow(f)
  {
    if ScalarBelow(f) { ScalarSame(f, base); }
    if ScalarUnionsAgree(f) && ScalarPlaced(f, base) == Placed(f, base) && !f.kind.Item? {
      SameRangesSameWidths(f.kind.members, base, f.kind.Struct?);
      SameWidthIsScalar(f);
    }
  }

  // struct { struct { bit b; } [1:0] a; } is two bits wide for the first pass and one for
  // the second.
  function ArrayOfStructs(): Field {
    var b := Field(2, "b", Item(1), []);
    var a := Field(1, "a", Struct([b]), [Dim(0, 2, false)]);
    Field(0, "s", Struct([a]), [])
  }

  method ArrayOfStructsMissed() returns (first: Option<nat>, second: Option<nat>)
    ensures first == Some(2) && second == Some(1)
  {
    var f := ArrayOfStructs();
    var a := f.kind.members[0];
    var b := a.kind.members[0];
    assert [a][1..] == [] && [b][1..] == [];
    OneDim(Dim(0, 2, false), 0);
    assert Size([]) == 1 && Proper(b) && ProperAll([b]) && Proper(a) && ProperAll([a]) && Proper(f);
    assert UnionsAgreeAll([b]) && UnionsAgreeAll([a]) && ScalarUnionsAgreeAll([b]) && ScalarUnionsAgreeAll([a]);
    assert TotalWidth([b]) == 1 && Width(a) == 2 && TotalWidth([a]) == 2;
    assert ScalarTotal([b]) == 1 && ScalarTotal([a]) == 1;
    var front := new StructPass();
    var simplifier := new ScalarPass();
    first := front.SimplifyStruct(f, 0);
    second := simplifier.SizePackedStruct(f, 0);
  }

  // ---------- what the second pass computes ----------

  // The tree without the dimensions of nested structs and unions.
  function Flat(f: Field): (g: Field)
    ensures g.id == f.id && (f.kind.Struct? <==> g.kind.Struct?) && (f.kind.Union? <==> g.kind.Union?)
    decreases f
  {
    match f.kind
    case Item(_) => f
    case Struct(ms) => Field(f.id, f.name, Struct(FlatAll(ms)), [])
    case Union(ms) => Field(f.id, f.name, Union(FlatAll(ms)), [])
  }

  function FlatAll(ms: seq<Field>): (r: seq<Field>)
    ensures |r| == |ms|
    decreases ms
  {
    if ms == [] then [] else [Flat(ms[0])] + FlatAll(ms[1..])
  }

  lemma {:induction false} FlatAt(ms: seq<Field>, i: nat)
    requires i < |ms|
    ensures FlatAll(ms)[i] == Flat(ms[i])
  {
    if i > 0 { FlatAt(ms[1..], i - 1); }
  }

  lemma {:induction false} FlatWidths(f: Field)
    ensures ScalarWidth(f) == Width(Flat(f)) && (ScalarUnionsAgree(f) <==> UnionsAgree(Flat(f)))
    decreases f
  {
    if !f.kind.Item? {
      var ms := f.kind.members;
      var flat := FlatAll(ms);
      assert Size([]) == 1;
      FlatAllWidths(ms);
      forall i | 0 <= i < |ms| ensures ScalarWidth(ms[i]) == Width(flat[i]) {
        FlatAt(ms, i);
        FlatWidths(ms[i]);
      }
    }
  }

  lemma {:induction false} FlatAllWidths(ms: seq<Field>)
    ensures ScalarTotal(ms) == TotalWidth(FlatAll(ms)) && (ScalarUnionsAgreeAll(ms) <==> UnionsAgreeAll(FlatAll(ms)))
    decreases ms
  {
    if ms != [] {
      assert FlatAll(ms)[1..] == FlatAll(ms[1..]);
      FlatAllWidths(ms[1..]);
      FlatWidths(ms[0]);
    }
  }

  // On every tree the second pass computes what the first one would without those
  // dimensions: the same width, the same errors and the same ranges.
  lemma {:induction false} ScalarIsFlat(f: Field, base: int)
    ensures ScalarWidth(f) == Width(Flat(f)) && (ScalarUnionsAgree(f) <==> UnionsAgree(Flat(f)))
    ensures ScalarPlaced(f, base) == Placed(Flat(f), base)
    decreases f
  {
    FlatWidths(f);
    if !f.kind.Item? { FlatPlaced(f.kind.members, base, f.kind.Struct?); }
  }

  lemma {:induction false} FlatPlaced(ms: seq<Field>, base: int, stacked: bool)
    ensures ScalarPlacedMembers(ms, base, stacked) == PlacedMembers(FlatAll(ms), base, stacked)
    decreases ms
  {
    if ms != [] {
      var start := if stacked then base + ScalarTotal(ms[1..]) else base;
      assert FlatAll(ms)[0] == Flat(ms[0]) && FlatAll(ms)[1..] == FlatAll(ms[1..]);
      FlatPlaced(ms[1..], base, stacked);
      FlatAllWidths(ms[1..]);
      ScalarIsFlat(ms[0], start);
      assert ScalarWritten(ms[0], start) == Written(Flat(ms[0]), start);
    }
  }
}
