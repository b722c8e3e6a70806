// Bit layout of packed structs and unions: simplify_struct in the front end and
// synlig_size_packed_struct in the simplifier (sections 7.2.1 and 7.3.1 of IEEE 1800-2017).
module PackedLayout {
  import opened Wrappers
  import opened Arithmetic
  import opened Dimensions

  // The members of a struct or union, or a plain vector of a given width. Every node of
  // the tree has its own id. The dimensions of a nested struct or union make it an array;
  // those of an item describe how its width is indexed.
  datatype Kind =
    | Item(width: nat)
    | Struct(members: seq<Field>)
    | Union(members: seq<Field>)

  datatype Field = Field(id: nat, name: string, kind: Kind, dims: seq<Dim>)

  // Structs and unions have members, vectors have bits, and arrays have elements, which
  // for an indexed vector divide it evenly.
  predicate Proper(f: Field)
    decreases f
  {
    Positive(f.dims) && Size(f.dims) > 0 &&
    match f.kind
    case Item(w) => w > 0 && w % Size(f.dims) == 0
    case Struct(ms) => ms != [] && ProperAll(ms)
    case Union(ms) => ms != [] && ProperAll(ms)
  }

  predicate ProperAll(ms: seq<Field>)
    decreases ms
  {
    ms == [] || (Proper(ms[0]) && ProperAll(ms[1..]))
  }

  // ---------- widths ----------

  // Width of one element: the sum of the members of a struct, the first member of a union.
  function ElemWidth(f: Field): nat
    decreases f, 0
  {
    match f.kind
    case Item(w) => w
    case Struct(ms) => TotalWidth(ms)
    case Union(ms) => if ms == [] then 0 else Width(ms[0])
  }

  function Width(f: Field): nat
    decreases f, 1
  {
    if f.kind.Item? then ElemWidth(f) else ElemWidth(f) * Size(f.dims)
  }

  function TotalWidth(ms: seq<Field>): nat
    decreases ms
  {
    if ms == [] then 0 else Width(ms[0]) + TotalWidth(ms[1..])
  }

  // All members of every union have the same width; anything else is an error.
  predicate UnionsAgree(f: Field)
    decreases f
  {
    match f.kind
    case Item(_) => true
    case Struct(ms) => UnionsAgreeAll(ms)
    case Union(ms) => UnionsAgreeAll(ms) && forall i | 0 <= i < |ms| :: Width(ms[i]) == Width(ms[0])
  }

  predicate UnionsAgreeAll(ms: seq<Field>)
    decreases ms
  {
    ms == [] || (UnionsAgree(ms[0]) && UnionsAgreeAll(ms[1..]))
  }

  // u occurs in f, at any depth.
  predicate Occurs(u: Field, f: Field)
    decreases f
  {
    u == f || (!f.kind.Item? && OccursAny(u, f.kind.members))
  }

  predicate OccursAny(u: Field, ms: seq<Field>)
    decreases ms
  {
    ms != [] && (Occurs(u, ms[0]) || OccursAny(u, ms[1..]))
  }

  predicate Uneven(u: Field) {
    u.kind.Union? && exists i, j | 0 <= i < j < |u.kind.members| :: Width(u.kind.members[i]) != Width(u.kind.members[j])
  }

  // A tree is refused exactly for a union in it with two members of different widths.
  lemma {:induction false} UnionsDisagreeIff(f: Field)
    ensures !UnionsAgree(f) <==> exists u :: Occurs(u, f) && Uneven(u)
    decreases f
  {
    if !f.kind.Item? { UnionsDisagreeAllIff(f.kind.members); }
    if f.kind.Union? {
      var ms := f.kind.members;
      if i :| 0 <= i < |ms| && Width(ms[i]) != Width(ms[0]) { assert 0 < i && Uneven(f) && Occurs(f, f); }
    }
    if u :| Occurs(u, f) && Uneven(u) {
      if u != f { assert OccursAny(u, f.kind.members); }
    }
    if !f.kind.Item? && !UnionsAgreeAll(f.kind.members) {
      var u :| OccursAny(u, f.kind.members) && Uneven(u);
      assert Occurs(u, f);
    }
  }

  lemma {:induction false} UnionsDisagreeAllIff(ms: seq<Field>)
    ensures !UnionsAgreeAll(ms) <==> exists u :: OccursAny(u, ms) && Uneven(u)
    decreases ms
  {
    if ms != [] {
      UnionsDisagreeIff(ms[0]);
      UnionsDisagreeAllIff(ms[1..]);
      if !UnionsAgree(ms[0]) {
        var u :| Occurs(u, ms[0]) && Uneven(u);
        assert OccursAny(u, ms);
      }
      if !UnionsAgreeAll(ms[1..]) {
        var u :| OccursAny(u, ms[1..]) && Uneven(u);
        assert OccursAny(u, ms);
      }
    }
  }

  // The position of member i above the start of an element: the members after it lie
  // below it; union members start at the bottom.
  function MemberOffset(f: Field, i: nat): nat
    requires !f.kind.Item? && i < |f.kind.members|
  {
    if f.kind.Struct? then TotalWidth(f.kind.members[i + 1..]) else 0
  }

  // ---------- tiling ----------

  lemma {:induction false} MemberWidths(ms: seq<Field>, i: nat)
    requires i < |ms|
    ensures TotalWidth(ms[i + 1..]) + Width(ms[i]) == TotalWidth(ms[i..]) <= TotalWidth(ms)
  {
    assert ms[i..][1..] == ms[i + 1..];
    if i > 0 {
      MemberWidths(ms[1..], i - 1);
      assert ms[1..][i - 1..] == ms[i..] && ms[1..][i..] == ms[i + 1..];
    }
  }

  // The members of a struct tile an element: the first is on top and ends at the top, the
  // last starts at the bottom, and each lies directly above the next.
  lemma {:induction false} StructMembersTile(f: Field, i: nat)
    requires f.kind.Struct? && i < |f.kind.members|
    ensures var top := MemberOffset(f, i) + Width(f.kind.members[i]);
            && top <= ElemWidth(f)
            && (i == 0 ==> top == ElemWidth(f))
            && (i + 1 == |f.kind.members| ==> MemberOffset(f, i) == 0)
            && (i > 0 ==> MemberOffset(f, i - 1) == top)
  {
    var ms := f.kind.members;
    MemberWidths(ms, i);
    assert ms[0..] == ms;
    if i + 1 == |ms| { assert ms[i + 1..] == []; }
    if i > 0 { assert ms[i - 1 + 1..] == ms[i..]; }
  }

  lemma {:induction false} MembersInside(f: Field, i: nat)
    requires !f.kind.Item? && i < |f.kind.members| && UnionsAgree(f)
    ensures MemberOffset(f, i) + Width(f.kind.members[i]) <= ElemWidth(f)
    ensures f.kind.Union? ==> Width(f.kind.members[i]) == ElemWidth(f)
  {
    if f.kind.Struct? { StructMembersTile(f, i); }
  }

  // No bit of an element belongs to two members of a struct, and every bit belongs to one.
  lemma {:induction false} BitBelongsToOneMember(f: Field, bit: nat)
    requires f.kind.Struct? && bit < ElemWidth(f)
    ensures exists i :: HasBit(f, i, bit)
    ensures forall i, j | HasBit(f, i, bit) && HasBit(f, j, bit) :: i == j
  {
    var ms := f.kind.members;
    var i := FindMember(ms, bit);
    assert HasBit(f, i, bit);
    forall a, b | HasBit(f, a, bit) && HasBit(f, b, bit) ensures a == b {
      if a < b { Above(ms, a, b); }
      if b < a { Above(ms, b, a); }
    }
  }

  predicate HasBit(f: Field, i: nat, bit: nat)
    requires f.kind.Struct?
  {
    i < |f.kind.members| && MemberOffset(f, i) <= bit < MemberOffset(f, i) + Width(f.kind.members[i])
  }

  lemma {:induction false} FindMember(ms: seq<Field>, bit: nat) returns (i: nat)
    requires bit < TotalWidth(ms)
    ensures i < |ms| && TotalWidth(ms[i + 1..]) <= bit < TotalWidth(ms[i + 1..]) + Width(ms[i])
  {
    if bit >= TotalWidth(ms[1..]) {
      i := 0;
    } else {
      i := FindMember(ms[1..], bit);
      assert ms[1..][i + 1..] == ms[i + 2..];
      i := i + 1;
    }
  }

  // An earlier member lies entirely above a later one.
  lemma {:induction false} Above(ms: seq<Field>, a: nat, b: nat)
    requires a < b < |ms|
    ensures TotalWidth(ms[b + 1..]) + Width(ms[b]) <= TotalWidth(ms[a + 1..])
  {
    MemberWidths(ms[a + 1..], b - a - 1);
    assert ms[a + 1..][b - a - 1..] == ms[b..] && ms[a + 1..][b - a..] == ms[b + 1..];
  }

  // ---------- the pass ----------

  datatype Range = Range(left: int, right: int)

  // The range written into a node itself.
  function Written(f: Field, start: int): map<nat, Range> {
    map[f.id := Range(start + Width(f) - 1, start)]
  }

  // What the pass writes into the nodes below f when an element of f starts at base.
  function Placed(f: Field, base: int): map<nat, Range>
    decreases f
  {
    if f.kind.Item? then map[] else PlacedMembers(f.kind.members, base, f.kind.Struct?)
  }

  function PlacedMembers(ms: seq<Field>, base: int, stacked: bool): map<nat, Range>
    decreases ms
  {
    if ms == [] then map[]
    else
      var start := if stacked then base + TotalWidth(ms[1..]) else base;
      PlacedMembers(ms[1..], base, stacked) + Placed(ms[0], start) + Written(ms[0], start)
  }

  function Ids(f: Field): set<nat>
    decreases f, 0
  {
    if f.kind.Item? then {} else IdsAll(f.kind.members)
  }

  function IdsAll(ms: seq<Field>): set<nat>
    decreases ms
  {
    if ms == [] then {} else {ms[0].id} + Ids(ms[0]) + IdsAll(ms[1..])
  }

  // No two nodes below f have the same id.
  predicate Distinct(f: Field)
    decreases f, 0
  {
    f.kind.Item? || DistinctAll(f.kind.members)
  }

  predicate DistinctAll(ms: seq<Field>)
    decreases ms
  {
    ms == [] ||
    (ms[0].id !in Ids(ms[0]) && Distinct(ms[0]) && ({ms[0].id} + Ids(ms[0])) !! IdsAll(ms[1..]) && DistinctAll(ms[1..]))
  }

  lemma {:induction false} PlacedKeys(f: Field, base: int)
    ensures Placed(f, base).Keys == Ids(f)
    decreases f
  {
    if !f.kind.Item? { PlacedMembersKeys(f.kind.members, base, f.kind.Struct?); }
  }

  lemma {:induction false} PlacedMembersKeys(ms: seq<Field>, base: int, stacked: bool)
    ensures PlacedMembers(ms, base, stacked).Keys == IdsAll(ms)
    decreases ms
  {
    if ms != [] {
      PlacedMembersKeys(ms[1..], base, stacked);
      PlacedKeys(ms[0], if stacked then base + TotalWidth(ms[1..]) else base);
    }
  }

  // A map that agrees with the placement of a subtree.
  ghost predicate Shows(ranges: map<nat, Range>, placed: map<nat, Range>) {
    forall id | id in placed :: id in ranges && ranges[id] == placed[id]
  }

  // After the pass, member i of f stands where its offset says, and its own members are
  // placed from there. For an array of structs that is its element 0, the lowest one.
  lemma {:induction false} MemberPlaced(ms: seq<Field>, base: int, stacked: bool, i: nat, ranges: map<nat, Range>)
    requires i < |ms| && DistinctAll(ms) && Shows(ranges, PlacedMembers(ms, base, stacked))
    ensures var start := if stacked then base + TotalWidth(ms[i + 1..]) else base;
            && ms[i].id in ranges && ranges[ms[i].id] == Range(start + Width(ms[i]) - 1, start)
            && (ms[i].kind.Item? ==> ranges[ms[i].id].left == start + ms[i].kind.width - 1)
            && Distinct(ms[i]) && Shows(ranges, Placed(ms[i], start))
    decreases ms
  {
    var start := if stacked then base + TotalWidth(ms[1..]) else base;
    PlacedKeys(ms[0], start);
    PlacedMembersKeys(ms[1..], base, stacked);
    var all := PlacedMembers(ms, base, stacked);
    if i == 0 {
      assert Shows(all, Placed(ms[0], start));
    } else {
      assert Shows(all, PlacedMembers(ms[1..], base, stacked));
      MemberPlaced(ms[1..], base, stacked, i - 1, ranges);
      assert ms[1..][i..] == ms[i + 1..];
    }
  }

  // ---------- the top bit ----------

  // get_max_offset_struct: down first members to the first node whose range is set. For a
  // struct or union whose own range is not set that is its first member, whose top is the
  // top of the element, with or without arrays.
  method GetMaxOffsetStruct(f: Field, ranges: map<nat, Range>, ghost base: int) returns (left: int)
    requires Proper(f) && !f.kind.Item? && UnionsAgree(f) && Distinct(f) && Shows(ranges, Placed(f, base))
    ensures left == if f.id in ranges then ranges[f.id].left else base + ElemWidth(f) - 1
  {
    var node := f;
    MemberPlaced(f.kind.members, base, f.kind.Struct?, 0, ranges);
    MembersInside(f, 0);
    if f.kind.Struct? { StructMembersTile(f, 0); }
    while node.id !in ranges
      invariant node == f || (f.id !in ranges && node == f.kind.members[0])
      decreases node
    {
      node := node.kind.members[0];
    }
    left := ranges[node.id].left;
  }

  function FirstLeaf(f: Field): Field
    requires Proper(f)
    decreases f
  {
    match f.kind
    case Item(_) => f
    case Struct(ms) => assert ProperAll(ms); FirstLeaf(ms[0])
    case Union(ms) => assert ProperAll(ms); FirstLeaf(ms[0])
  }

  // synlig_get_max_offset: down first members to an item.
  method GetMaxOffset(f: Field, ranges: map<nat, Range>) returns (left: int)
    requires Proper(f) && FirstLeaf(f).id in ranges
    ensures left == ranges[FirstLeaf(f).id].left
  {
    var node := f;
    while !node.kind.Item?
      invariant Proper(node) && FirstLeaf(node) == FirstLeaf(f)
      decreases node
    {
      assert ProperAll(node.kind.members);
      node := node.kind.members[0];
    }
    left := ranges[node.id].left;
  }

  // Below f, no struct or union that is first in its parent is an array of several elements.
  predicate FirstsScalar(f: Field)
    requires Proper(f)
    decreases f
  {
    match f.kind
    case Item(_) => true
    case Struct(ms) => assert ProperAll(ms); (ms[0].kind.Item? || Size(ms[0].dims) == 1) && FirstsScalar(ms[0])
    case Union(ms) => assert ProperAll(ms); (ms[0].kind.Item? || Size(ms[0].dims) == 1) && FirstsScalar(ms[0])
  }

  // The first item ends at the top of the element exactly when no array is on the way.
  lemma {:induction false} FirstLeafIsTopIff(f: Field, base: int, ranges: map<nat, Range>)
    requires Proper(f) && !f.kind.Item? && UnionsAgree(f) && Distinct(f) && Shows(ranges, Placed(f, base))
    ensures var leaf := FirstLeaf(f);
            && leaf.id in ranges && ranges[leaf.id].left <= base + ElemWidth(f) - 1
            && (ranges[leaf.id].left == base + ElemWidth(f) - 1 <==> FirstsScalar(f))
    decreases f
  {
    var ms := f.kind.members;
    var start := base + MemberOffset(f, 0);
    MemberPlaced(ms, base, f.kind.Struct?, 0, ranges);
    MembersInside(f, 0);
    if f.kind.Struct? { StructMembersTile(f, 0); }
    if !ms[0].kind.Item? {
      FirstLeafIsTopIff(ms[0], start, ranges);
      ArrayIsWider(ms[0]);
    }
  }

  lemma {:induction false} WidthPositive(f: Field)
    requires Proper(f)
    ensures ElemWidth(f) > 0 && Width(f) > 0
    decreases f
  {
    match f.kind
    case Item(_) =>
    case Struct(ms) =>
      WidthPositive(ms[0]);
      assert ElemWidth(f) == Width(ms[0]) + TotalWidth(ms[1..]);
      MulGrows(ElemWidth(f), Size(f.dims));
    case Union(ms) =>
      WidthPositive(ms[0]);
      MulGrows(ElemWidth(f), Size(f.dims));
  }

  lemma {:induction false} ArrayIsWider(f: Field)
    requires Proper(f) && !f.kind.Item?
    ensures ElemWidth(f) <= Width(f) && (ElemWidth(f) == Width(f) <==> Size(f.dims) == 1)
  {
    WidthPositive(f);
    var e, s := ElemWidth(f), Size(f.dims);
    MulMono(e, 1, s);
    if s > 1 { MulMono(e, 2, s); }
  }

  // The node fields the pass writes, and the pass itself.
  class StructPass {
    var ranges: map<nat, Range>

    constructor ()
      ensures ranges == map[]
    {
      ranges := map[];
    }

    // simplify_struct: members from last to first; None is the error for a union whose
    // members differ in width.
    method SimplifyStruct(f: Field, base: int) returns (width: Option<nat>)
      requires !f.kind.Item? && Proper(f)
      modifies this
      ensures width.Some? <==> UnionsAgree(f)
      ensures width.Some? ==> width.value == ElemWidth(f) && ranges == old(ranges) + Placed(f, base)
      decreases f, 0
    {
      var ms, stacked := f.kind.members, f.kind.Struct?;
      ghost var before := ranges;
      var offset: nat := 0;
      var packed: Option<nat> := None;
      var it := |ms|;
      while it > 0
        invariant 0 <= it <= |ms| && UnionsAgreeAll(ms[it..])
        invariant offset == if stacked then TotalWidth(ms[it..]) else 0
        invariant f.kind.Union? ==> AllPack(ms, it, packed)
        invariant ranges == before + PlacedMembers(ms[it..], base, stacked)
      {
        it := it - 1;
        assert ms[it..][1..] == ms[it + 1..];
        ProperAt(ms, it);
        var w := LayMember(ms[it], base + offset);
        if w.None? {
          DisagreeAt(ms, it);
          return None;
        }
        PlacedNext(before, ms, it, base, stacked, base + offset, ranges);
        if f.kind.Union? {
          if packed.None? {
            packed := w;
          } else if packed != w {
            WidthsDiffer(ms, it, packed);
            return None;
          }
        } else {
          offset := offset + w.value;
        }
      }
      assert ms[0..] == ms;
      width := if f.kind.Union? then packed else Some(offset);
    }

    // Sizes one member, sets its range, and returns its width.
    method LayMember(node: Field, start: int) returns (width: Option<nat>)
      requires Proper(node)
      modifies this
      ensures width.Some? <==> UnionsAgree(node)
      ensures width.Some? ==> width.value == Width(node) && ranges == (old(ranges) + Placed(node, start)) + Written(node, start)
      decreases node, 1
    {
      var w: nat;
      if node.kind.Item? {
        w := node.kind.width;
        assert old(ranges) + Placed(node, start) == old(ranges);
      } else {
        var inner := SimplifyStruct(node, start);
        if inner.None? {
          return None;
        }
        w := TimesDims(inner.value, node.dims);
      }
      ranges := ranges[node.id := Range(start + w - 1, start)];
      width := Some(w);
    }
  }

  // The common width of the members of a union from it on.
  predicate AllPack(ms: seq<Field>, it: nat, packed: Option<nat>) {
    if it >= |ms| then packed == None
    else packed.Some? && forall i | it <= i < |ms| :: Width(ms[i]) == packed.value
  }

  lemma {:induction false} WidthsDiffer(ms: seq<Field>, it: nat, packed: Option<nat>)
    requires it + 1 < |ms| && AllPack(ms, it + 1, packed) && Width(ms[it]) != packed.value
    ensures exists i | 0 <= i < |ms| :: Width(ms[i]) != Width(ms[0])
  {
    assert Width(ms[it + 1]) == packed.value;
    assert Width(ms[it]) != Width(ms[0]) || Width(ms[it + 1]) != Width(ms[0]);
  }

  lemma {:induction false} PlacedNext(before: map<nat, Range>, ms: seq<Field>, it: nat, base: int, stacked: bool,
      start: int, ranges: map<nat, Range>)
    requires it < |ms| && start == if stacked then base + TotalWidth(ms[it + 1..]) else base
    requires ranges == ((before + PlacedMembers(ms[it + 1..], base, stacked)) + Placed(ms[it], start)) + Written(ms[it], start)
    ensures ranges == before + PlacedMembers(ms[it..], base, stacked)
  {
    assert ms[it..][1..] == ms[it + 1..];
    RegroupMaps(before, PlacedMembers(ms[it + 1..], base, stacked), Placed(ms[it], start), Written(ms[it], start));
  }

  lemma {:induction false} RegroupMaps(a: map<nat, Range>, b: map<nat, Range>, c: map<nat, Range>, d: map<nat, Range>)
    ensures ((a + b) + c) + d == a + (b + c + d)
  {
  }

  method TimesDims(elem: nat, dims: seq<Dim>) returns (width: nat)
    ensures width == elem * Size(dims)
  {
    width := elem;
    for i := 0 to |dims|
      invariant width == elem * Size(dims[..i])
    {
      assert dims[..i + 1] == dims[..i] + [dims[i]];
      SizeAppend(dims[..i], [dims[i]]);
      OneDim(dims[i], 0);
      Associate(elem, Size(dims[..i]), dims[i].width);
      width := width * dims[i].width;
    }
    assert dims[..|dims|] == dims;
  }

  lemma {:induction false} ProperAt(ms: seq<Field>, i: nat)
    requires ProperAll(ms) && i < |ms|
    ensures Proper(ms[i])
  {
    if i > 0 { ProperAt(ms[1..], i - 1); }
  }

  lemma {:induction false} DisagreeAt(ms: seq<Field>, i: nat)
    requires i < |ms| && !UnionsAgree(ms[i])
    ensures !UnionsAgreeAll(ms)
  {
    if i > 0 { DisagreeAt(ms[1..], i - 1); }
  }
}
