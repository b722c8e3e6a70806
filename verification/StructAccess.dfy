// Access paths such as foo[i].a[j].b[k][l:r] become one bit range of the wire: the select
// list of search_struct_access_with_dots, and convert_dot.
module StructAccess {
  import opened Wrappers
  import opened Arithmetic
  import opened Dimensions
  import opened PackedLayout
  import opened IndexSelects
  import opened StructPaths

  // ---------- convert_dot ----------

  // The members of a struct or union; a plain vector has none.
  function Members(f: Field): seq<Field> {
    if f.kind.Item? then [] else f.kind.members
  }

  predicate Found(f: Field, steps: seq<Step>)
    decreases |steps|
  {
    steps == [] ||
    var i := Find(Members(f), steps[0].name);
    i < |Members(f)| && Found(Members(f)[i], steps[1..])
  }

  datatype Access = Access(member: Field, sels: seq<Sel>)

  function Chain(f: Field, steps: seq<Step>): (r: seq<Access>)
    requires Found(f, steps)
    ensures |r| == |steps|
    decreases |steps|
  {
    if steps == [] then []
    else
      var g := Members(f)[Find(Members(f), steps[0].name)];
      [Access(g, steps[0].sels)] + Chain(g, steps[1..])
  }

  // The first member of f that has the name.
  predicate Named(f: Field, name: string, g: Field) {
    var ms := Members(f);
    exists i | 0 <= i < |ms| :: FirstNamed(ms, name, i) && ms[i] == g
  }

  // The members of path are those that the names lead to, from f inwards.
  predicate Leads(f: Field, steps: seq<Step>, path: seq<Field>)
    decreases |path|
  {
    path == [] ||
    (steps != [] && Named(f, steps[0].name, path[0]) && Leads(path[0], steps[1..], path[1..]))
  }

  // The names lead along path, and no member there has the next name.
  predicate Stops(f: Field, steps: seq<Step>, path: seq<Field>)
    decreases |path|
  {
    steps != [] &&
    if path == [] then NoneNamed(Members(f), steps[0].name)
    else Named(f, steps[0].name, path[0]) && Stops(path[0], steps[1..], path[1..])
  }

  // The names lead one way only: all along it, or up to where they stop.
  lemma {:induction false} LeadsOneWay(f: Field, steps: seq<Step>, p: seq<Field>, q: seq<Field>)
    requires Leads(f, steps, p) && |p| == |steps|
    ensures Leads(f, steps, q) && |q| == |steps| ==> p == q
    ensures !Stops(f, steps, q)
    decreases |p|
  {
    if steps != [] && q != [] && Named(f, steps[0].name, q[0]) {
      NamedOnce(f, steps[0].name, p[0], q[0]);
      LeadsOneWay(p[0], steps[1..], p[1..], q[1..]);
    }
  }

  lemma {:induction false} NamedOnce(f: Field, name: string, g: Field, h: Field)
    requires Named(f, name, g) && Named(f, name, h)
    ensures g == h && !NoneNamed(Members(f), name)
  {
    var ms := Members(f);
    var i :| 0 <= i < |ms| && FirstNamed(ms, name, i) && ms[i] == g;
    var j :| 0 <= j < |ms| && FirstNamed(ms, name, j) && ms[j] == h;
    assert !(i < j) && !(j < i);
  }

  function MembersOf(chain: seq<Access>): (r: seq<Field>)
    ensures |r| == |chain|
  {
    seq(|chain|, k requires 0 <= k < |chain| => chain[k].member)
  }

  lemma {:induction false} ChainLeads(f: Field, steps: seq<Step>)
    requires Found(f, steps)
    ensures Leads(f, steps, MembersOf(Chain(f, steps)))
    ensures forall k | 0 <= k < |steps| :: Chain(f, steps)[k].sels == steps[k].sels
    decreases |steps|
  {
    if steps != [] {
      FindIsFirst(Members(f), steps[0].name);
      var g := Members(f)[Find(Members(f), steps[0].name)];
      ChainLeads(g, steps[1..]);
      assert MembersOf(Chain(f, steps))[1..] == MembersOf(Chain(g, steps[1..]));
      assert Named(f, steps[0].name, g);
    }
  }

  lemma {:induction false} NotFoundStops(f: Field, steps: seq<Step>) returns (path: seq<Field>)
    requires !Found(f, steps)
    ensures Stops(f, steps, path)
    decreases |steps|
  {
    var ms, i := Members(f), Find(Members(f), steps[0].name);
    FindIsFirst(ms, steps[0].name);
    path := [];
    if i < |ms| {
      var rest := NotFoundStops(ms[i], steps[1..]);
      path := [ms[i]] + rest;
      assert path[1..] == rest && Named(f, steps[0].name, ms[i]);
    }
  }

  method FindMember(ms: seq<Field>, name: string) returns (i: nat)
    ensures i == Find(ms, name)
    ensures if i < |ms| then FirstNamed(ms, name, i) else NoneNamed(ms, name)
  {
    i := 0;
    FindIsFirst(ms, name);
    while i < |ms| && ms[i].name != Unescaped(name)
      invariant 0 <= i <= |ms| && Find(ms, name) == i + Find(ms[i..], name)
    {
      assert ms[i..][1..] == ms[i + 1..];
      i := i + 1;
    }
  }

  // In terms of names alone: the members that they lead to, each with the selects of its
  // step, or nothing because they stop somewhere.
  ghost predicate ByName(f: Field, steps: seq<Step>, r: Option<seq<Access>>) {
    match r
    case Some(chain) =>
      && |chain| == |steps| && Leads(f, steps, MembersOf(chain))
      && forall k | 0 <= k < |chain| :: chain[k].sels == steps[k].sels
    case None => exists path :: Stops(f, steps, path)
  }

  lemma {:induction false} FoundByName(f: Field, steps: seq<Step>)
    ensures ByName(f, steps, if Found(f, steps) then Some(Chain(f, steps)) else None)
  {
    if Found(f, steps) { ChainLeads(f, steps); } else { var path := NotFoundStops(f, steps); }
  }

  // The search has found result, and the rest of the path is looked up in current.
  predicate Searching(f: Field, steps: seq<Step>, n: nat, current: Field, result: seq<Access>)
    requires n <= |steps|
  {
    && (Found(f, steps) <==> Found(current, steps[n..]))
    && (Found(f, steps) ==> Chain(f, steps) == result + Chain(current, steps[n..]))
  }

  lemma {:induction false} SearchStep(f: Field, steps: seq<Step>, n: nat, current: Field, result: seq<Access>, i: nat)
    requires n < |steps| && Searching(f, steps, n, current, result) && i == Find(Members(current), steps[n].name)
    ensures i >= |Members(current)| ==> !Found(f, steps)
    ensures i < |Members(current)| ==>
              var g := Members(current)[i];
              Searching(f, steps, n + 1, g, result + [Access(g, steps[n].sels)])
  {
    assert steps[n..][0] == steps[n] && steps[n..][1..] == steps[n + 1..];
  }

  lemma {:induction false} SearchEnds(f: Field, steps: seq<Step>, current: Field, result: seq<Access>)
    requires Searching(f, steps, |steps|, current, result)
    ensures Found(f, steps) && Chain(f, steps) == result
  {
    assert steps[|steps|..] == [] && result + [] == result;
  }

  // search_struct_access_with_dots: None is the error for an unknown member.
  method SearchStructAccess(f: Field, steps: seq<Step>) returns (r: Option<seq<Access>>)
    ensures r.Some? <==> Found(f, steps)
    ensures r.Some? ==> r.value == Chain(f, steps)
    ensures ByName(f, steps, r)
  {
    FoundByName(f, steps);
    var current, result: seq<Access> := f, [];
    assert Searching(f, steps, 0, f, []) by {
      assert steps[0..] == steps;
      if Found(f, steps) { assert [] + Chain(f, steps) == Chain(f, steps); }
    }
    for n := 0 to |steps|
      invariant Searching(f, steps, n, current, result)
    {
      var ms := Members(current);
      var i := FindMember(ms, steps[n].name);
      SearchStep(f, steps, n, current, result, i);
      if i == |ms| {
        return None;
      }
      current := ms[i];
      result := result + [Access(current, steps[n].sels)];
    }
    SearchEnds(f, steps, current, result);
    r := Some(result);
  }

  // The names lead all the way.
  ghost predicate LeadsOn(f: Field, steps: seq<Step>) {
    exists path :: |path| == |steps| && Leads(f, steps, path)
  }

  // The search succeeds exactly when the names lead all the way, and fails exactly when
  // they stop.
  lemma {:induction false} FoundIffLeads(f: Field, steps: seq<Step>)
    ensures Found(f, steps) <==> LeadsOn(f, steps)
    ensures Found(f, steps) <==> forall path :: !Stops(f, steps, path)
  {
    if Found(f, steps) {
      ChainLeads(f, steps);
      var p := MembersOf(Chain(f, steps));
      assert Leads(f, steps, p);
      forall path ensures !Stops(f, steps, path) { LeadsOneWay(f, steps, p, path); }
    } else {
      var q := NotFoundStops(f, steps);
      assert Stops(f, steps, q);
      if p :| |p| == |steps| && Leads(f, steps, p) { LeadsOneWay(f, steps, p, q); }
    }
  }

  // A wire keeps its dimensions innermost first, its own range, and often one dimension
  // more than a path can index, for the bits of the struct.
  datatype Wire = Wire(dims: seq<Dim>, left: int, right: int)

  function Reversed(dims: seq<Dim>): (r: seq<Dim>)
    ensures |r| == |dims|
  {
    seq(|dims|, i requires 0 <= i < |dims| => dims[|dims| - 1 - i])
  }

  // The dimensions of the wire that n selects index, as they are declared.
  function DeclaredDims(wire: Wire, n: nat): seq<Dim> {
    var dims := Reversed(wire.dims);
    if n < |dims| then dims[..|dims| - 1] else dims
  }

  // As convert_dot takes them: ascending dimensions become descending.
  function WireDims(wire: Wire, n: nat): (r: seq<Dim>)
    ensures |r| == |DeclaredDims(wire, n)|
  {
    Plain(DeclaredDims(wire, n))
  }

  // The wire holds elements of f, whose members the layout pass has placed.
  ghost predicate Laid(wire: Wire, f: Field, n: nat, ranges: map<nat, Range>) {
    && !f.kind.Item? && Proper(f) && UnionsAgree(f) && Distinct(f)
    && n == |WireDims(wire, n)|
    && 0 <= wire.right <= wire.left < WORD - 1 && Size(WireDims(wire, n)) > 0
    && wire.left - wire.right + 1 == Size(WireDims(wire, n)) * ElemWidth(f)
    && Shows(ranges, Placed(f, wire.right))
  }

  predicate AllOne(sels: seq<Sel>) {
    forall i | 0 <= i < |sels| :: sels[i].One?
  }

  // Where the element that the first selects denote starts, with the given dimensions.
  function StartIn(base: int, dims: seq<Dim>, f: Field, sels: seq<Sel>, env: Env): int
    requires |sels| == |dims|
  {
    base + RowMajor(dims, LowIndices(dims, sels, env)) * ElemWidth(f)
  }

  // The element of the wire that the code reaches, and the one that is declared.
  function ComputedStart(wire: Wire, f: Field, sels: seq<Sel>, env: Env): int
    requires |sels| == |WireDims(wire, |sels|)|
  {
    StartIn(wire.right, WireDims(wire, |sels|), f, sels, env)
  }

  function ElementStart(wire: Wire, f: Field, sels: seq<Sel>, env: Env): int
    requires |sels| == |WireDims(wire, |sels|)|
  {
    StartIn(wire.right, DeclaredDims(wire, |sels|), f, sels, env)
  }

  // A one-dimensional vector [w-1:0] for which the tree keeps no dimensions. A select on
  // it is computed from the range of the member in the wire.
  predicate Bare(g: Field, sels: seq<Sel>, bare: set<nat>) {
    g.id in bare && g.kind.Item? && g.dims == [Dim(0, g.kind.width, false)] && |sels| == 1
  }

  // The dimensions a step is computed with, for a member that starts at start.
  function StepDims(g: Field, sels: seq<Sel>, start: int, bare: set<nat>): seq<Dim>
    requires |sels| <= |g.dims|
  {
    if Bare(g, sels, bare) then [Dim(start, g.kind.width, false)] else g.dims[..|sels|]
  }

  // How far off the range of a path is: the start of a bare member is subtracted.
  function Skew(f: Field, base: int, steps: seq<Step>, bare: set<nat>): int
    requires IsPath(f, steps)
    decreases |steps|
  {
    var g, start := First(f, steps), FirstLo(f, base, steps);
    if |steps| > 1 then Skew(g, start, steps[1..], bare)
    else if Bare(g, steps[0].sels, bare) then start
    else 0
  }

  // The last step of the path has its bounds in order.
  predicate LastOrdered(f: Field, base: int, steps: seq<Step>, bare: set<nat>, env: Env)
    requires IsPath(f, steps)
    decreases |steps|
  {
    var g, start := First(f, steps), FirstLo(f, base, steps);
    if |steps| > 1 then LastOrdered(g, start, steps[1..], bare, env)
    else Ordered(StepDims(g, steps[0].sels, start, bare), steps[0].sels, env)
  }

  // The product of the widths, in 32 bits.
  method DimensionsWidth(dims: seq<Dim>) returns (width: nat)
    ensures Size(dims) < WORD ==> width == Size(dims)
  {
    width := 1;
    var i := |dims|;
    while i > 0
      invariant 0 <= i <= |dims| && Cong(width, Size(dims[i..])) && width < WORD
    {
      i := i - 1;
      assert dims[i..][1..] == dims[i + 1..];
      CongMul(width, Size(dims[i + 1..]), dims[i].width);
      assert Size(dims[i + 1..]) * dims[i].width == dims[i].width * Size(dims[i + 1..]);
      width := Wrap(width * dims[i].width);
    }
    assert dims[0..] == dims;
  }

  // The width of a member divided by the indexed dimensions is the width of one block.
  lemma {:induction false} BlockByDivision(g: Field, k: nat)
    requires Proper(g) && k <= |g.dims|
    ensures 0 < Size(g.dims[..k]) <= Width(g) && Width(g) / Size(g.dims[..k]) == BlockWidth(g, k)
  {
    WidthIsBlock(g);
    BlockSplits(g, 0, k);
    WidthPositive(g);
    assert g.dims[0..k] == g.dims[..k];
    assert g.dims[..k] + g.dims[k..] == g.dims;
    SizeAppend(g.dims[..k], g.dims[k..]);
    var s, b := Size(g.dims[..k]), BlockWidth(g, k);
    assert s > 0;
    MulGrows(s, b);
    assert s * b > 0 ==> b != 0;
    DivUnique(s * b, s, b, 0);
  }

  // Shifting the element shifts every sub-object.
  lemma {:induction false} LocateShift(f: Field, lo: int, shift: int, steps: seq<Step>, env: Env)
    requires IsPath(f, steps)
    ensures Locate(f, lo + shift, steps, env) == Span(Locate(f, lo, steps, env).lo + shift, Locate(f, lo, steps, env).width)
    decreases |steps|
  {
    if |steps| > 1 {
      var g := First(f, steps);
      LocateShift(g, Spot(g, FirstLo(f, lo, steps), steps[0].sels, env).lo, shift, steps[1..], env);
    }
  }

  // The sum so far lacks only what the rest of the path adds, from the current struct on.
  ghost predicate Reached(node: Expr, cur: Field, rest: seq<Step>, wire: Wire, f: Field, wsels: seq<Sel>,
      steps: seq<Step>)
    requires |wsels| == |WireDims(wire, |wsels|)| && IsPath(cur, rest) && IsPath(f, steps)
  {
    forall env: Env :: ReachedIn(node, cur, rest, wire, f, wsels, steps, env)
  }

  ghost predicate ReachedIn(node: Expr, cur: Field, rest: seq<Step>, wire: Wire, f: Field, wsels: seq<Sel>,
      steps: seq<Step>, env: Env)
    requires |wsels| == |WireDims(wire, |wsels|)| && IsPath(cur, rest) && IsPath(f, steps)
  {
    Lacks(node, Locate(cur, 0, rest, env), Locate(f, ComputedStart(wire, f, wsels, env), steps, env), env)
  }

  ghost predicate Lacks(node: Expr, left: Span, target: Span, env: Env) {
    Cong(Eval(node, env) + left.lo, target.lo) && left.width == target.width
  }

  datatype RangeNode = RangeNode(left: Expr, right: Expr)

  // A range that evaluates to the bits of the sub-object in the element that the code
  // reaches, less the skew.
  ghost predicate Computes(r: RangeNode, wire: Wire, f: Field, wsels: seq<Sel>, steps: seq<Step>, bare: set<nat>,
      env: Env)
    requires |wsels| == |WireDims(wire, |wsels|)| && IsPath(f, steps)
  {
    Hits(r, Locate(f, ComputedStart(wire, f, wsels, env), steps, env), Skew(f, wire.right, steps, bare), env)
  }

  ghost predicate Hits(r: RangeNode, target: Span, skew: int, env: Env) {
    Cong(Eval(r.right, env), target.lo - skew) && Cong(Eval(r.left, env), target.lo - skew + target.width - 1)
  }

  // Turns foo[..].a[..].b[..] into one range of the wire foo; None is an unknown member.
  method ConvertDot(wire: Wire, f: Field, wsels: seq<Sel>, steps: seq<Step>, ranges: map<nat, Range>, bare: set<nat>)
    returns (r: Option<RangeNode>)
    requires Laid(wire, f, |wsels|, ranges) && AllOne(wsels) && steps != []
    requires Found(f, steps) ==> IsPath(f, steps)
    ensures r.Some? <==> Found(f, steps)
    ensures r.Some? <==> LeadsOn(f, steps)
    ensures r.Some? ==> DenotesIfOrdered(r.value, wire, f, wsels, steps, bare)
  {
    FoundIffLeads(f, steps);
    var selects := SearchStructAccess(f, steps);
    if selects.None? {
      return None;
    }
    StartStanding(wire, f, |wsels|, ranges);
    var rightNode := ConvertFirst(wire, f, wsels, steps, ranges);
    ghost var cur := f;
    var previous := wire.right;
    var i := 0;
    assert steps[0..] == steps && selects.value[0..] == selects.value;
    while i < |steps| - 1
      invariant 0 <= i < |steps| && IsPath(cur, steps[i..]) && Found(cur, steps[i..])
      invariant selects.value[i..] == Chain(cur, steps[i..])
      invariant Standing(cur, previous, ranges)
      invariant Reached(rightNode, cur, steps[i..], wire, f, wsels, steps)
      invariant SameEnd(f, wire.right, steps, cur, previous, steps[i..], bare)
    {
      ghost var rest := steps[i..];
      assert rest[1..] == steps[i + 1..] && selects.value[i..][1..] == selects.value[i + 1..];
      var g, sels := selects.value[i].member, selects.value[i].sels;
      assert selects.value[i] == selects.value[i..][0];
      NextStanding(cur, previous, rest, ranges);
      rightNode := ConvertNext(rightNode, g, sels, ranges, bare, cur, previous, rest, wire, f, wsels, steps);
      previous := ranges[g.id].right;
      cur := g;
      i := i + 1;
    }
    assert selects.value[i..][0] == selects.value[i];
    var g, sels := selects.value[i].member, selects.value[i].sels;
    var range := ConvertLast(rightNode, g, sels, ranges, bare, cur, previous, steps[i..], wire, f, wsels, steps);
    ComputedIsDenoted(range, wire, f, wsels, steps, bare);
    r := Some(range);
  }

  method ConvertNext(rightNode: Expr, g: Field, sels: seq<Sel>, ranges: map<nat, Range>, bare: set<nat>,
      ghost cur: Field, previous: int, ghost rest: seq<Step>, ghost wire: Wire, ghost f: Field, ghost wsels: seq<Sel>,
      ghost steps: seq<Step>)
    returns (r: Expr)
    requires |wsels| == |WireDims(wire, |wsels|)| && IsPath(cur, rest) && IsPath(f, steps) && |rest| > 1
    requires g == First(cur, rest) && sels == rest[0].sels && Standing(cur, previous, ranges)
    requires Reached(rightNode, cur, rest, wire, f, wsels, steps) && SameEnd(f, wire.right, steps, cur, previous, rest, bare)
    ensures g.id in ranges && ranges[g.id].right == FirstLo(cur, previous, rest)
    ensures Reached(r, g, rest[1..], wire, f, wsels, steps)
    ensures SameEnd(f, wire.right, steps, g, FirstLo(cur, previous, rest), rest[1..], bare)
  {
    FirstRange(cur, previous, rest, ranges);
    var offset, unused := ConvertAccess(g, sels, ranges[g.id], bare);
    StepDone(rightNode, offset, unused, cur, previous, rest, wire, f, wsels, steps, bare);
    r := Add(Add(rightNode, offset), Const(ranges[g.id].right - previous));
  }

  method ConvertLast(rightNode: Expr, g: Field, sels: seq<Sel>, ranges: map<nat, Range>, bare: set<nat>,
      ghost cur: Field, previous: int, ghost rest: seq<Step>, ghost wire: Wire, ghost f: Field, ghost wsels: seq<Sel>,
      ghost steps: seq<Step>)
    returns (r: RangeNode)
    requires |wsels| == |WireDims(wire, |wsels|)| && IsPath(cur, rest) && IsPath(f, steps) && |rest| == 1
    requires g == First(cur, rest) && sels == rest[0].sels && Standing(cur, previous, ranges)
    requires Reached(rightNode, cur, rest, wire, f, wsels, steps) && SameEnd(f, wire.right, steps, cur, previous, rest, bare)
    ensures ComputesIfOrdered(r, wire, f, wsels, steps, bare)
  {
    FirstRange(cur, previous, rest, ranges);
    var offset, count := ConvertAccess(g, sels, ranges[g.id], bare);
    var right := Add(Add(rightNode, offset), Const(ranges[g.id].right - previous));
    var left := Sub(Add(right, count), Const(1));
    FinishAll(rightNode, offset, count, cur, previous, rest, wire, f, wsels, steps, bare);
    r := RangeNode(left, right);
  }

  ghost predicate ComputesIfOrdered(r: RangeNode, wire: Wire, f: Field, wsels: seq<Sel>, steps: seq<Step>,
      bare: set<nat>)
    requires |wsels| == |WireDims(wire, |wsels|)| && IsPath(f, steps)
  {
    forall env: Env :: LastOrdered(f, wire.right, steps, bare, env) ==> Computes(r, wire, f, wsels, steps, bare, env)
  }

  lemma {:induction false} FirstRange(cur: Field, previous: int, rest: seq<Step>, ranges: map<nat, Range>)
    requires Standing(cur, previous, ranges) && IsPath(cur, rest)
    ensures var g, start := First(cur, rest), FirstLo(cur, previous, rest);
            g.id in ranges && ranges[g.id] == Range(start + Width(g) - 1, start) && Width(g) < WORD && Proper(g)
            && start - previous == FirstLo(cur, 0, rest)
  {
    FirstPlaced(cur, previous, rest, ranges);
  }

  // The current struct is placed from previous on.
  ghost predicate Standing(cur: Field, previous: int, ranges: map<nat, Range>) {
    && !cur.kind.Item? && Proper(cur) && UnionsAgree(cur) && Distinct(cur) && Shows(ranges, Placed(cur, previous))
    && 0 <= previous && ElemWidth(cur) < WORD
  }

  lemma {:induction false} StartStanding(wire: Wire, f: Field, n: nat, ranges: map<nat, Range>)
    requires Laid(wire, f, n, ranges)
    ensures Standing(f, wire.right, ranges)
  {
    WidthPositive(f);
    MulGrows(ElemWidth(f), Size(WireDims(wire, n)));
  }

  lemma {:induction false} NextStanding(cur: Field, previous: int, rest: seq<Step>, ranges: map<nat, Range>)
    requires Standing(cur, previous, ranges) && IsPath(cur, rest) && |rest| > 1
    ensures Standing(First(cur, rest), FirstLo(cur, previous, rest), ranges)
  {
    FirstPlaced(cur, previous, rest, ranges);
  }

  lemma {:induction false} StepDone(node: Expr, offset: Expr, count: Expr, cur: Field, previous: int, rest: seq<Step>,
      wire: Wire, f: Field, wsels: seq<Sel>, steps: seq<Step>, bare: set<nat>)
    requires |wsels| == |WireDims(wire, |wsels|)| && IsPath(cur, rest) && IsPath(f, steps) && |rest| > 1
    requires Reached(node, cur, rest, wire, f, wsels, steps) && SameEnd(f, wire.right, steps, cur, previous, rest, bare)
    requires AddsIfOrdered(offset, count, First(cur, rest), rest[0].sels, FirstLo(cur, previous, rest), bare)
    ensures Reached(Add(Add(node, offset), Const(FirstLo(cur, 0, rest))), First(cur, rest), rest[1..], wire, f, wsels, steps)
    ensures SameEnd(f, wire.right, steps, First(cur, rest), FirstLo(cur, previous, rest), rest[1..], bare)
  {
    PlainStep(offset, count, cur, rest, FirstLo(cur, previous, rest), bare);
    Advance(node, offset, count, cur, rest, wire, f, wsels, steps);
    SameEndStep(f, wire.right, steps, cur, previous, rest, bare);
  }

  // The rest of the path ends like the whole of it.
  ghost predicate SameEnd(f: Field, base: int, steps: seq<Step>, cur: Field, previous: int, rest: seq<Step>,
      bare: set<nat>)
    requires IsPath(f, steps) && IsPath(cur, rest)
  {
    && Skew(f, base, steps, bare) == Skew(cur, previous, rest, bare)
    && forall env: Env :: LastOrdered(f, base, steps, bare, env) == LastOrdered(cur, previous, rest, bare, env)
  }

  lemma {:induction false} SameEndStep(f: Field, base: int, steps: seq<Step>, cur: Field, previous: int,
      rest: seq<Step>, bare: set<nat>)
    requires IsPath(f, steps) && IsPath(cur, rest) && |rest| > 1 && SameEnd(f, base, steps, cur, previous, rest, bare)
    ensures SameEnd(f, base, steps, First(cur, rest), FirstLo(cur, previous, rest), rest[1..], bare)
  {
    forall env: Env
      ensures LastOrdered(f, base, steps, bare, env) == LastOrdered(First(cur, rest), FirstLo(cur, previous, rest), rest[1..], bare, env)
    {
      assert LastOrdered(f, base, steps, bare, env) == LastOrdered(cur, previous, rest, bare, env);
    }
  }

  // A step that is not the last has single indices only.
  lemma {:induction false} PlainStep(offset: Expr, count: Expr, cur: Field, rest: seq<Step>, start: int, bare: set<nat>)
    requires IsPath(cur, rest) && |rest| > 1
    requires AddsIfOrdered(offset, count, First(cur, rest), rest[0].sels, start, bare)
    ensures forall env: Env :: Adds(offset, count, First(cur, rest), rest[0].sels, 0, env)
  {
    var g, sels := First(cur, rest), rest[0].sels;
    forall env: Env ensures Adds(offset, count, g, sels, 0, env) {
      assert Ordered(StepDims(g, sels, start, bare), sels, env);
    }
  }

  lemma {:induction false} FinishAll(node: Expr, offset: Expr, count: Expr, cur: Field, previous: int, rest: seq<Step>,
      wire: Wire, f: Field, wsels: seq<Sel>, steps: seq<Step>, bare: set<nat>)
    requires |wsels| == |WireDims(wire, |wsels|)| && IsPath(cur, rest) && IsPath(f, steps) && |rest| == 1
    requires Reached(node, cur, rest, wire, f, wsels, steps) && SameEnd(f, wire.right, steps, cur, previous, rest, bare)
    requires AddsIfOrdered(offset, count, First(cur, rest), rest[0].sels, FirstLo(cur, previous, rest), bare)
    ensures ComputesIfOrdered(Closed(node, offset, FirstLo(cur, 0, rest), count), wire, f, wsels, steps, bare)
  {
    forall env: Env | LastOrdered(f, wire.right, steps, bare, env)
      ensures Computes(Closed(node, offset, FirstLo(cur, 0, rest), count), wire, f, wsels, steps, bare, env)
    {
      assert LastOrdered(cur, previous, rest, bare, env);
      assert ReachedIn(node, cur, rest, wire, f, wsels, steps, env);
      FinishIn(node, offset, count, cur, rest, wire, f, wsels, steps, bare, env);
    }
  }

  lemma {:induction false} FinishIn(node: Expr, offset: Expr, count: Expr, cur: Field, rest: seq<Step>, wire: Wire,
      f: Field, wsels: seq<Sel>, steps: seq<Step>, bare: set<nat>, env: Env)
    requires |wsels| == |WireDims(wire, |wsels|)| && IsPath(cur, rest) && IsPath(f, steps) && |rest| == 1
    requires ReachedIn(node, cur, rest, wire, f, wsels, steps, env)
    requires Adds(offset, count, First(cur, rest), rest[0].sels, Skew(f, wire.right, steps, bare), env)
    ensures Computes(Closed(node, offset, FirstLo(cur, 0, rest), count), wire, f, wsels, steps, bare, env)
  {
    var d, s := FirstLo(cur, 0, rest), Spot(First(cur, rest), 0, rest[0].sels, env);
    var skew, target := Skew(f, wire.right, steps, bare), Locate(f, ComputedStart(wire, f, wsels, env), steps, env);
    LocateStep(cur, rest, env);
    assert Lacks(node, Span(d + s.lo, s.width), target, env);
    assert AddsSpan(offset, count, s, skew, env);
    Finish(node, offset, count, d, s, skew, target, env);
  }

  // A path of names without selects denotes the range recorded for the member that the
  // names lead to.
  lemma {:induction false} NamesDenoteRange(f: Field, lo: int, steps: seq<Step>, path: seq<Field>,
      ranges: map<nat, Range>, env: Env)
    requires IsPath(f, steps) && Proper(f) && UnionsAgree(f) && Distinct(f) && Shows(ranges, Placed(f, lo))
    requires Leads(f, steps, path) && |path| == |steps| && forall k | 0 <= k < |steps| :: steps[k].sels == []
    ensures var g := path[|path| - 1];
            g.id in ranges && Locate(f, lo, steps, env) == Span(ranges[g.id].right, Width(g)) &&
            ranges[g.id].left == ranges[g.id].right + Width(g) - 1
    decreases |steps|
  {
    var g, start := First(f, steps), FirstLo(f, lo, steps);
    FindIsFirst(Members(f), steps[0].name);
    assert Named(f, steps[0].name, g);
    NamedOnce(f, steps[0].name, g, path[0]);
    FirstPlaced(f, lo, steps, ranges);
    WholeSpot(g, start, env);
    if |steps| > 1 { NamesDenoteRange(g, start, steps[1..], path[1..], ranges, env); }
  }

  lemma {:induction false} WholeSpot(g: Field, lo: int, env: Env)
    requires Proper(g)
    ensures Spot(g, lo, [], env) == Span(lo, Width(g))
  {
    WidthIsBlock(g);
    assert RowMajor(g.dims[..0], LowIndices(g.dims[..0], [], env)) == 0;
  }

  // What one step adds: the position of its selects within the member, and their width.
  ghost predicate Adds(offset: Expr, count: Expr, g: Field, sels: seq<Sel>, skew: int, env: Env)
    requires |sels| <= |g.dims|
  {
    AddsSpan(offset, count, Spot(g, 0, sels, env), skew, env)
  }

  ghost predicate AddsIfOrdered(offset: Expr, count: Expr, g: Field, sels: seq<Sel>, start: int, bare: set<nat>)
    requires |sels| <= |g.dims|
  {
    forall env: Env :: Ordered(StepDims(g, sels, start, bare), sels, env) ==>
      Adds(offset, count, g, sels, if Bare(g, sels, bare) then start else 0, env)
  }

  ghost predicate AddsSpan(offset: Expr, count: Expr, s: Span, skew: int, env: Env) {
    Cong(Eval(offset, env), s.lo - skew) && Cong(Eval(count, env), s.width)
  }

  method ConvertAccess(g: Field, sels: seq<Sel>, range: Range, bare: set<nat>) returns (offset: Expr, count: Expr)
    requires Proper(g) && |sels| <= |g.dims| && OnlyLastTwo(sels)
    requires range.left - range.right + 1 == Width(g) < WORD
    ensures AddsIfOrdered(offset, count, g, sels, range.right, bare)
  {
    var dims := StepDims(g, sels, range.right, bare);
    BlockByDivision(g, |sels|);
    ghost var full := g.dims[..|sels|];
    if Bare(g, sels, bare) {
      assert full == g.dims;
      OneDim(dims[0], 0);
      OneDim(g.dims[0], 0);
    }
    var product := DimensionsWidth(dims);
    var sub := (range.left - range.right + 1) / product;
    offset, count := TraverseDimensions(dims, sels, sub);
    forall env: Env | Ordered(dims, sels, env)
      ensures Adds(offset, count, g, sels, if Bare(g, sels, bare) then range.right else 0, env)
    {
      if Bare(g, sels, bare) { BareSpot(g, sels, range.right, env); }
    }
  }

  lemma {:induction false} BareSpot(g: Field, sels: seq<Sel>, start: int, env: Env)
    requires Proper(g) && g.kind.Item? && g.dims == [Dim(0, g.kind.width, false)] && |sels| == 1
    ensures BlockWidth(g, 1) == 1
    ensures RowMajor([Dim(start, g.kind.width, false)], LowIndices([Dim(start, g.kind.width, false)], sels, env)) == Spot(g, 0, sels, env).lo - start
  {
    OneDim(g.dims[0], 0);
    assert g.dims[1..] == [] && g.dims[..1] == g.dims;
    var d := Dim(start, g.kind.width, false);
    var i := LowIndex(d, sels[0], env);
    assert LowIndices([d], sels, env) == [i] && LowIndices(g.dims, sels, env) == [i];
    OneDim(d, i);
    OneDim(g.dims[0], i);
  }

  // The wire counts as the first access.
  method ConvertFirst(wire: Wire, f: Field, wsels: seq<Sel>, ghost steps: seq<Step>,
      ghost ranges: map<nat, Range>) returns (node: Expr)
    requires Laid(wire, f, |wsels|, ranges) && AllOne(wsels) && IsPath(f, steps)
    ensures Reached(node, f, steps, wire, f, wsels, steps)
  {
    var dims := WireDims(wire, |wsels|);
    ghost var e, s := ElemWidth(f), Size(dims);
    WidthPositive(f);
    MulGrows(s, e);
    DivUnique(s * e, s, e, 0);
    var product := DimensionsWidth(dims);
    var sub := (wire.left - wire.right + 1) / product;
    assert sub == e;
    var offset, unused := TraverseDimensions(dims, wsels, sub);
    node := Add(Add(Const(0), offset), Const(wire.right));
    forall env: Env ensures ReachedIn(node, f, steps, wire, f, wsels, steps, env) {
      assert Ordered(dims, wsels, env);
      StartReached(offset, f, steps, wire, wsels, env);
    }
  }

  lemma {:induction false} StartReached(offset: Expr, f: Field, steps: seq<Step>, wire: Wire, wsels: seq<Sel>, env: Env)
    requires |wsels| == |WireDims(wire, |wsels|)| && IsPath(f, steps)
    requires Cong(Eval(offset, env), ComputedStart(wire, f, wsels, env) - wire.right)
    ensures ReachedIn(Add(Add(Const(0), offset), Const(wire.right)), f, steps, wire, f, wsels, steps, env)
  {
    var start := ComputedStart(wire, f, wsels, env);
    LocateShift(f, 0, start, steps, env);
    StartLacks(offset, Locate(f, 0, steps, env), start, wire.right, env);
  }

  lemma {:induction false} StartLacks(offset: Expr, s: Span, start: int, right: int, env: Env)
    requires Cong(Eval(offset, env), start - right)
    ensures Lacks(Add(Add(Const(0), offset), Const(right)), s, Span(s.lo + start, s.width), env)
  {
    EvalSum(Const(0), offset, right, env);
    CongAdd(Eval(offset, env), start - right, right + s.lo, right + s.lo);
  }

  lemma {:induction false} FirstPlaced(f: Field, base: int, steps: seq<Step>, ranges: map<nat, Range>)
    requires IsPath(f, steps) && Proper(f) && UnionsAgree(f) && Distinct(f) && Shows(ranges, Placed(f, base))
    ensures var g, start := First(f, steps), FirstLo(f, base, steps);
            && g.id in ranges && ranges[g.id] == Range(start + Width(g) - 1, start)
            && Proper(g) && UnionsAgree(g) && Distinct(g) && Shows(ranges, Placed(g, start))
            && Width(g) <= ElemWidth(f) && ElemWidth(g) <= Width(g)
  {
    var i := Find(f.kind.members, steps[0].name);
    FirstProper(f, steps);
    MemberPlaced(f.kind.members, base, f.kind.Struct?, i, ranges);
    MembersInside(f, i);
    MulGrows(ElemWidth(First(f, steps)), Size(First(f, steps).dims)) by { WidthPositive(First(f, steps)); }
  }

  // Taking the first step of a path moves its position and width into the rest.
  lemma {:induction false} LocateStep(cur: Field, rest: seq<Step>, env: Env)
    requires IsPath(cur, rest)
    ensures var s := Spot(First(cur, rest), 0, rest[0].sels, env);
            var d := FirstLo(cur, 0, rest);
            Locate(cur, 0, rest, env) ==
            if |rest| == 1 then Span(d + s.lo, s.width)
            else Span(d + s.lo + Locate(First(cur, rest), 0, rest[1..], env).lo, Locate(First(cur, rest), 0, rest[1..], env).width)
  {
    var g, d := First(cur, rest), FirstLo(cur, 0, rest);
    if |rest| > 1 { LocateShift(g, 0, Spot(g, d, rest[0].sels, env).lo, rest[1..], env); }
  }

  lemma {:induction false} StepSum(node: int, offset: int, p: int, d: int, rest: int, target: int)
    requires Cong(node + (d + p + rest), target) && Cong(offset, p)
    ensures Cong(node + offset + d + rest, target)
  {
    CongAdd(offset, p, node + d + rest, node + d + rest);
  }

  lemma {:induction false} EvalSum(node: Expr, offset: Expr, d: int, env: Env)
    ensures Eval(Add(Add(node, offset), Const(d)), env) == Eval(node, env) + Eval(offset, env) + d
  {
    assert Eval(Add(node, offset), env) == Eval(node, env) + Eval(offset, env);
  }

  lemma {:induction false} Advance(node: Expr, offset: Expr, count: Expr, cur: Field, rest: seq<Step>, wire: Wire,
      f: Field, wsels: seq<Sel>, steps: seq<Step>)
    requires |wsels| == |WireDims(wire, |wsels|)| && IsPath(cur, rest) && IsPath(f, steps) && |rest| > 1
    requires Reached(node, cur, rest, wire, f, wsels, steps)
    requires forall env: Env :: Adds(offset, count, First(cur, rest), rest[0].sels, 0, env)
    ensures Reached(Add(Add(node, offset), Const(FirstLo(cur, 0, rest))), First(cur, rest), rest[1..], wire, f, wsels, steps)
  {
    forall env: Env
      ensures ReachedIn(Add(Add(node, offset), Const(FirstLo(cur, 0, rest))), First(cur, rest), rest[1..], wire, f, wsels, steps, env)
    {
      assert Adds(offset, count, First(cur, rest), rest[0].sels, 0, env);
      AdvanceIn(node, offset, count, cur, rest, wire, f, wsels, steps, env);
    }
  }

  lemma {:induction false} AdvanceIn(node: Expr, offset: Expr, count: Expr, cur: Field, rest: seq<Step>, wire: Wire,
      f: Field, wsels: seq<Sel>, steps: seq<Step>, env: Env)
    requires |wsels| == |WireDims(wire, |wsels|)| && IsPath(cur, rest) && IsPath(f, steps) && |rest| > 1
    requires ReachedIn(node, cur, rest, wire, f, wsels, steps, env)
    requires Adds(offset, count, First(cur, rest), rest[0].sels, 0, env)
    ensures ReachedIn(Add(Add(node, offset), Const(FirstLo(cur, 0, rest))), First(cur, rest), rest[1..], wire, f, wsels, steps, env)
  {
    var target := Locate(f, ComputedStart(wire, f, wsels, env), steps, env);
    LocateStep(cur, rest, env);
    EvalSum(node, offset, FirstLo(cur, 0, rest), env);
    StepSum(Eval(node, env), Eval(offset, env), Spot(First(cur, rest), 0, rest[0].sels, env).lo, FirstLo(cur, 0, rest),
      Locate(First(cur, rest), 0, rest[1..], env).lo, target.lo);
  }

  lemma {:induction false} Finish(node: Expr, offset: Expr, count: Expr, d: int, s: Span, skew: int, target: Span,
      env: Env)
    requires Lacks(node, Span(d + s.lo, s.width), target, env) && AddsSpan(offset, count, s, skew, env)
    ensures Hits(Closed(node, offset, d, count), target, skew, env)
  {
    ClosedValues(node, offset, d, count, env);
    LastSum(Eval(node, env), Eval(offset, env), Eval(count, env), d, skew, s, target,
      Eval(Closed(node, offset, d, count).right, env), Eval(Closed(node, offset, d, count).left, env));
  }

  // The range built from the sum so far, the last offset and width.
  function Closed(node: Expr, offset: Expr, d: int, count: Expr): RangeNode {
    var right := Add(Add(node, offset), Const(d));
    RangeNode(Sub(Add(right, count), Const(1)), right)
  }

  lemma {:induction false} ClosedValues(node: Expr, offset: Expr, d: int, count: Expr, env: Env)
    ensures Eval(Closed(node, offset, d, count).right, env) == Eval(node, env) + Eval(offset, env) + d
    ensures Eval(Closed(node, offset, d, count).left, env) == Eval(node, env) + Eval(offset, env) + d + Eval(count, env) - 1
  {
    EvalSum(node, offset, d, env);
    var right := Closed(node, offset, d, count).right;
    assert Eval(Add(right, count), env) == Eval(right, env) + Eval(count, env);
  }

  lemma {:induction false} LastSum(node: int, offset: int, count: int, d: int, skew: int, s: Span, target: Span,
      right: int, left: int)
    requires Cong(node + (d + s.lo), target.lo) && Cong(offset, s.lo - skew) && Cong(count, s.width) && s.width == target.width
    requires right == node + offset + d && left == node + offset + d + count - 1
    ensures Cong(right, target.lo - skew) && Cong(left, target.lo - skew + target.width - 1)
  {
    StepSum(node, offset, s.lo - skew, d, skew, target.lo);
    CongAdd(right + skew, target.lo, skew, skew);
    CongAdd(right, target.lo - skew, count, target.width);
    CongAdd(right + count, target.lo - skew + target.width, 1, 1);
  }

  // ---------- the declared sub-object ----------

  function Target(wire: Wire, f: Field, wsels: seq<Sel>, steps: seq<Step>, env: Env): Span
    requires |wsels| == |WireDims(wire, |wsels|)| && IsPath(f, steps)
  {
    Locate(f, ElementStart(wire, f, wsels, env), steps, env)
  }

  // How far the element that the code reaches lies above the declared one.
  function Mirrored(wire: Wire, f: Field, wsels: seq<Sel>, env: Env): int
    requires |wsels| == |WireDims(wire, |wsels|)|
  {
    ComputedStart(wire, f, wsels, env) - ElementStart(wire, f, wsels, env)
  }

  // A range that evaluates to the bits of the declared sub-object, but for the distance of
  // the element that the code reaches and the skew.
  ghost predicate Denotes(r: RangeNode, wire: Wire, f: Field, wsels: seq<Sel>, steps: seq<Step>, bare: set<nat>,
      env: Env)
    requires |wsels| == |WireDims(wire, |wsels|)| && IsPath(f, steps)
  {
    Hits(r, Target(wire, f, wsels, steps, env), Skew(f, wire.right, steps, bare) - Mirrored(wire, f, wsels, env), env)
  }

  ghost predicate DenotesIfOrdered(r: RangeNode, wire: Wire, f: Field, wsels: seq<Sel>, steps: seq<Step>,
      bare: set<nat>)
    requires |wsels| == |WireDims(wire, |wsels|)| && IsPath(f, steps)
  {
    forall env: Env :: LastOrdered(f, wire.right, steps, bare, env) ==> Denotes(r, wire, f, wsels, steps, bare, env)
  }

  lemma {:induction false} DenotesIffComputes(r: RangeNode, wire: Wire, f: Field, wsels: seq<Sel>, steps: seq<Step>,
      bare: set<nat>, env: Env)
    requires |wsels| == |WireDims(wire, |wsels|)| && IsPath(f, steps)
    ensures Denotes(r, wire, f, wsels, steps, bare, env) <==> Computes(r, wire, f, wsels, steps, bare, env)
  {
    var start, shift := ElementStart(wire, f, wsels, env), Mirrored(wire, f, wsels, env);
    LocateShift(f, start, shift, steps, env);
    HitsShifted(r, Locate(f, start, steps, env), Locate(f, start + shift, steps, env), shift, Skew(f, wire.right, steps, bare), env);
  }

  lemma {:induction false} HitsShifted(r: RangeNode, s: Span, t: Span, shift: int, skew: int, env: Env)
    requires t == Span(s.lo + shift, s.width)
    ensures Hits(r, s, skew - shift, env) <==> Hits(r, t, skew, env)
  {
    assert s.lo - (skew - shift) == t.lo - skew;
  }

  lemma {:induction false} ComputedIsDenoted(r: RangeNode, wire: Wire, f: Field, wsels: seq<Sel>, steps: seq<Step>,
      bare: set<nat>)
    requires |wsels| == |WireDims(wire, |wsels|)| && IsPath(f, steps) && ComputesIfOrdered(r, wire, f, wsels, steps, bare)
    ensures DenotesIfOrdered(r, wire, f, wsels, steps, bare)
  {
    forall env: Env | LastOrdered(f, wire.right, steps, bare, env) ensures Denotes(r, wire, f, wsels, steps, bare, env) {
      DenotesIffComputes(r, wire, f, wsels, steps, bare, env);
    }
  }

  // ---------- inside the wire ----------

  // Full single selects in range, and a path in range.
  ghost predicate ReachInRange(dims: seq<Dim>, f: Field, sels: seq<Sel>, steps: seq<Step>, env: Env) {
    && Proper(f) && UnionsAgree(f) && IsPath(f, steps) && PathInRange(f, steps, env)
    && |sels| == |dims| && AllOne(sels) && SelsInRange(dims, sels, env)
  }

  ghost predicate WireInRange(wire: Wire, f: Field, wsels: seq<Sel>, steps: seq<Step>, ranges: map<nat, Range>,
      env: Env) {
    && Laid(wire, f, |wsels|, ranges) && AllOne(wsels) && IsPath(f, steps)
    && SelsInRange(DeclaredDims(wire, |wsels|), wsels, env) && PathInRange(f, steps, env)
  }

  // In range for the declared dimensions is in range for those of the code.
  lemma {:induction false} BothInRange(wire: Wire, f: Field, wsels: seq<Sel>, steps: seq<Step>,
      ranges: map<nat, Range>, env: Env)
    requires WireInRange(wire, f, wsels, steps, ranges, env)
    ensures ReachInRange(DeclaredDims(wire, |wsels|), f, wsels, steps, env)
    ensures ReachInRange(WireDims(wire, |wsels|), f, wsels, steps, env)
    ensures Size(WireDims(wire, |wsels|)) == Size(DeclaredDims(wire, |wsels|))
  {
    SizePlain(DeclaredDims(wire, |wsels|));
    forall i | 0 <= i < |wsels| ensures SelInDim(WireDims(wire, |wsels|)[i], wsels[i], env) {
      assert SelInDim(DeclaredDims(wire, |wsels|)[i], wsels[i], env);
    }
  }

  lemma {:induction false} ElementInWire(base: int, dims: seq<Dim>, f: Field, sels: seq<Sel>, env: Env)
    requires |sels| == |dims| && AllOne(sels) && SelsInRange(dims, sels, env)
    ensures Inside(Span(StartIn(base, dims, f, sels, env), ElemWidth(f)), Span(base, Size(dims) * ElemWidth(f)))
  {
    SelectsFit(dims, sels, env);
    RowFit(RowMajor(dims, LowIndices(dims, sels, env)), Size(dims), ElemWidth(f));
  }

  lemma {:induction false} RowFit(r: nat, s: nat, e: nat)
    requires r < s
    ensures 0 <= r * e && r * e + e <= s * e
  {
    FitsRow(r, s, e, 0, e);
    MulMono(e, 0, r);
  }

  lemma {:induction false} ReachInWire(base: int, dims: seq<Dim>, f: Field, sels: seq<Sel>, steps: seq<Step>, env: Env)
    requires ReachInRange(dims, f, sels, steps, env)
    ensures var t := Locate(f, StartIn(base, dims, f, sels, env), steps, env);
            Inside(t, Span(base, Size(dims) * ElemWidth(f))) && t.width > 0
  {
    ElementInWire(base, dims, f, sels, env);
    LocateInside(f, StartIn(base, dims, f, sels, env), steps, env);
    LocateNonempty(f, StartIn(base, dims, f, sels, env), steps, env);
  }

  // The declared sub-object lies inside the wire.
  lemma {:induction false} TargetInWire(wire: Wire, f: Field, wsels: seq<Sel>, steps: seq<Step>,
      ranges: map<nat, Range>, env: Env)
    requires WireInRange(wire, f, wsels, steps, ranges, env)
    ensures Inside(Target(wire, f, wsels, steps, env), Span(wire.right, wire.left - wire.right + 1))
    ensures Target(wire, f, wsels, steps, env).width > 0
  {
    BothInRange(wire, f, wsels, steps, ranges, env);
    ReachInWire(wire.right, DeclaredDims(wire, |wsels|), f, wsels, steps, env);
  }

  lemma {:induction false} LocateNonempty(f: Field, lo: int, steps: seq<Step>, env: Env)
    requires Proper(f) && UnionsAgree(f) && IsPath(f, steps) && PathInRange(f, steps, env)
    ensures Locate(f, lo, steps, env).width > 0
    decreases |steps|
  {
    var g, sels := First(f, steps), steps[0].sels;
    FirstProper(f, steps);
    if |steps| > 1 {
      LocateNonempty(g, Spot(g, FirstLo(f, lo, steps), sels, env).lo, steps[1..], env);
    } else {
      BlockByDivision(g, |sels|);
      WidthPositive(g);
      BlockNonempty(g, |sels|);
      RestInRange(g, sels, 0, env);
      assert g.dims[0..|sels|] == g.dims[..|sels|] && sels[0..] == sels;
      SelectsFit(g.dims[..|sels|], sels, env);
      MulGrows(BlockWidth(g, |sels|), Count(sels, env));
    }
  }

  lemma {:induction false} BlockNonempty(g: Field, k: nat)
    requires Proper(g) && k <= |g.dims|
    ensures BlockWidth(g, k) > 0
  {
    WidthIsBlock(g);
    BlockSplits(g, 0, k);
    WidthPositive(g);
    var b := BlockWidth(g, k);
    assert Size(g.dims[0..k]) * b > 0;
  }

  // ---------- when the range is right ----------

  // Every index into an ascending dimension of the wire is the middle one.
  predicate WireCentred(wire: Wire, wsels: seq<Sel>, env: Env)
    requires |wsels| == |WireDims(wire, |wsels|)|
  {
    Centred(DeclaredDims(wire, |wsels|), LowIndices(DeclaredDims(wire, |wsels|), wsels, env))
  }

  lemma {:induction false} MirroredIff(wire: Wire, f: Field, wsels: seq<Sel>, steps: seq<Step>,
      ranges: map<nat, Range>, env: Env)
    requires WireInRange(wire, f, wsels, steps, ranges, env)
    ensures Mirrored(wire, f, wsels, env) == 0 <==> WireCentred(wire, wsels, env)
    ensures Mirrored(wire, f, wsels, env) > 0 ==> Mirrored(wire, f, wsels, env) >= ElemWidth(f)
    ensures var size := wire.left - wire.right + 1; ElemWidth(f) - size <= Mirrored(wire, f, wsels, env) <= size - ElemWidth(f)
  {
    var dims, e := DeclaredDims(wire, |wsels|), ElemWidth(f);
    var idx := LowIndices(dims, wsels, env);
    BothInRange(wire, f, wsels, steps, ranges, env);
    ElementInWire(wire.right, dims, f, wsels, env);
    ElementInWire(wire.right, Plain(dims), f, wsels, env);
    assert LowIndices(Plain(dims), wsels, env) == idx;
    SinglesInRange(dims, wsels, env);
    DirectionIff(dims, idx);
    WidthPositive(f);
    ProductsApart(RowMajor(Plain(dims), idx), RowMajor(dims, idx), e);
  }

  lemma {:induction false} ProductsApart(a: int, b: int, e: nat)
    requires e > 0
    ensures a * e == b * e <==> a == b
    ensures a * e > b * e ==> a * e - b * e >= e
  {
    CancelIff(a, b, e);
    if a > b { MulGrows(e, a - b); assert e * (a - b) == a * e - b * e; }
    if a < b { MulGrows(e, b - a); assert e * (b - a) == b * e - a * e; }
  }

  // With in-range indices the 32-bit bounds are exactly those of the declared sub-object,
  // which lies inside the wire, unless the path ends in a select on a member without
  // recorded dimensions or an ascending dimension of the wire is indexed off its middle.
  lemma {:induction false} RangeExact(r: RangeNode, wire: Wire, f: Field, wsels: seq<Sel>, steps: seq<Step>,
      ranges: map<nat, Range>, bare: set<nat>, env: Env)
    requires WireInRange(wire, f, wsels, steps, ranges, env) && Denotes(r, wire, f, wsels, steps, bare, env)
    requires Skew(f, wire.right, steps, bare) == 0 && WireCentred(wire, wsels, env)
    ensures var t := Target(wire, f, wsels, steps, env);
            && wire.right <= t.lo <= t.lo + t.width - 1 <= wire.left
            && Wrap(Eval(r.right, env)) == t.lo && Wrap(Eval(r.left, env)) == t.lo + t.width - 1
  {
    TargetInWire(wire, f, wsels, steps, ranges, env);
    MirroredIff(wire, f, wsels, steps, ranges, env);
    HitsExactly(r, Target(wire, f, wsels, steps, env), wire.right, wire.left, env);
  }

  // The bounds are exactly those of the sub-object in the element that the code reaches.
  lemma {:induction false} ComputedExact(r: RangeNode, wire: Wire, f: Field, wsels: seq<Sel>, steps: seq<Step>,
      ranges: map<nat, Range>, bare: set<nat>, env: Env)
    requires WireInRange(wire, f, wsels, steps, ranges, env) && Denotes(r, wire, f, wsels, steps, bare, env)
    requires Skew(f, wire.right, steps, bare) == 0
    ensures var t := Locate(f, ComputedStart(wire, f, wsels, env), steps, env);
            && wire.right <= t.lo <= t.lo + t.width - 1 <= wire.left
            && Wrap(Eval(r.right, env)) == t.lo && Wrap(Eval(r.left, env)) == t.lo + t.width - 1
  {
    BothInRange(wire, f, wsels, steps, ranges, env);
    ReachInWire(wire.right, WireDims(wire, |wsels|), f, wsels, steps, env);
    DenotesIffComputes(r, wire, f, wsels, steps, bare, env);
    HitsExactly(r, Locate(f, ComputedStart(wire, f, wsels, env), steps, env), wire.right, wire.left, env);
  }

  lemma {:induction false} HitsExactly(r: RangeNode, t: Span, right: int, left: int, env: Env)
    requires Hits(r, t, 0, env) && t.width > 0 && Inside(t, Span(right, left - right + 1)) && 0 <= right <= left < WORD
    ensures right <= t.lo <= t.lo + t.width - 1 <= left
    ensures Wrap(Eval(r.right, env)) == t.lo && Wrap(Eval(r.left, env)) == t.lo + t.width - 1
  {
    Small(Wrap(Eval(r.right, env)), t.lo);
    Small(Wrap(Eval(r.left, env)), t.lo + t.width - 1);
  }

  lemma {:induction false} SkewBounds(f: Field, base: int, steps: seq<Step>, bare: set<nat>)
    requires Proper(f) && UnionsAgree(f) && IsPath(f, steps) && 0 <= base
    ensures 0 <= Skew(f, base, steps, bare) < base + ElemWidth(f)
    decreases |steps|
  {
    var g, start := First(f, steps), FirstLo(f, base, steps);
    FirstProper(f, steps);
    MembersInside(f, Find(f.kind.members, steps[0].name));
    WidthPositive(f);
    WidthPositive(g);
    if |steps| > 1 {
      MulGrows(ElemWidth(g), Size(g.dims));
      SkewBounds(g, start, steps[1..], bare);
    }
  }

  // The range is right exactly when the two ways to miss the declared sub-object cancel
  // out: the distance of the element that the code reaches, and the skew. On a wire that
  // starts at bit 0, and for any path without skew, that is when there is neither.
  lemma {:induction false} RangeIsRightIff(r: RangeNode, wire: Wire, f: Field, wsels: seq<Sel>, steps: seq<Step>,
      ranges: map<nat, Range>, bare: set<nat>, env: Env)
    requires WireInRange(wire, f, wsels, steps, ranges, env) && Denotes(r, wire, f, wsels, steps, bare, env)
    ensures var skew := Skew(f, wire.right, steps, bare);
            var right := Cong(Eval(r.right, env), Target(wire, f, wsels, steps, env).lo);
            && (right <==> Mirrored(wire, f, wsels, env) == skew)
            && (skew == 0 || wire.right == 0 ==> (right <==> skew == 0 && WireCentred(wire, wsels, env)))
  {
    SkewBounds(f, wire.right, steps, bare);
    MirroredIff(wire, f, wsels, steps, ranges, env);
    SkewShows(Eval(r.right, env), Target(wire, f, wsels, steps, env).lo, Skew(f, wire.right, steps, bare) - Mirrored(wire, f, wsels, env));
  }

  lemma {:induction false} SkewShows(a: int, t: int, skew: int)
    requires Cong(a, t - skew) && 0 - WORD < skew < WORD
    ensures Cong(a, t) <==> skew == 0
  {
  }

  // ---------- different paths ----------

  // Paths into different elements, or that part inside the same element, reach disjoint
  // bits, with either kind of dimensions.
  lemma {:induction false} ReachesDisjoint(base: int, dims: seq<Dim>, f: Field, a: seq<Sel>, p: seq<Step>, b: seq<Sel>,
      q: seq<Step>, env: Env)
    requires ReachInRange(dims, f, a, p, env) && ReachInRange(dims, f, b, q, env)
    requires IndexDiffers(a, b, env) || (SameIndices(a, b, env) && Part(f, p, q, env))
    ensures Disjoint(Locate(f, StartIn(base, dims, f, a, env), p, env), Locate(f, StartIn(base, dims, f, b, env), q, env))
  {
    var x, y := StartIn(base, dims, f, a, env), StartIn(base, dims, f, b, env);
    if IndexDiffers(a, b, env) {
      ElementsApart(dims, ElemWidth(f), a, b, env);
      LocateInside(f, x, p, env);
      LocateInside(f, y, q, env);
      Apart(x, y, ElemWidth(f), Locate(f, x, p, env), Locate(f, y, q, env));
    } else {
      assert LowIndices(dims, a, env) == LowIndices(dims, b, env);
      PartedPathsDisjoint(f, x, p, q, env);
    }
  }

  // The declared sub-objects of such paths are disjoint.
  lemma {:induction false} WirePathsDisjoint(wire: Wire, f: Field, ranges: map<nat, Range>, a: seq<Sel>, p: seq<Step>,
      b: seq<Sel>, q: seq<Step>, env: Env)
    requires WireInRange(wire, f, a, p, ranges, env) && WireInRange(wire, f, b, q, ranges, env) && |a| == |b|
    requires IndexDiffers(a, b, env) || (SameIndices(a, b, env) && Part(f, p, q, env))
    ensures Disjoint(Target(wire, f, a, p, env), Target(wire, f, b, q, env))
  {
    BothInRange(wire, f, a, p, ranges, env);
    BothInRange(wire, f, b, q, ranges, env);
    ReachesDisjoint(wire.right, DeclaredDims(wire, |a|), f, a, p, b, q, env);
  }

  // So are the ranges that convert_dot returns, in ascending dimensions too: their 32-bit
  // bounds do not overlap.
  lemma {:induction false} RangesDisjoint(r: RangeNode, r': RangeNode, wire: Wire, f: Field, ranges: map<nat, Range>,
      bare: set<nat>, a: seq<Sel>, p: seq<Step>, b: seq<Sel>, q: seq<Step>, env: Env)
    requires WireInRange(wire, f, a, p, ranges, env) && WireInRange(wire, f, b, q, ranges, env) && |a| == |b|
    requires Denotes(r, wire, f, a, p, bare, env) && Denotes(r', wire, f, b, q, bare, env)
    requires Skew(f, wire.right, p, bare) == 0 && Skew(f, wire.right, q, bare) == 0
    requires IndexDiffers(a, b, env) || (SameIndices(a, b, env) && Part(f, p, q, env))
    ensures Wrap(Eval(r.left, env)) < Wrap(Eval(r'.right, env)) || Wrap(Eval(r'.left, env)) < Wrap(Eval(r.right, env))
  {
    BothInRange(wire, f, a, p, ranges, env);
    BothInRange(wire, f, b, q, ranges, env);
    ReachesDisjoint(wire.right, WireDims(wire, |a|), f, a, p, b, q, env);
    ComputedExact(r, wire, f, a, p, ranges, bare, env);
    ComputedExact(r', wire, f, b, q, ranges, bare, env);
  }

  lemma {:induction false} Apart(x: int, y: int, w: nat, s: Span, t: Span)
    requires Disjoint(Span(x, w), Span(y, w)) && Inside(s, Span(x, w)) && Inside(t, Span(y, w))
    ensures Disjoint(s, t)
  {
  }

  lemma {:induction false} ElementsApart(dims: seq<Dim>, inner: nat, a: seq<Sel>, b: seq<Sel>, env: Env)
    requires |a| == |b| == |dims| && SelsInRange(dims, a, env) && SelsInRange(dims, b, env)
    requires AllOne(a) && AllOne(b) && IndexDiffers(a, b, env)
    ensures var x, y := RowMajor(dims, LowIndices(dims, a, env)) * inner, RowMajor(dims, LowIndices(dims, b, env)) * inner;
            x + inner <= y || y + inner <= x
  {
    var x, y := LowIndices(dims, a, env), LowIndices(dims, b, env);
    SinglesInRange(dims, a, env);
    SinglesInRange(dims, b, env);
    if x == y { SameSingles(dims, a, b, env); }
    ElementsAreDisjoint(dims, inner, x, y);
  }

  lemma {:induction false} SameSingles(dims: seq<Dim>, a: seq<Sel>, b: seq<Sel>, env: Env)
    requires |a| == |b| == |dims| && AllOne(a) && AllOne(b) && LowIndices(dims, a, env) == LowIndices(dims, b, env)
    ensures !IndexDiffers(a, b, env)
  {
    forall i | 0 <= i < |a| ensures Eval(a[i].e, env) == Eval(b[i].e, env) {
      assert LowIndices(dims, a, env)[i] == LowIndices(dims, b, env)[i];
    }
  }

  lemma {:induction false} SinglesInRange(dims: seq<Dim>, sels: seq<Sel>, env: Env)
    requires |sels| == |dims| && SelsInRange(dims, sels, env) && AllOne(sels)
    ensures InRange(dims, LowIndices(dims, sels, env))
  {
    forall m | 0 <= m < |dims| ensures InDim(dims[m], LowIndices(dims, sels, env)[m]) {
      assert SelInDim(dims[m], sels[m], env);
    }
  }
}
