// What an access path such as .a[j].b[k][l:r] denotes: a sub-object of a struct, inside the
// objects on its path and apart from those of other paths.
module StructPaths {
  import opened Arithmetic
  import opened Dimensions
  import opened PackedLayout
  import opened IndexSelects

  // ---------- the denoted sub-object ----------

  // One step of a path: a member name and the selects after it.
  datatype Step = Step(name: string, sels: seq<Sel>)

  datatype Span = Span(lo: int, width: int)

  // A name in a path may carry the backslash of an escaped identifier.
  function Unescaped(name: string): string {
    if name != [] && name[0] == '\\' then name[1..] else name
  }

  // find_if: the first member with the name.
  function Find(ms: seq<Field>, name: string): (i: nat)
    ensures i <= |ms|
  {
    if ms == [] || ms[0].name == Unescaped(name) then 0 else 1 + Find(ms[1..], name)
  }

  // Member i has the name, and no member before it has.
  predicate FirstNamed(ms: seq<Field>, name: string, i: nat) {
    i < |ms| && ms[i].name == Unescaped(name) && forall j | 0 <= j < i :: ms[j].name != Unescaped(name)
  }

  predicate NoneNamed(ms: seq<Field>, name: string) {
    forall j | 0 <= j < |ms| :: ms[j].name != Unescaped(name)
  }

  lemma {:induction false} FindIsFirst(ms: seq<Field>, name: string)
    ensures Find(ms, name) < |ms| ==> FirstNamed(ms, name, Find(ms, name))
    ensures Find(ms, name) == |ms| ==> NoneNamed(ms, name)
  {
    if ms != [] { FindIsFirst(ms[1..], name); }
  }

  // The width of what is left of f when its first k dimensions are indexed.
  function BlockWidth(f: Field, k: nat): nat
    requires k <= |f.dims|
  {
    Size(f.dims[k..]) * (if f.kind.Item? then (if Size(f.dims) == 0 then 0 else f.kind.width / Size(f.dims)) else ElemWidth(f))
  }

  // The bits of f, which starts at lo, that the selects denote.
  function Spot(f: Field, lo: int, sels: seq<Sel>, env: Env): Span
    requires |sels| <= |f.dims|
  {
    var k := |sels|;
    Span(lo + RowMajor(f.dims[..k], LowIndices(f.dims[..k], sels, env)) * BlockWidth(f, k), Count(sels, env) * BlockWidth(f, k))
  }

  // A path through structs and unions: every name is found, every step but the last
  // indexes all dimensions of a struct or union, and only the last select of the last
  // step may have two bounds.
  predicate IsPath(f: Field, steps: seq<Step>)
    decreases |steps|
  {
    steps != [] && !f.kind.Item? &&
    var i := Find(f.kind.members, steps[0].name);
    i < |f.kind.members| &&
    var g, sels := f.kind.members[i], steps[0].sels;
    |sels| <= |g.dims| && OnlyLastTwo(sels) &&
    (|steps| > 1 ==> |sels| == |g.dims| && (sels != [] ==> sels[|sels| - 1].One?) && IsPath(g, steps[1..]))
  }

  // The member a path starts with, and where it lies in an element of f that starts at lo.
  function First(f: Field, steps: seq<Step>): Field
    requires IsPath(f, steps)
  {
    f.kind.members[Find(f.kind.members, steps[0].name)]
  }

  function FirstLo(f: Field, lo: int, steps: seq<Step>): int
    requires IsPath(f, steps)
  {
    lo + MemberOffset(f, Find(f.kind.members, steps[0].name))
  }

  // The sub-object a path denotes inside an element of f that starts at lo.
  function Locate(f: Field, lo: int, steps: seq<Step>, env: Env): Span
    requires IsPath(f, steps)
    decreases |steps|
  {
    var s := Spot(First(f, steps), FirstLo(f, lo, steps), steps[0].sels, env);
    if |steps| == 1 then s else Locate(First(f, steps), s.lo, steps[1..], env)
  }

  // ---------- inside its parent, apart from its neighbours ----------

  predicate SelInDim(d: Dim, s: Sel, env: Env) {
    match s
    case One(e) => InDim(d, Eval(e, env))
    case Two(l, r) => InDim(d, Eval(l, env)) && InDim(d, Eval(r, env))
  }

  predicate SelsInRange(dims: seq<Dim>, sels: seq<Sel>, env: Env) {
    |sels| <= |dims| && forall i | 0 <= i < |sels| :: SelInDim(dims[i], sels[i], env)
  }

  predicate PathInRange(f: Field, steps: seq<Step>, env: Env)
    requires IsPath(f, steps)
    decreases |steps|
  {
    SelsInRange(First(f, steps).dims, steps[0].sels, env) &&
    (|steps| > 1 ==> PathInRange(First(f, steps), steps[1..], env))
  }

  ghost predicate Inside(a: Span, b: Span) {
    b.lo <= a.lo && a.lo + a.width <= b.lo + b.width
  }

  ghost predicate Disjoint(a: Span, b: Span) {
    a.lo + a.width <= b.lo || b.lo + b.width <= a.lo
  }

  lemma {:induction false} MemberProper(ms: seq<Field>, i: nat)
    requires i < |ms|
    ensures ProperAll(ms) ==> Proper(ms[i])
    ensures UnionsAgreeAll(ms) ==> UnionsAgree(ms[i])
  {
    if i > 0 { MemberProper(ms[1..], i - 1); }
  }

  lemma {:induction false} FirstProper(f: Field, steps: seq<Step>)
    requires IsPath(f, steps) && Proper(f) && UnionsAgree(f)
    ensures Proper(First(f, steps)) && UnionsAgree(First(f, steps))
  {
    MemberProper(f.kind.members, Find(f.kind.members, steps[0].name));
  }

  lemma {:induction false} WidthIsBlock(f: Field)
    requires Proper(f)
    ensures BlockWidth(f, 0) == Width(f)
    ensures f.kind.Item? || BlockWidth(f, |f.dims|) == ElemWidth(f)
  {
    assert f.dims[0..] == f.dims && f.dims[|f.dims|..] == [];
    if f.kind.Item? { DivUnique(f.kind.width, Size(f.dims), f.kind.width / Size(f.dims), 0); }
    else { assert Size(f.dims) * ElemWidth(f) == ElemWidth(f) * Size(f.dims); }
  }

  lemma {:induction false} BlockSplits(f: Field, j: nat, k: nat)
    requires j <= k <= |f.dims|
    ensures BlockWidth(f, j) == Size(f.dims[j..k]) * BlockWidth(f, k)
  {
    assert f.dims[j..] == f.dims[j..k] + f.dims[k..];
    SizeAppend(f.dims[j..k], f.dims[k..]);
    var itemWidth := if f.kind.Item? && Size(f.dims) != 0 then f.kind.width / Size(f.dims) else 0;
    Associate(Size(f.dims[j..k]), Size(f.dims[k..]), if f.kind.Item? then itemWidth else ElemWidth(f));
  }

  lemma {:induction false} FitsRow(r: nat, rows: nat, w: nat, local: nat, count: nat)
    requires r < rows && local + count <= w
    ensures r * w + local + count <= rows * w
  {
    MulMono(w, r + 1, rows);
    Distribute(w, r, 1);
  }

  // Position and count of the selects fit into the selected dimensions.
  lemma {:induction false} SelectsFit(dims: seq<Dim>, sels: seq<Sel>, env: Env)
    requires |dims| == |sels| && OnlyLastTwo(sels) && SelsInRange(dims, sels, env)
    ensures 0 <= RowMajor(dims, LowIndices(dims, sels, env)) && Count(sels, env) >= 1
    ensures RowMajor(dims, LowIndices(dims, sels, env)) + Count(sels, env) <= Size(dims)
  {
    if dims != [] {
      var idx := LowIndices(dims, sels, env);
      var n := |dims| - 1;
      LeadingInRange(dims, sels, n, env);
      LastFits(dims[n], sels[n], env);
      assert dims[..n] + [dims[n]] == dims && idx[..n] + [idx[n]] == idx;
      assert Count([sels[n]], env) == Count(sels, env);
      RowFits(dims[..n], dims[n], idx[..n], idx[n], Count(sels, env));
    }
  }

  lemma {:induction false} LeadingInRange(dims: seq<Dim>, sels: seq<Sel>, n: nat, env: Env)
    requires n < |dims| == |sels| && OnlyLastTwo(sels) && SelsInRange(dims, sels, env)
    ensures InRange(dims[..n], LowIndices(dims, sels, env)[..n])
  {
    forall i | 0 <= i < n ensures InDim(dims[i], LowIndices(dims, sels, env)[i]) {
      assert SelInDim(dims[i], sels[i], env) && sels[i].One?;
    }
  }

  lemma {:induction false} LastFits(d: Dim, s: Sel, env: Env)
    requires SelInDim(d, s, env)
    ensures 0 <= Local(d, LowIndex(d, s, env)) && Count([s], env) >= 1
    ensures Local(d, LowIndex(d, s, env)) + Count([s], env) <= d.width
  {
  }

  lemma {:induction false} RowFits(a: seq<Dim>, d: Dim, idx: seq<int>, last: int, count: nat)
    requires |a| == |idx| && InRange(a, idx)
    requires 0 <= Local(d, last) && Local(d, last) + count <= d.width
    ensures 0 <= RowMajor(a + [d], idx + [last]) && RowMajor(a + [d], idx + [last]) + count <= Size(a + [d])
  {
    RowMajorBounds(a, idx);
    RowMajorSplits(a, [d], idx, [last]);
    SizeAppend(a, [d]);
    OneDim(d, last);
    var r, w, local := RowMajor(a, idx), d.width, Local(d, last);
    FitsRow(r, Size(a), w, local, count);
    assert r * w >= 0 by { MulMono(r, 0, w); }
  }

  lemma {:induction false} FitsBlock(x: int, y: nat, count: nat, s: nat, w: nat)
    requires y + count <= s
    ensures x * (s * w) <= (x * s + y) * w
    ensures (x * s + y) * w + count * w <= x * (s * w) + s * w
  {
    Associate(x, s, w);
    Distribute(w, x * s, y);
    MulMono(w, y + count, s);
    Distribute(w, y, count);
  }

  lemma {:induction false} SelectsSplit(dims: seq<Dim>, sels: seq<Sel>, j: nat, env: Env)
    requires j <= |sels| == |dims|
    ensures dims == dims[..j] + dims[j..]
    ensures LowIndices(dims, sels, env) == LowIndices(dims[..j], sels[..j], env) + LowIndices(dims[j..], sels[j..], env)
  {
  }

  lemma {:induction false} RestInRange(f: Field, sels: seq<Sel>, j: nat, env: Env)
    requires j <= |sels| <= |f.dims| && OnlyLastTwo(sels) && SelsInRange(f.dims, sels, env)
    ensures OnlyLastTwo(sels[j..]) && SelsInRange(f.dims[j..|sels|], sels[j..], env)
  {
    forall i | 0 <= i < |sels| - j ensures SelInDim(f.dims[j..|sels|][i], sels[j..][i], env) {
      assert SelInDim(f.dims[j + i], sels[j + i], env);
    }
  }

  // Later selects stay inside the block of the first j ones.
  lemma {:induction false} SpotInBlock(f: Field, lo: int, sels: seq<Sel>, j: nat, env: Env)
    requires Proper(f) && |sels| <= |f.dims| && OnlyLastTwo(sels) && SelsInRange(f.dims, sels, env)
    requires j <= |sels| && (j == |sels| > 0 ==> sels[j - 1].One?)
    ensures var start := RowMajor(f.dims[..j], LowIndices(f.dims[..j], sels[..j], env));
            Inside(Spot(f, lo, sels, env), Span(lo + start * BlockWidth(f, j), BlockWidth(f, j)))
  {
    var a, b, rest := f.dims[..j], f.dims[j..|sels|], sels[j..];
    var x, y, count := RowMajor(a, LowIndices(a, sels[..j], env)), RowMajor(b, LowIndices(b, rest, env)), Count(sels, env);
    RestFits(f, sels, j, env);
    SpotSplits(f, lo, sels, j, env);
    BlockSplits(f, j, |sels|);
    SpanInBlock(lo, x, y, count, Size(b), BlockWidth(f, |sels|), BlockWidth(f, j));
  }

  lemma {:induction false} RestFits(f: Field, sels: seq<Sel>, j: nat, env: Env)
    requires |sels| <= |f.dims| && OnlyLastTwo(sels) && SelsInRange(f.dims, sels, env)
    requires j <= |sels| && (j == |sels| > 0 ==> sels[j - 1].One?)
    ensures var b := f.dims[j..|sels|];
            var y := RowMajor(b, LowIndices(b, sels[j..], env));
            0 <= y && Count(sels, env) >= 1 && y + Count(sels, env) <= Size(b)
  {
    RestInRange(f, sels, j, env);
    SelectsFit(f.dims[j..|sels|], sels[j..], env);
    assert Count(sels[j..], env) == Count(sels, env);
  }

  lemma {:induction false} NumberSplits(dims: seq<Dim>, sels: seq<Sel>, j: nat, env: Env)
    requires j <= |sels| == |dims|
    ensures var a, b := dims[..j], dims[j..];
            RowMajor(dims, LowIndices(dims, sels, env)) ==
            RowMajor(a, LowIndices(a, sels[..j], env)) * Size(b) + RowMajor(b, LowIndices(b, sels[j..], env))
  {
    SelectsSplit(dims, sels, j, env);
    RowMajorSplits(dims[..j], dims[j..], LowIndices(dims[..j], sels[..j], env), LowIndices(dims[j..], sels[j..], env));
  }

  // The position of a spot in terms of the first j selects and the others.
  lemma {:induction false} SpotSplits(f: Field, lo: int, sels: seq<Sel>, j: nat, env: Env)
    requires j <= |sels| <= |f.dims|
    ensures var a, b := f.dims[..j], f.dims[j..|sels|];
            var x, y := RowMajor(a, LowIndices(a, sels[..j], env)), RowMajor(b, LowIndices(b, sels[j..], env));
            Spot(f, lo, sels, env) ==
            Span(lo + (x * Size(b) + y) * BlockWidth(f, |sels|), Count(sels, env) * BlockWidth(f, |sels|))
  {
    var dims := f.dims[..|sels|];
    assert dims[..j] == f.dims[..j] && dims[j..] == f.dims[j..|sels|];
    NumberSplits(dims, sels, j, env);
  }

  lemma {:induction false} SpanInBlock(lo: int, x: int, y: nat, count: nat, s: nat, w: nat, block: nat)
    requires y + count <= s && block == s * w
    ensures Inside(Span(lo + (x * s + y) * w, count * w), Span(lo + x * block, block))
  {
    FitsBlock(x, y, count, s, w);
  }

  // The bits a path denotes lie inside those its first step denotes, and inside the element.
  lemma {:induction false} LocateInside(f: Field, lo: int, steps: seq<Step>, env: Env)
    requires Proper(f) && UnionsAgree(f) && IsPath(f, steps) && PathInRange(f, steps, env)
    ensures Inside(Locate(f, lo, steps, env), Spot(First(f, steps), FirstLo(f, lo, steps), steps[0].sels, env))
    ensures Inside(Locate(f, lo, steps, env), Span(lo, ElemWidth(f)))
    decreases |steps|
  {
    var g, glo, sels := First(f, steps), FirstLo(f, lo, steps), steps[0].sels;
    FirstProper(f, steps);
    MembersInside(f, Find(f.kind.members, steps[0].name));
    SpotInBlock(g, glo, sels, 0, env);
    WidthIsBlock(g);
    assert RowMajor(g.dims[..0], LowIndices(g.dims[..0], sels[..0], env)) == 0;
    assert Inside(Spot(g, glo, sels, env), Span(glo, Width(g)));
    if |steps| > 1 {
      LocateInside(g, Spot(g, glo, sels, env).lo, steps[1..], env);
      assert Spot(g, glo, sels, env).width == 1 * ElemWidth(g);
    }
  }

  // Two paths part: at different members of a struct, or at different single indices of
  // the same member, or further down.
  predicate Part(f: Field, p: seq<Step>, q: seq<Step>, env: Env)
    requires IsPath(f, p) && IsPath(f, q)
    decreases |p|
  {
    if Find(f.kind.members, p[0].name) != Find(f.kind.members, q[0].name) then f.kind.Struct?
    else
      || IndexDiffers(p[0].sels, q[0].sels, env)
      || (|p| > 1 && |q| > 1 && SameIndices(p[0].sels, q[0].sels, env) && Part(First(f, p), p[1..], q[1..], env))
  }

  predicate IndexDiffers(a: seq<Sel>, b: seq<Sel>, env: Env) {
    exists i | 0 <= i < |a| && i < |b| :: a[i].One? && b[i].One? && Eval(a[i].e, env) != Eval(b[i].e, env)
  }

  predicate SameIndices(a: seq<Sel>, b: seq<Sel>, env: Env) {
    |a| == |b| && forall i | 0 <= i < |a| :: a[i].One? && b[i].One? && Eval(a[i].e, env) == Eval(b[i].e, env)
  }

  lemma {:induction false} DifferentBlocks(f: Field, lo: int, a: seq<Sel>, b: seq<Sel>, env: Env)
    requires Proper(f) && |a| <= |f.dims| && |b| <= |f.dims| && OnlyLastTwo(a) && OnlyLastTwo(b)
    requires SelsInRange(f.dims, a, env) && SelsInRange(f.dims, b, env) && IndexDiffers(a, b, env)
    ensures Disjoint(Spot(f, lo, a, env), Spot(f, lo, b, env))
  {
    var i :| 0 <= i < |a| && i < |b| && a[i].One? && b[i].One? && Eval(a[i].e, env) != Eval(b[i].e, env);
    var j := i + 1;
    var dims := f.dims[..j];
    var x, y := LowIndices(dims, a[..j], env), LowIndices(dims, b[..j], env);
    SpotInBlock(f, lo, a, j, env);
    SpotInBlock(f, lo, b, j, env);
    forall m | 0 <= m < j ensures InDim(dims[m], x[m]) && InDim(dims[m], y[m]) {
      assert SelInDim(f.dims[m], a[m], env) && SelInDim(f.dims[m], b[m], env);
    }
    assert x[i] != y[i];
    ElementsAreDisjoint(dims, BlockWidth(f, j), x, y);
  }

  // Paths that part denote disjoint bits.
  lemma {:induction false} PartedPathsDisjoint(f: Field, lo: int, p: seq<Step>, q: seq<Step>, env: Env)
    requires Proper(f) && UnionsAgree(f) && IsPath(f, p) && IsPath(f, q)
    requires PathInRange(f, p, env) && PathInRange(f, q, env) && Part(f, p, q, env)
    ensures Disjoint(Locate(f, lo, p, env), Locate(f, lo, q, env))
    decreases |p|
  {
    if Find(f.kind.members, p[0].name) != Find(f.kind.members, q[0].name) {
      DifferentMembers(f, lo, p, q, env);
    } else if IndexDiffers(p[0].sels, q[0].sels, env) {
      LocateInside(f, lo, p, env);
      LocateInside(f, lo, q, env);
      FirstProper(f, p);
      DifferentBlocks(First(f, p), FirstLo(f, lo, p), p[0].sels, q[0].sels, env);
    } else {
      var g := First(f, p);
      FirstProper(f, p);
      SameSpot(g, FirstLo(f, lo, p), p[0].sels, q[0].sels, env);
      PartedPathsDisjoint(g, Spot(g, FirstLo(f, lo, p), p[0].sels, env).lo, p[1..], q[1..], env);
    }
  }

  lemma {:induction false} SameSpot(f: Field, lo: int, a: seq<Sel>, b: seq<Sel>, env: Env)
    requires |a| <= |f.dims| && SameIndices(a, b, env)
    ensures Spot(f, lo, a, env).lo == Spot(f, lo, b, env).lo
  {
    assert LowIndices(f.dims[..|a|], a, env) == LowIndices(f.dims[..|a|], b, env);
  }

  lemma {:induction false} DifferentMembers(f: Field, lo: int, p: seq<Step>, q: seq<Step>, env: Env)
    requires Proper(f) && UnionsAgree(f) && IsPath(f, p) && IsPath(f, q) && f.kind.Struct?
    requires PathInRange(f, p, env) && PathInRange(f, q, env)
    requires Find(f.kind.members, p[0].name) != Find(f.kind.members, q[0].name)
    ensures Disjoint(Locate(f, lo, p, env), Locate(f, lo, q, env))
  {
    WholeFirst(f, lo, p, env);
    WholeFirst(f, lo, q, env);
    var i, j := Find(f.kind.members, p[0].name), Find(f.kind.members, q[0].name);
    if i < j { Above(f.kind.members, i, j); } else { Above(f.kind.members, j, i); }
  }

  lemma {:induction false} WholeFirst(f: Field, lo: int, steps: seq<Step>, env: Env)
    requires Proper(f) && UnionsAgree(f) && IsPath(f, steps) && PathInRange(f, steps, env)
    ensures Inside(Locate(f, lo, steps, env), Span(FirstLo(f, lo, steps), Width(First(f, steps))))
  {
    var g := First(f, steps);
    FirstProper(f, steps);
    LocateInside(f, lo, steps, env);
    SpotInBlock(g, FirstLo(f, lo, steps), steps[0].sels, 0, env);
    WidthIsBlock(g);
    assert RowMajor(g.dims[..0], LowIndices(g.dims[..0], steps[0].sels[..0], env)) == 0;
  }
}
