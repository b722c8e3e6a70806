// The analysis behind automatic nosync: is a local variable of a block always assigned
// before it is used?
module DefiniteAssignment {

  datatype Expr = Id(name: string, index: seq<Expr>) | Op(args: seq<Expr>)

  datatype Label = Default | Value(e: Expr)

  // Branches are plain or, in casex and casez statements, wild. Other is any statement
  // that is no blocking assignment, such as a nonblocking one.
  datatype Branch = Branch(wild: bool, labels: seq<Label>, body: seq<Stmt>)

  datatype Stmt =
    | Assign(lhs: Expr, rhs: Expr)
    | Other(args: seq<Expr>)
    | Block(stmts: seq<Stmt>)
    | Case(sel: Expr, branches: seq<Branch>)

  // ---------- the analysis ----------

  datatype Usage = NotReferenced | Assigned | SyncRequired

  predicate Mentions(e: Expr, x: string)
    decreases e
  {
    match e
    case Id(n, index) => n == x || MentionsAny(index, x)
    case Op(args) => MentionsAny(args, x)
  }

  predicate MentionsAny(es: seq<Expr>, x: string)
    decreases es
  {
    es != [] && (Mentions(es[0], x) || MentionsAny(es[1..], x))
  }

  function UsageIf(mentioned: bool): Usage {
    if mentioned then SyncRequired else NotReferenced
  }

  function UsageOf(s: Stmt, x: string): Usage
    decreases s
  {
    match s
    case Assign(l, r) =>
      if l.Id? && l.name == x then Assigned else UsageIf(Mentions(l, x) || Mentions(r, x))
    case Other(args) => UsageIf(MentionsAny(args, x))
    case Block(ss) => UsageOfAll(ss, x)
    case Case(e, bs) =>
      if Mentions(e, x) || AnyUsed(bs, x) then SyncRequired
      else if AllDefined(bs, x) && HasDefault(bs) then Assigned
      else NotReferenced
  }

  // The first statement that is not NotReferenced decides.
  function UsageOfAll(ss: seq<Stmt>, x: string): Usage
    decreases ss
  {
    if ss == [] then NotReferenced
    else if UsageOf(ss[0], x) != NotReferenced then UsageOf(ss[0], x)
    else UsageOfAll(ss[1..], x)
  }

  function UsageOfBranch(b: Branch, x: string): Usage
    decreases b
  {
    if LabelsMention(b.labels, x) then SyncRequired else UsageOfAll(b.body, x)
  }

  predicate LabelsMention(ls: seq<Label>, x: string) {
    exists i | 0 <= i < |ls| :: ls[i].Value? && Mentions(ls[i].e, x)
  }

  predicate AnyUsed(bs: seq<Branch>, x: string)
    decreases bs
  {
    bs != [] && (UsageOfBranch(bs[0], x) == SyncRequired || AnyUsed(bs[1..], x))
  }

  predicate AllDefined(bs: seq<Branch>, x: string)
    decreases bs
  {
    bs == [] || ((bs[0].wild || UsageOfBranch(bs[0], x) == Assigned) && AllDefined(bs[1..], x))
  }

  predicate StartsWithDefault(b: Branch) {
    !b.wild && b.labels != [] && b.labels[0].Default?
  }

  predicate HasDefault(bs: seq<Branch>) {
    exists i | 0 <= i < |bs| :: StartsWithDefault(bs[i])
  }

  // ---------- the analysis as the program does it ----------

  method AlwaysAsgnBeforeUse(s: Stmt, x: string) returns (u: Usage)
    ensures u == UsageOf(s, x)
    decreases s, 1
  {
    match s
    case Assign(l, r) =>
      if l.Id? && l.name == x {
        return Assigned;
      }
      u := UsageIf(Mentions(l, x) || Mentions(r, x));
    case Other(args) => u := UsageIf(MentionsAny(args, x));
    case Block(ss) => u := FirstUsage(ss, x, s);
    case Case(e, bs) =>
      var allDefined, anyUsed, hasDefault := true, Mentions(e, x), false;
      for i := 0 to |bs|
        invariant Mentions(e, x) || AnyUsed(bs, x) <==> anyUsed || AnyUsed(bs[i..], x)
        invariant AllDefined(bs, x) <==> allDefined && AllDefined(bs[i..], x)
        invariant hasDefault <==> exists j | 0 <= j < i :: StartsWithDefault(bs[j])
      {
        assert bs[i..][1..] == bs[i + 1..] && bs[i..][0] == bs[i];
        if StartsWithDefault(bs[i]) {
          hasDefault := true;
        }
        var nested := BranchUsage(bs[i], x);
        if nested != Assigned && !bs[i].wild {
          allDefined := false;
        }
        if nested == SyncRequired {
          anyUsed := true;
        }
      }
      u := if anyUsed then SyncRequired else if allDefined && hasDefault then Assigned else NotReferenced;
  }

  method BranchUsage(b: Branch, x: string) returns (u: Usage)
    ensures u == UsageOfBranch(b, x)
    decreases b, 0
  {
    for i := 0 to |b.labels|
      invariant forall j | 0 <= j < i :: !(b.labels[j].Value? && Mentions(b.labels[j].e, x))
    {
      if b.labels[i].Value? && Mentions(b.labels[i].e, x) {
        return SyncRequired;
      }
    }
    for i := 0 to |b.body|
      invariant UsageOfAll(b.body, x) == UsageOfAll(b.body[i..], x)
    {
      assert b.body[i..][1..] == b.body[i + 1..] && b.body[i..][0] == b.body[i];
      var nested := AlwaysAsgnBeforeUse(b.body[i], x);
      if nested != NotReferenced {
        return nested;
      }
    }
    u := NotReferenced;
  }

  method FirstUsage(ss: seq<Stmt>, x: string, ghost parent: Stmt) returns (u: Usage)
    requires parent == Block(ss)
    ensures u == UsageOfAll(ss, x)
    decreases parent, 0
  {
    for i := 0 to |ss|
      invariant UsageOfAll(ss, x) == UsageOfAll(ss[i..], x)
    {
      assert ss[i..][1..] == ss[i + 1..] && ss[i..][0] == ss[i];
      var nested := AlwaysAsgnBeforeUse(ss[i], x);
      if nested != NotReferenced {
        return nested;
      }
    }
    u := NotReferenced;
  }

  // ---------- runs ----------

  datatype Event = Reads(name: string) | Writes(name: string)

  function Evaluate(e: Expr): seq<Event>
    decreases e
  {
    match e
    case Id(n, index) => EvaluateAll(index) + [Reads(n)]
    case Op(args) => EvaluateAll(args)
  }

  function EvaluateAll(es: seq<Expr>): seq<Event>
    decreases es
  {
    if es == [] then [] else Evaluate(es[0]) + EvaluateAll(es[1..])
  }

  // Writing a part of a variable keeps, and so reads, the rest of it.
  function Store(l: Expr): seq<Event>
    decreases l
  {
    match l
    case Id(n, index) => EvaluateAll(index) + (if index == [] then [] else [Reads(n)]) + [Writes(n)]
    case Op(args) => StoreAll(args)
  }

  function StoreAll(ls: seq<Expr>): seq<Event>
    decreases ls
  {
    if ls == [] then [] else Store(ls[0]) + StoreAll(ls[1..])
  }

  function Compare(ls: seq<Label>): seq<Event> {
    if ls == [] then [] else (if ls[0].Value? then Evaluate(ls[0].e) else []) + Compare(ls[1..])
  }

  function CompareAll(bs: seq<Branch>): seq<Event> {
    if bs == [] then [] else Compare(bs[0].labels) + CompareAll(bs[1..])
  }

  predicate IsDefault(b: Branch) {
    exists i | 0 <= i < |b.labels| :: b.labels[i].Default?
  }

  // The labels compared before branch i is taken: up to its own, or all for a default.
  function Compared(bs: seq<Branch>, i: nat): seq<Event>
    requires i < |bs|
  {
    CompareAll(if IsDefault(bs[i]) then bs else bs[..i + 1])
  }

  // t is what some run of the statement reads and writes, in order. Any branch may be
  // taken, and none only if there is no default.
  ghost predicate Runs(s: Stmt, t: seq<Event>)
    decreases s
  {
    match s
    case Assign(l, r) => t == Evaluate(r) + Store(l)
    case Other(args) => t == EvaluateAll(args)
    case Block(ss) => RunsAll(ss, t)
    case Case(e, bs) =>
      || ((forall i | 0 <= i < |bs| :: !IsDefault(bs[i])) && t == Evaluate(e) + CompareAll(bs))
      || exists i, u | 0 <= i < |bs| :: Takes(bs[i], u) && t == Evaluate(e) + Compared(bs, i) + u
  }

  ghost predicate Takes(b: Branch, t: seq<Event>)
    decreases b
  {
    RunsAll(b.body, t)
  }

  ghost predicate RunsAll(ss: seq<Stmt>, t: seq<Event>)
    decreases ss
  {
    if ss == [] then t == []
    else exists k: nat | k <= |t| :: Runs(ss[0], t[..k]) && RunsAll(ss[1..], t[k..])
  }

  // ---------- the first event of a variable ----------

  datatype Touch = Untouched | Read | Written

  function First(t: seq<Event>, x: string): Touch {
    if t == [] then Untouched
    else if t[0].name != x then First(t[1..], x)
    else if t[0].Reads? then Read else Written
  }

  lemma {:induction false} FirstAppend(a: seq<Event>, b: seq<Event>, x: string)
    ensures First(a + b, x) == if First(a, x) == Untouched then First(b, x) else First(a, x)
  {
    if a == [] {
      assert a + b == b;
    } else {
      assert (a + b)[1..] == a[1..] + b;
      FirstAppend(a[1..], b, x);
    }
  }

  lemma {:induction false} FirstSplit(t: seq<Event>, k: nat, x: string)
    requires k <= |t|
    ensures First(t, x) == if First(t[..k], x) == Untouched then First(t[k..], x) else First(t[..k], x)
  {
    assert t == t[..k] + t[k..];
    FirstAppend(t[..k], t[k..], x);
  }

  // What the first event says about the whole run.
  lemma {:induction false} FirstMeans(t: seq<Event>, x: string)
    ensures First(t, x) == Read <==> exists p | 0 <= p < |t| :: t[p] == Reads(x) && Writes(x) !in t[..p]
    ensures First(t, x) == Written ==> Writes(x) in t
  {
    if t != [] {
      FirstMeans(t[1..], x);
      var tail := t[1..];
      if First(t, x) == Read {
        if t[0] == Reads(x) {
          assert Writes(x) !in t[..0];
        } else {
          var p :| 0 <= p < |tail| && tail[p] == Reads(x) && Writes(x) !in tail[..p];
          assert t[..p + 1] == [t[0]] + tail[..p];
          assert t[p + 1] == Reads(x) && Writes(x) !in t[..p + 1];
        }
      }
      if p :| 0 <= p < |t| && t[p] == Reads(x) && Writes(x) !in t[..p] {
        if p > 0 {
          assert t[..p] == [t[0]] + tail[..p - 1];
          assert tail[p - 1] == Reads(x) && Writes(x) !in tail[..p - 1];
        }
      }
    }
  }

  lemma {:induction false} EvaluateFirst(e: Expr, x: string)
    ensures First(Evaluate(e), x) == if Mentions(e, x) then Read else Untouched
    decreases e
  {
    match e
    case Id(n, index) =>
      EvaluateAllFirst(index, x);
      FirstAppend(EvaluateAll(index), [Reads(n)], x);
      assert [Reads(n)][1..] == [];
    case Op(args) => EvaluateAllFirst(args, x);
  }

  lemma {:induction false} EvaluateAllFirst(es: seq<Expr>, x: string)
    ensures First(EvaluateAll(es), x) == if MentionsAny(es, x) then Read else Untouched
    decreases es
  {
    if es != [] {
      EvaluateFirst(es[0], x);
      EvaluateAllFirst(es[1..], x);
      FirstAppend(Evaluate(es[0]), EvaluateAll(es[1..]), x);
    }
  }

  lemma {:induction false} StoreUntouched(l: Expr, x: string)
    requires !Mentions(l, x)
    ensures First(Store(l), x) == Untouched
    decreases l
  {
    match l
    case Id(n, index) =>
      EvaluateAllFirst(index, x);
      var mid := if index == [] then [] else [Reads(n)];
      FirstAppend(EvaluateAll(index) + mid, [Writes(n)], x);
      FirstAppend(EvaluateAll(index), mid, x);
      assert [Reads(n)][1..] == [] && [Writes(n)][1..] == [];
    case Op(args) => StoreAllUntouched(args, x);
  }

  lemma {:induction false} StoreAllUntouched(ls: seq<Expr>, x: string)
    requires !MentionsAny(ls, x)
    ensures First(StoreAll(ls), x) == Untouched
    decreases ls
  {
    if ls != [] {
      StoreUntouched(ls[0], x);
      StoreAllUntouched(ls[1..], x);
      FirstAppend(Store(ls[0]), StoreAll(ls[1..]), x);
    }
  }

  lemma {:induction false} CompareUntouched(ls: seq<Label>, x: string)
    requires !LabelsMention(ls, x)
    ensures First(Compare(ls), x) == Untouched
  {
    if ls != [] {
      assert !(ls[0].Value? && Mentions(ls[0].e, x));
      assert !LabelsMention(ls[1..], x) by {
        forall i | 0 <= i < |ls[1..]| ensures !(ls[1..][i].Value? && Mentions(ls[1..][i].e, x)) { assert ls[1..][i] == ls[i + 1]; }
      }
      CompareUntouched(ls[1..], x);
      var head := if ls[0].Value? then Evaluate(ls[0].e) else [];
      if ls[0].Value? { EvaluateFirst(ls[0].e, x); }
      FirstAppend(head, Compare(ls[1..]), x);
    }
  }

  lemma {:induction false} CompareAllUntouched(bs: seq<Branch>, x: string)
    requires !AnyUsed(bs, x)
    ensures First(CompareAll(bs), x) == Untouched
  {
    if bs != [] {
      CompareUntouched(bs[0].labels, x);
      CompareAllUntouched(bs[1..], x);
      FirstAppend(Compare(bs[0].labels), CompareAll(bs[1..]), x);
    }
  }

  lemma {:induction false} NotUsed(bs: seq<Branch>, x: string, i: nat)
    requires !AnyUsed(bs, x) && i < |bs|
    ensures UsageOfBranch(bs[i], x) != SyncRequired && !AnyUsed(bs[..i + 1], x)
    ensures AllDefined(bs, x) && !bs[i].wild ==> UsageOfBranch(bs[i], x) == Assigned
  {
    if i > 0 {
      NotUsed(bs[1..], x, i - 1);
      assert bs[..i + 1][1..] == bs[1..][..i] && bs[..i + 1][0] == bs[0];
    } else {
      assert bs[..1][1..] == [];
    }
  }

  lemma {:induction false} ComparedUntouched(bs: seq<Branch>, x: string, i: nat)
    requires !AnyUsed(bs, x) && i < |bs|
    ensures First(Compared(bs, i), x) == Untouched
  {
    NotUsed(bs, x, i);
    CompareAllUntouched(if IsDefault(bs[i]) then bs else bs[..i + 1], x);
  }

  // ---------- soundness ----------

  // The statements of a case are all plain, or it has no plain default.
  predicate Uniform(s: Stmt)
    decreases s
  {
    match s
    case Assign(_, _) => true
    case Other(_) => true
    case Block(ss) => UniformAll(ss)
    case Case(_, bs) =>
      (HasDefault(bs) ==> forall i | 0 <= i < |bs| :: !bs[i].wild) && UniformBranches(bs)
  }

  predicate UniformAll(ss: seq<Stmt>)
    decreases ss
  {
    ss == [] || (Uniform(ss[0]) && UniformAll(ss[1..]))
  }

  predicate UniformBranches(bs: seq<Branch>)
    decreases bs
  {
    forall i | 0 <= i < |bs| :: UniformBranch(bs[i])
  }

  predicate UniformBranch(b: Branch)
    decreases b
  {
    UniformAll(b.body)
  }

  // Every run of the statement touches x, if it has no use of x other than assignments.
  predicate Covers(s: Stmt, x: string)
    decreases s
  {
    match s
    case Assign(l, _) => l.Id? && l.name == x
    case Other(_) => false
    case Block(ss) => CoversAny(ss, x)
    case Case(_, bs) => (exists i | 0 <= i < |bs| :: IsDefault(bs[i])) && forall i | 0 <= i < |bs| :: CoversBranch(bs[i], x)
  }

  predicate CoversAny(ss: seq<Stmt>, x: string)
    decreases ss
  {
    ss != [] && (Covers(ss[0], x) || CoversAny(ss[1..], x))
  }

  predicate CoversBranch(b: Branch, x: string)
    decreases b
  {
    CoversAny(b.body, x)
  }

  // An assignment to x that can be the first to touch it replaces all of x by a value
  // that does not depend on x.
  predicate CleanFirst(s: Stmt, x: string)
    decreases s
  {
    match s
    case Assign(l, r) => l.Id? && l.name == x ==> l.index == [] && !Mentions(r, x)
    case Other(_) => true
    case Block(ss) => CleanFirstAll(ss, x)
    case Case(_, bs) => forall i | 0 <= i < |bs| :: CleanFirstBranch(bs[i], x)
  }

  predicate CleanFirstAll(ss: seq<Stmt>, x: string)
    decreases ss
  {
    ss == [] || (CleanFirst(ss[0], x) && (Covers(ss[0], x) || CleanFirstAll(ss[1..], x)))
  }

  predicate CleanFirstBranch(b: Branch, x: string)
    decreases b
  {
    CleanFirstAll(b.body, x)
  }

  lemma {:induction false} AssignedCovers(s: Stmt, x: string)
    requires Uniform(s) && UsageOf(s, x) == Assigned
    ensures Covers(s, x)
    decreases s
  {
    match s
    case Assign(_, _) =>
    case Other(_) =>
    case Block(ss) => AssignedCoversAny(ss, x);
    case Case(_, bs) =>
      var d :| 0 <= d < |bs| && StartsWithDefault(bs[d]);
      assert bs[d].labels[0].Default? && IsDefault(bs[d]);
      forall i | 0 <= i < |bs| ensures CoversBranch(bs[i], x) {
        NotUsed(bs, x, i);
        assert UniformBranch(bs[i]);
        AssignedCoversAny(bs[i].body, x);
      }
  }

  lemma {:induction false} AssignedCoversAny(ss: seq<Stmt>, x: string)
    requires UniformAll(ss) && UsageOfAll(ss, x) == Assigned
    ensures CoversAny(ss, x)
    decreases ss
  {
    if UsageOf(ss[0], x) == Assigned { AssignedCovers(ss[0], x); } else { AssignedCoversAny(ss[1..], x); }
  }

  lemma {:induction false} RunIsSafe(s: Stmt, x: string, t: seq<Event>)
    requires Uniform(s) && UsageOf(s, x) != SyncRequired && CleanFirst(s, x) && Runs(s, t)
    ensures First(t, x) != Read && (Covers(s, x) ==> First(t, x) == Written)
    decreases s
  {
    match s
    case Assign(l, r) => AssignFirst(l, r, x);
    case Other(args) => EvaluateAllFirst(args, x);
    case Block(ss) => RunsAreSafe(ss, x, t);
    case Case(e, bs) =>
      EvaluateFirst(e, x);
      if i, u :| 0 <= i < |bs| && Takes(bs[i], u) && t == Evaluate(e) + Compared(bs, i) + u {
        NotUsed(bs, x, i);
        assert UniformBranch(bs[i]) && CleanFirstBranch(bs[i], x);
        RunsAreSafe(bs[i].body, x, u);
        BranchFirst(e, bs, i, u, x);
        assert Covers(s, x) ==> CoversBranch(bs[i], x);
      } else {
        CompareAllUntouched(bs, x);
        FirstAppend(Evaluate(e), CompareAll(bs), x);
      }
  }

  lemma {:induction false} RunsAreSafe(ss: seq<Stmt>, x: string, t: seq<Event>)
    requires UniformAll(ss) && UsageOfAll(ss, x) != SyncRequired && CleanFirstAll(ss, x) && RunsAll(ss, t)
    ensures First(t, x) != Read && (CoversAny(ss, x) ==> First(t, x) == Written)
    decreases ss
  {
    if ss != [] {
      var k: nat :| k <= |t| && Runs(ss[0], t[..k]) && RunsAll(ss[1..], t[k..]);
      RunIsSafe(ss[0], x, t[..k]);
      FirstSplit(t, k, x);
      if !Covers(ss[0], x) {
        if UsageOf(ss[0], x) == Assigned { AssignedCovers(ss[0], x); }
        RunsAreSafe(ss[1..], x, t[k..]);
      }
    }
  }

  lemma {:induction false} AssignFirst(l: Expr, r: Expr, x: string)
    requires UsageOf(Assign(l, r), x) != SyncRequired
    ensures First(Evaluate(r) + Store(l), x) ==
            if !(l.Id? && l.name == x) then Untouched
            else if l.index == [] && !Mentions(r, x) then Written
            else Read
  {
    EvaluateFirst(r, x);
    FirstAppend(Evaluate(r), Store(l), x);
    if l.Id? && l.name == x {
      EvaluateAllFirst(l.index, x);
      var mid := if l.index == [] then [] else [Reads(x)];
      FirstAppend(EvaluateAll(l.index) + mid, [Writes(x)], x);
      FirstAppend(EvaluateAll(l.index), mid, x);
    } else {
      StoreUntouched(l, x);
    }
  }

  lemma {:induction false} BranchFirst(e: Expr, bs: seq<Branch>, i: nat, u: seq<Event>, x: string)
    requires !Mentions(e, x) && !AnyUsed(bs, x) && i < |bs|
    ensures First(Evaluate(e) + Compared(bs, i) + u, x) == First(u, x)
  {
    EvaluateFirst(e, x);
    ComparedUntouched(bs, x, i);
    FirstAppend(Evaluate(e) + Compared(bs, i), u, x);
    FirstAppend(Evaluate(e), Compared(bs, i), x);
  }

  // ---------- and exactness ----------

  lemma {:induction false} SomeRun(s: Stmt) returns (t: seq<Event>)
    ensures Runs(s, t)
    decreases s
  {
    match s
    case Assign(l, r) => t := Evaluate(r) + Store(l);
    case Other(args) => t := EvaluateAll(args);
    case Block(ss) => t := SomeRunAll(ss);
    case Case(e, bs) =>
      if i :| 0 <= i < |bs| && IsDefault(bs[i]) {
        var u := SomeRunAll(bs[i].body);
        assert Takes(bs[i], u);
        t := Evaluate(e) + Compared(bs, i) + u;
      } else {
        t := Evaluate(e) + CompareAll(bs);
      }
  }

  lemma {:induction false} SomeRunAll(ss: seq<Stmt>) returns (t: seq<Event>)
    ensures RunsAll(ss, t)
    decreases ss
  {
    t := [];
    if ss != [] {
      var a := SomeRun(ss[0]);
      var b := SomeRunAll(ss[1..]);
      t := a + b;
      Joined(ss, a, b);
    }
  }

  lemma {:induction false} Joined(ss: seq<Stmt>, a: seq<Event>, b: seq<Event>)
    requires ss != [] && Runs(ss[0], a) && RunsAll(ss[1..], b)
    ensures RunsAll(ss, a + b)
  {
    assert (a + b)[..|a|] == a && (a + b)[|a|..] == b;
  }

  // A statement that does not cover x has a run that leaves it alone.
  lemma {:induction false} UntouchedRun(s: Stmt, x: string) returns (t: seq<Event>)
    requires Uniform(s) && UsageOf(s, x) != SyncRequired && !Covers(s, x)
    ensures Runs(s, t) && First(t, x) == Untouched
    decreases s
  {
    match s
    case Assign(l, r) =>
      t := Evaluate(r) + Store(l);
      AssignFirst(l, r, x);
    case Other(args) =>
      t := EvaluateAll(args);
      EvaluateAllFirst(args, x);
    case Block(ss) => t := UntouchedRunAll(ss, x);
    case Case(e, bs) =>
      if i :| 0 <= i < |bs| && !CoversBranch(bs[i], x) {
        NotUsed(bs, x, i);
        assert UniformBranch(bs[i]);
        var u := UntouchedRunAll(bs[i].body, x);
        assert Takes(bs[i], u);
        t := Evaluate(e) + Compared(bs, i) + u;
        BranchFirst(e, bs, i, u, x);
      } else {
        t := Evaluate(e) + CompareAll(bs);
        EvaluateFirst(e, x);
        CompareAllUntouched(bs, x);
        FirstAppend(Evaluate(e), CompareAll(bs), x);
      }
  }

  lemma {:induction false} UntouchedRunAll(ss: seq<Stmt>, x: string) returns (t: seq<Event>)
    requires UniformAll(ss) && UsageOfAll(ss, x) != SyncRequired && !CoversAny(ss, x)
    ensures RunsAll(ss, t) && First(t, x) == Untouched
    decreases ss
  {
    t := [];
    if ss != [] {
      if UsageOf(ss[0], x) == Assigned { AssignedCovers(ss[0], x); }
      var a := UntouchedRun(ss[0], x);
      var b := UntouchedRunAll(ss[1..], x);
      t := a + b;
      Joined(ss, a, b);
      FirstAppend(a, b, x);
    }
  }

  // A statement that is not clean has a run that reads x first.
  lemma {:induction false} ReadingRun(s: Stmt, x: string) returns (t: seq<Event>)
    requires Uniform(s) && UsageOf(s, x) != SyncRequired && !CleanFirst(s, x)
    ensures Runs(s, t) && First(t, x) == Read
    decreases s
  {
    match s
    case Assign(l, r) =>
      t := Evaluate(r) + Store(l);
      AssignFirst(l, r, x);
    case Block(ss) => t := ReadingRunAll(ss, x);
    case Case(e, bs) =>
      var i :| 0 <= i < |bs| && !CleanFirstBranch(bs[i], x);
      NotUsed(bs, x, i);
      assert UniformBranch(bs[i]);
      var u := ReadingRunAll(bs[i].body, x);
      assert Takes(bs[i], u);
      t := Evaluate(e) + Compared(bs, i) + u;
      BranchFirst(e, bs, i, u, x);
  }

  lemma {:induction false} ReadingRunAll(ss: seq<Stmt>, x: string) returns (t: seq<Event>)
    requires UniformAll(ss) && UsageOfAll(ss, x) != SyncRequired && !CleanFirstAll(ss, x)
    ensures RunsAll(ss, t) && First(t, x) == Read
    decreases ss
  {
    var a, b: seq<Event>;
    if CleanFirst(ss[0], x) {
      if UsageOf(ss[0], x) == Assigned { AssignedCovers(ss[0], x); }
      a := UntouchedRun(ss[0], x);
      b := ReadingRunAll(ss[1..], x);
    } else {
      a := ReadingRun(ss[0], x);
      b := SomeRunAll(ss[1..]);
    }
    t := a + b;
    Joined(ss, a, b);
    FirstAppend(a, b, x);
  }

  // Assigned: on every run x is written before it is read, exactly when the assignments
  // that can come first are clean.
  lemma {:induction false} AssignedIff(s: Stmt, x: string)
    requires Uniform(s) && UsageOf(s, x) == Assigned
    ensures (forall t | Runs(s, t) :: First(t, x) == Written) <==> CleanFirst(s, x)
  {
    AssignedCovers(s, x);
    if CleanFirst(s, x) {
      forall t | Runs(s, t) ensures First(t, x) == Written { RunIsSafe(s, x, t); }
    } else {
      var t := ReadingRun(s, x);
      assert First(t, x) != Written;
    }
  }

  // NotReferenced: no run reads x before writing it, exactly when the same holds.
  lemma {:induction false} NotReferencedIff(s: Stmt, x: string)
    requires Uniform(s) && UsageOf(s, x) == NotReferenced
    ensures (forall t | Runs(s, t) :: First(t, x) != Read) <==> CleanFirst(s, x)
  {
    if CleanFirst(s, x) {
      forall t | Runs(s, t) ensures First(t, x) != Read { RunIsSafe(s, x, t); }
    } else {
      var t := ReadingRun(s, x);
      assert First(t, x) == Read;
    }
  }

  // ---------- precision ----------

  // Branches are plain, and a default stands first among its labels.
  predicate Plain(s: Stmt)
    decreases s
  {
    match s
    case Assign(_, _) => true
    case Other(_) => true
    case Block(ss) => PlainAll(ss)
    case Case(_, bs) => forall i | 0 <= i < |bs| :: PlainBranch(bs[i])
  }

  predicate PlainAll(ss: seq<Stmt>)
    decreases ss
  {
    ss == [] || (Plain(ss[0]) && PlainAll(ss[1..]))
  }

  predicate PlainBranch(b: Branch)
    decreases b
  {
    !b.wild && (IsDefault(b) ==> StartsWithDefault(b)) && PlainAll(b.body)
  }

  lemma {:induction false} PlainIsUniform(s: Stmt)
    requires Plain(s)
    ensures Uniform(s)
    decreases s
  {
    match s
    case Block(ss) => PlainAllIsUniform(ss);
    case Case(_, bs) =>
      forall i | 0 <= i < |bs| ensures UniformBranch(bs[i]) && !bs[i].wild {
        assert PlainBranch(bs[i]);
        PlainAllIsUniform(bs[i].body);
      }
    case _ =>
  }

  lemma {:induction false} PlainAllIsUniform(ss: seq<Stmt>)
    requires PlainAll(ss)
    ensures UniformAll(ss)
    decreases ss
  {
    if ss != [] {
      PlainIsUniform(ss[0]);
      PlainAllIsUniform(ss[1..]);
    }
  }

  // A concatenation on the left of an assignment writes all of x.
  predicate Concatenates(s: Stmt, x: string)
    decreases s
  {
    match s
    case Assign(l, _) => l.Op? && WritesAny(l.args, x)
    case Other(_) => false
    case Block(ss) => ConcatenatesAny(ss, x)
    case Case(_, bs) => exists i | 0 <= i < |bs| :: ConcatenatesBranch(bs[i], x)
  }

  predicate ConcatenatesAny(ss: seq<Stmt>, x: string)
    decreases ss
  {
    ss != [] && (Concatenates(ss[0], x) || ConcatenatesAny(ss[1..], x))
  }

  predicate ConcatenatesBranch(b: Branch, x: string)
    decreases b
  {
    ConcatenatesAny(b.body, x)
  }

  predicate WritesAny(ls: seq<Expr>, x: string)
    decreases ls
  {
    ls != [] && (WritesWhole(ls[0], x) || WritesAny(ls[1..], x))
  }

  predicate WritesWhole(l: Expr, x: string)
    decreases l
  {
    match l
    case Id(n, index) => n == x && index == []
    case Op(args) => WritesAny(args, x)
  }

  // A target that mentions x without writing all of it reads it.
  lemma {:induction false} StoreReads(l: Expr, x: string)
    requires !WritesWhole(l, x)
    ensures First(Store(l), x) == if Mentions(l, x) then Read else Untouched
    decreases l
  {
    match l
    case Id(n, index) =>
      EvaluateAllFirst(index, x);
      var mid := if index == [] then [] else [Reads(n)];
      FirstAppend(EvaluateAll(index) + mid, [Writes(n)], x);
      FirstAppend(EvaluateAll(index), mid, x);
      assert [Reads(n)][1..] == [] && [Writes(n)][1..] == [];
    case Op(args) => StoreAllReads(args, x);
  }

  lemma {:induction false} StoreAllReads(ls: seq<Expr>, x: string)
    requires !WritesAny(ls, x)
    ensures First(StoreAll(ls), x) == if MentionsAny(ls, x) then Read else Untouched
    decreases ls
  {
    if ls != [] {
      StoreReads(ls[0], x);
      StoreAllReads(ls[1..], x);
      FirstAppend(Store(ls[0]), StoreAll(ls[1..]), x);
    }
  }

  // In plain code a statement that covers x is never taken for one without reference to it.
  lemma {:induction false} CoversIsSeen(s: Stmt, x: string)
    requires Plain(s) && Covers(s, x)
    ensures UsageOf(s, x) != NotReferenced
    decreases s
  {
    match s
    case Block(ss) => CoversAnyIsSeen(ss, x);
    case Case(e, bs) =>
      if !Mentions(e, x) && !AnyUsed(bs, x) {
        var d :| 0 <= d < |bs| && IsDefault(bs[d]);
        assert PlainBranch(bs[d]) && StartsWithDefault(bs[d]);
        forall i | 0 <= i < |bs| ensures UsageOfBranch(bs[i], x) == Assigned {
          assert PlainBranch(bs[i]) && CoversBranch(bs[i], x);
          NotUsed(bs, x, i);
          CoversAnyIsSeen(bs[i].body, x);
        }
        DefinedByEach(bs, x);
      }
    case _ =>
  }

  lemma {:induction false} DefinedByEach(bs: seq<Branch>, x: string)
    requires forall i | 0 <= i < |bs| :: UsageOfBranch(bs[i], x) == Assigned
    ensures AllDefined(bs, x)
  {
    if bs != [] {
      assert forall i | 0 <= i < |bs[1..]| :: bs[1..][i] == bs[i + 1];
      DefinedByEach(bs[1..], x);
    }
  }

  lemma {:induction false} CoversAnyIsSeen(ss: seq<Stmt>, x: string)
    requires PlainAll(ss) && CoversAny(ss, x)
    ensures UsageOfAll(ss, x) != NotReferenced
    decreases ss
  {
    if Covers(ss[0], x) { CoversIsSeen(ss[0], x); } else { CoversAnyIsSeen(ss[1..], x); }
  }

  // A sync is required only if some run does read x before writing it.
  lemma {:induction false} SyncRun(s: Stmt, x: string) returns (t: seq<Event>)
    requires Plain(s) && !Concatenates(s, x) && UsageOf(s, x) == SyncRequired
    ensures Runs(s, t) && First(t, x) == Read
    decreases s
  {
    match s
    case Assign(l, r) =>
      t := Evaluate(r) + Store(l);
      EvaluateFirst(r, x);
      StoreReads(l, x);
      FirstAppend(Evaluate(r), Store(l), x);
    case Other(args) =>
      t := EvaluateAll(args);
      EvaluateAllFirst(args, x);
    case Block(ss) => t := SyncRunAll(ss, x);
    case Case(e, bs) =>
      EvaluateFirst(e, x);
      if AnyUsed(bs, x) {
        var i := UsedBranch(bs, x);
        assert PlainBranch(bs[i]) && !ConcatenatesBranch(bs[i], x);
        var u: seq<Event>;
        if LabelsMention(bs[i].labels, x) { u := SomeRunAll(bs[i].body); } else { u := SyncRunAll(bs[i].body, x); }
        assert Takes(bs[i], u);
        t := Evaluate(e) + Compared(bs, i) + u;
        ComparedReads(bs, i, x);
        FirstAppend(Evaluate(e) + Compared(bs, i), u, x);
        FirstAppend(Evaluate(e), Compared(bs, i), x);
      } else {
        t := SomeRun(s);
        ReadsSelector(s, x, t);
      }
  }

  lemma {:induction false} UsedBranch(bs: seq<Branch>, x: string) returns (i: nat)
    requires AnyUsed(bs, x)
    ensures i < |bs| && UsageOfBranch(bs[i], x) == SyncRequired
  {
    if UsageOfBranch(bs[0], x) == SyncRequired {
      i := 0;
    } else {
      i := UsedBranch(bs[1..], x);
      i := i + 1;
    }
  }

  lemma {:induction false} ReadsSelector(s: Stmt, x: string, t: seq<Event>)
    requires s.Case? && Mentions(s.sel, x) && Runs(s, t)
    ensures First(t, x) == Read
  {
    var e, bs := s.sel, s.branches;
    EvaluateFirst(e, x);
    if i, u :| 0 <= i < |bs| && Takes(bs[i], u) && t == Evaluate(e) + Compared(bs, i) + u {
      FirstAppend(Evaluate(e) + Compared(bs, i), u, x);
      FirstAppend(Evaluate(e), Compared(bs, i), x);
    } else {
      FirstAppend(Evaluate(e), CompareAll(bs), x);
    }
  }

  // Comparing the labels of a branch reads what they mention, and writes nothing.
  lemma {:induction false} ComparedReads(bs: seq<Branch>, i: nat, x: string)
    requires i < |bs|
    ensures First(Compared(bs, i), x) != Written
    ensures LabelsMention(bs[i].labels, x) ==> First(Compared(bs, i), x) == Read
  {
    var first := bs[..i + 1];
    assert first[i] == bs[i];
    CompareAllReads(if IsDefault(bs[i]) then bs else first, i, x);
  }

  lemma {:induction false} CompareAllReads(bs: seq<Branch>, i: nat, x: string)
    requires i < |bs|
    ensures First(CompareAll(bs), x) != Written
    ensures LabelsMention(bs[i].labels, x) ==> First(CompareAll(bs), x) == Read
  {
    CompareReads(bs[0].labels, x);
    FirstAppend(Compare(bs[0].labels), CompareAll(bs[1..]), x);
    if i > 0 { CompareAllReads(bs[1..], i - 1, x); } else { NoWrites(bs[1..], x); }
  }

  lemma {:induction false} NoWrites(bs: seq<Branch>, x: string)
    ensures First(CompareAll(bs), x) != Written
  {
    if bs != [] {
      CompareReads(bs[0].labels, x);
      NoWrites(bs[1..], x);
      FirstAppend(Compare(bs[0].labels), CompareAll(bs[1..]), x);
    }
  }

  lemma {:induction false} CompareReads(ls: seq<Label>, x: string)
    ensures First(Compare(ls), x) == if LabelsMention(ls, x) then Read else Untouched
  {
    if !LabelsMention(ls, x) {
      CompareUntouched(ls, x);
    } else {
      var i :| 0 <= i < |ls| && ls[i].Value? && Mentions(ls[i].e, x);
      CompareReads(ls[1..], x);
      if ls[0].Value? { EvaluateFirst(ls[0].e, x); }
      if i > 0 { assert ls[1..][i - 1] == ls[i]; }
      FirstAppend(if ls[0].Value? then Evaluate(ls[0].e) else [], Compare(ls[1..]), x);
    }
  }

  lemma {:induction false} SyncRunAll(ss: seq<Stmt>, x: string) returns (t: seq<Event>)
    requires PlainAll(ss) && !ConcatenatesAny(ss, x) && UsageOfAll(ss, x) == SyncRequired
    ensures RunsAll(ss, t) && First(t, x) == Read
    decreases ss
  {
    var a, b: seq<Event>;
    if UsageOf(ss[0], x) == SyncRequired {
      a := SyncRun(ss[0], x);
      b := SomeRunAll(ss[1..]);
    } else {
      PlainIsUniform(ss[0]);
      if Covers(ss[0], x) { CoversIsSeen(ss[0], x); }
      a := UntouchedRun(ss[0], x);
      b := SyncRunAll(ss[1..], x);
    }
    t := a + b;
    Joined(ss, a, b);
    FirstAppend(a, b, x);
  }

  // In plain code without concatenations that write x: some run reads x before writing it
  // exactly when a sync is required or a first assignment is not clean.
  lemma {:induction false} SomeRunReadsIff(s: Stmt, x: string)
    requires Plain(s) && !Concatenates(s, x)
    ensures (exists t | Runs(s, t) :: First(t, x) == Read) <==> UsageOf(s, x) == SyncRequired || !CleanFirst(s, x)
  {
    PlainIsUniform(s);
    if UsageOf(s, x) == SyncRequired {
      var t := SyncRun(s, x);
      assert First(t, x) == Read;
    } else if !CleanFirst(s, x) {
      var t := ReadingRun(s, x);
      assert First(t, x) == Read;
    } else {
      forall t | Runs(s, t) ensures First(t, x) != Read { RunIsSafe(s, x, t); }
    }
  }

  // Where no sync is required, the verdict is Assigned exactly when every run touches x.
  lemma {:induction false} AssignedIffTouched(s: Stmt, x: string)
    requires Plain(s) && UsageOf(s, x) != SyncRequired
    ensures UsageOf(s, x) == Assigned <==> forall t | Runs(s, t) :: First(t, x) != Untouched
  {
    PlainIsUniform(s);
    if UsageOf(s, x) == Assigned {
      AssignedCovers(s, x);
      forall t | Runs(s, t) ensures First(t, x) != Untouched { CoveringRun(s, x, t); }
    } else {
      if Covers(s, x) { CoversIsSeen(s, x); }
      var t := UntouchedRun(s, x);
      assert First(t, x) == Untouched;
    }
  }

  // A run of code that covers x touches it.
  lemma {:induction false} CoveringRun(s: Stmt, x: string, t: seq<Event>)
    requires Covers(s, x) && Runs(s, t)
    ensures First(t, x) != Untouched
    decreases s
  {
    match s
    case Assign(l, r) =>
      FirstAppend(Evaluate(r), Store(l), x);
      FirstAppend(EvaluateAll(l.index) + (if l.index == [] then [] else [Reads(x)]), [Writes(x)], x);
    case Block(ss) => CoveringRunAll(ss, x, t);
    case Case(e, bs) =>
      var i, u :| 0 <= i < |bs| && Takes(bs[i], u) && t == Evaluate(e) + Compared(bs, i) + u;
      assert CoversBranch(bs[i], x);
      CoveringRunAll(bs[i].body, x, u);
      FirstAppend(Evaluate(e) + Compared(bs, i), u, x);
  }

  lemma {:induction false} CoveringRunAll(ss: seq<Stmt>, x: string, t: seq<Event>)
    requires CoversAny(ss, x) && RunsAll(ss, t)
    ensures First(t, x) != Untouched
    decreases ss
  {
    var k: nat :| k <= |t| && Runs(ss[0], t[..k]) && RunsAll(ss[1..], t[k..]);
    FirstSplit(t, k, x);
    if Covers(ss[0], x) { CoveringRun(ss[0], x, t[..k]); } else { CoveringRunAll(ss[1..], x, t[k..]); }
  }

  // { x, y } = 0; writes x, but counts as a use of it.
  method ConcatenationIsUse() returns (u: Usage)
    ensures u == SyncRequired
    ensures forall t | Runs(Assign(Op([Id("x", []), Id("y", [])]), Op([])), t) :: First(t, "x") == Written
  {
    var l := Op([Id("x", []), Id("y", [])]);
    assert l.args[1..] == [Id("y", [])] && l.args[1..][1..] == [];
    u := AlwaysAsgnBeforeUse(Assign(l, Op([])), "x");
    var t := Evaluate(Op([])) + Store(l);
    assert Mentions(l.args[0], "x") && MentionsAny(l.args, "x");
    assert StoreAll(l.args[1..]) == Store(Id("y", [])) + [];
    assert t == [Writes("x"), Writes("y")];
  }

  // casez (c) default: x = 0; endcase y = x; reads x only after it was written, but a
  // default of casez does not count.
  method WildDefaultIsMissed() returns (u: Usage)
    ensures u == SyncRequired
    ensures forall t | Runs(WildDefault(), t) :: First(t, "x") == Written
  {
    var s := WildDefault();
    u := AlwaysAsgnBeforeUse(s, "x");
    var first, second := s.stmts[0], s.stmts[1];
    var zero := Assign(Id("x", []), Op([]));
    assert s.stmts[1..] == [second] && [second][1..] == [] && first.branches[1..] == [];
    assert UsageOf(first, "x") == NotReferenced && UsageOf(second, "x") == SyncRequired;
    forall t | Runs(s, t) ensures First(t, "x") == Written {
      var k: nat :| k <= |t| && Runs(first, t[..k]) && RunsAll(s.stmts[1..], t[k..]);
      WildDefaultWrites(t[..k]);
      FirstSplit(t, k, "x");
    }
  }

  function WildDefault(): Stmt {
    var zero := Assign(Id("x", []), Op([]));
    Block([Case(Id("c", []), [Branch(true, [Default], [zero])]), Assign(Id("y", []), Id("x", []))])
  }

  lemma {:induction false} WildDefaultWrites(t: seq<Event>)
    requires Runs(WildDefault().stmts[0], t)
    ensures First(t, "x") == Written
  {
    var s := WildDefault().stmts[0];
    var b, zero := s.branches[0], Assign(Id("x", []), Op([]));
    assert s.branches == [b] && b.labels[0].Default? && IsDefault(s.branches[0]) && b.body == [zero] && b.body[1..] == [];
    assert UniformAll(b.body) && Uniform(zero) && UniformBranch(b) && Uniform(s);
    assert CleanFirst(zero, "x") && CleanFirstAll(b.body, "x") && CleanFirstBranch(b, "x") && CleanFirst(s, "x");
    assert Covers(zero, "x") && CoversBranch(b, "x") && Covers(s, "x");
    assert s.branches[1..] == [] && UsageOf(s, "x") == NotReferenced;
    RunIsSafe(s, "x", t);
  }
}
