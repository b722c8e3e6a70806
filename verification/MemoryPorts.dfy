// Memory writes in an always block become write ports with priority masks. The masks
// are built in one traversal (synlig_simplify); here they are compared with what the
// sequential code does in every run.
module MemoryPorts {

  // An always block after all loops are gone, reduced to its memory writes. The arm that
  // a case takes depends on run-time values, so that any arm may be taken, and none only
  // if there is no default arm.
  datatype Stmt =
    | Write(mem: string)
    | Block(stmts: seq<Stmt>)
    | Case(arms: seq<Stmt>, hasDefault: bool)

  // ---------- the traversal ----------

  // For one memory: the ports that may have been executed on the way to this point, and
  // the priority mask of every port made so far. A port is known by its index in masks.
  datatype Visit = Visit(visible: set<nat>, masks: seq<set<nat>>)

  function VisitStmt(p: Stmt, m: string, v: Visit): Visit
    decreases p
  {
    match p
    case Write(mem) => if mem == m then Visit(v.visible + {|v.masks|}, v.masks + [v.visible]) else v
    case Block(ss) => VisitStmts(ss, m, v)
    case Case(arms, _) => VisitArms(arms, m, v, v.visible)
  }

  function VisitStmts(ss: seq<Stmt>, m: string, v: Visit): Visit
    decreases ss
  {
    if ss == [] then v else VisitStmts(ss[1..], m, VisitStmt(ss[0], m, v))
  }

  // Every arm starts from what was visible before the case; after it, everything is
  // visible that is visible at the end of some arm.
  function VisitArms(arms: seq<Stmt>, m: string, v: Visit, final: set<nat>): Visit
    decreases arms
  {
    if arms == [] then Visit(final, v.masks)
    else
      var w := VisitStmt(arms[0], m, v);
      VisitArms(arms[1..], m, Visit(v.visible, w.masks), final + w.visible)
  }

  // ---------- the runs ----------

  function Count(p: Stmt, m: string): nat
    decreases p
  {
    match p
    case Write(mem) => if mem == m then 1 else 0
    case Block(ss) => CountStmts(ss, m)
    case Case(arms, _) => CountArms(arms, m)
  }

  function CountStmts(ss: seq<Stmt>, m: string): nat
    decreases ss
  {
    if ss == [] then 0 else Count(ss[0], m) + CountStmts(ss[1..], m)
  }

  function CountArms(arms: seq<Stmt>, m: string): nat
    decreases arms
  {
    if arms == [] then 0 else Count(arms[0], m) + CountArms(arms[1..], m)
  }

  // Some run of the code executes exactly the writes t to memory m, in this order. Writes
  // are numbered in the order of the program text, starting with first.
  ghost predicate Runs(p: Stmt, m: string, first: nat, t: seq<nat>)
    decreases p
  {
    match p
    case Write(mem) => t == if mem == m then [first] else []
    case Block(ss) => RunsStmts(ss, m, first, t)
    case Case(arms, hasDefault) => (t == [] && !hasDefault) || RunsArm(arms, m, first, t)
  }

  ghost predicate RunsStmts(ss: seq<Stmt>, m: string, first: nat, t: seq<nat>)
    decreases ss
  {
    if ss == [] then t == []
    else exists k | 0 <= k <= |t| ::
      Runs(ss[0], m, first, t[..k]) && RunsStmts(ss[1..], m, first + Count(ss[0], m), t[k..])
  }

  ghost predicate RunsArm(arms: seq<Stmt>, m: string, first: nat, t: seq<nat>)
    decreases arms
  {
    arms != [] &&
    (Runs(arms[0], m, first, t) || RunsArm(arms[1..], m, first + Count(arms[0], m), t))
  }

  // A case without arms that has a default cannot be: the default is an arm.
  predicate WellFormed(p: Stmt)
    decreases p
  {
    match p
    case Write(_) => true
    case Block(ss) => WellFormedStmts(ss)
    case Case(arms, hasDefault) => WellFormedArms(arms) && (hasDefault ==> arms != [])
  }

  predicate WellFormedStmts(ss: seq<Stmt>)
    decreases ss
  {
    ss == [] || (WellFormed(ss[0]) && WellFormedStmts(ss[1..]))
  }

  predicate WellFormedArms(arms: seq<Stmt>)
    decreases arms
  {
    arms == [] || (WellFormed(arms[0]) && WellFormedArms(arms[1..]))
  }

  // ---------- what every traversal keeps ----------

  ghost predicate Below(xs: set<nat>, n: nat) {
    forall x | x in xs :: x < n
  }

  // w comes after v: n ports have been added and nothing has been forgotten.
  ghost predicate Extends(v: Visit, w: Visit, n: nat) {
    && |w.masks| == |v.masks| + n && w.masks[..|v.masks|] == v.masks
    && v.visible <= w.visible && Below(w.visible, |w.masks|)
  }

  lemma {:induction false} VisitExtends(p: Stmt, m: string, v: Visit)
    requires Below(v.visible, |v.masks|)
    ensures Extends(v, VisitStmt(p, m, v), Count(p, m))
    decreases p
  {
    match p
    case Write(_) =>
    case Block(ss) => VisitStmtsExtends(ss, m, v);
    case Case(arms, _) => VisitArmsExtends(arms, m, v, v.visible);
  }

  lemma {:induction false} VisitStmtsExtends(ss: seq<Stmt>, m: string, v: Visit)
    requires Below(v.visible, |v.masks|)
    ensures Extends(v, VisitStmts(ss, m, v), CountStmts(ss, m))
    decreases ss
  {
    if ss != [] {
      var w := VisitStmt(ss[0], m, v);
      VisitExtends(ss[0], m, v);
      VisitStmtsExtends(ss[1..], m, w);
      var z := VisitStmts(ss[1..], m, w);
      assert z.masks[..|v.masks|] == z.masks[..|w.masks|][..|v.masks|];
    }
  }

  lemma {:induction false} VisitArmsExtends(arms: seq<Stmt>, m: string, v: Visit, final: set<nat>)
    requires Below(v.visible, |v.masks|) && Below(final, |v.masks|)
    ensures var w := VisitArms(arms, m, v, final);
            |w.masks| == |v.masks| + CountArms(arms, m) && w.masks[..|v.masks|] == v.masks &&
            final <= w.visible && Below(w.visible, |w.masks|)
    decreases arms
  {
    if arms != [] {
      var w := VisitStmt(arms[0], m, v);
      VisitExtends(arms[0], m, v);
      VisitArmsExtends(arms[1..], m, Visit(v.visible, w.masks), final + w.visible);
      var z := VisitArms(arms, m, v, final);
      assert z.masks[..|v.masks|] == z.masks[..|w.masks|][..|v.masks|];
    }
  }

  // ---------- soundness: every run is ordered by the masks ----------

  // The ports of t are new, in increasing order, and each has priority over everything
  // visible before and over every earlier port of t.
  ghost predicate Ordered(v: Visit, masks: seq<set<nat>>, t: seq<nat>) {
    && (forall j | 0 <= j < |t| :: |v.masks| <= t[j] < |masks| && v.visible <= masks[t[j]])
    && (forall i, j | 0 <= i < j < |t| :: t[i] < t[j] && t[i] in masks[t[j]])
  }

  ghost predicate Shows(visible: set<nat>, t: seq<nat>) {
    forall j | 0 <= j < |t| :: t[j] in visible
  }

  lemma {:induction false} RunOrdered(p: Stmt, m: string, v: Visit, t: seq<nat>)
    requires Below(v.visible, |v.masks|) && Runs(p, m, |v.masks|, t)
    ensures var w := VisitStmt(p, m, v); Ordered(v, w.masks, t) && Shows(w.visible, t)
    decreases p
  {
    match p
    case Write(_) =>
    case Block(ss) => RunStmtsOrdered(ss, m, v, t);
    case Case(arms, _) => if t != [] { RunArmOrdered(arms, m, v, v.visible, t); }
  }

  lemma {:induction false} RunStmtsOrdered(ss: seq<Stmt>, m: string, v: Visit, t: seq<nat>)
    requires Below(v.visible, |v.masks|) && RunsStmts(ss, m, |v.masks|, t)
    ensures var w := VisitStmts(ss, m, v); Ordered(v, w.masks, t) && Shows(w.visible, t)
    decreases ss
  {
    if ss != [] {
      var w := VisitStmt(ss[0], m, v);
      VisitExtends(ss[0], m, v);
      var k :| 0 <= k <= |t| && Runs(ss[0], m, |v.masks|, t[..k]) &&
        RunsStmts(ss[1..], m, |v.masks| + Count(ss[0], m), t[k..]);
      RunOrdered(ss[0], m, v, t[..k]);
      RunStmtsOrdered(ss[1..], m, w, t[k..]);
      VisitStmtsExtends(ss[1..], m, w);
      JoinOrdered(v, w, VisitStmts(ss, m, v), t, k);
    }
  }

  lemma {:induction false} JoinOrdered(v: Visit, w: Visit, z: Visit, t: seq<nat>, k: nat)
    requires k <= |t| && |v.masks| <= |w.masks| <= |z.masks| && z.masks[..|w.masks|] == w.masks
    requires v.visible <= w.visible <= z.visible
    requires Ordered(v, w.masks, t[..k]) && Shows(w.visible, t[..k])
    requires Ordered(w, z.masks, t[k..]) && Shows(z.visible, t[k..])
    ensures Ordered(v, z.masks, t) && Shows(z.visible, t)
  {
    var a, b := t[..k], t[k..];
    forall j | 0 <= j < |t|
      ensures |v.masks| <= t[j] < |z.masks| && v.visible <= z.masks[t[j]] && t[j] in z.visible
    {
      if j < k { assert t[j] == a[j] && z.masks[t[j]] == w.masks[t[j]]; }
      else { assert t[j] == b[j - k]; }
    }
    forall i, j | 0 <= i < j < |t|
      ensures t[i] < t[j] && t[i] in z.masks[t[j]]
    {
      if j < k { assert t[i] == a[i] && t[j] == a[j] && z.masks[t[j]] == w.masks[t[j]]; }
      else if i < k { assert t[i] == a[i] && t[j] == b[j - k]; }
      else { assert t[i] == b[i - k] && t[j] == b[j - k]; }
    }
  }

  lemma {:induction false} RunArmOrdered(arms: seq<Stmt>, m: string, v: Visit, final: set<nat>, t: seq<nat>)
    requires Below(v.visible, |v.masks|) && Below(final, |v.masks|) && RunsArm(arms, m, |v.masks|, t)
    ensures var w := VisitArms(arms, m, v, final); Ordered(v, w.masks, t) && Shows(w.visible, t)
    decreases arms
  {
    var w := VisitStmt(arms[0], m, v);
    var v1 := Visit(v.visible, w.masks);
    VisitExtends(arms[0], m, v);
    VisitArmsExtends(arms[1..], m, v1, final + w.visible);
    if Runs(arms[0], m, |v.masks|, t) {
      RunOrdered(arms[0], m, v, t);
      var z := VisitArms(arms, m, v, final);
      forall j | 0 <= j < |t| ensures z.masks[t[j]] == w.masks[t[j]] {
        assert z.masks[..|w.masks|] == w.masks;
      }
    } else {
      RunArmOrdered(arms[1..], m, v1, final + w.visible, t);
    }
  }

  // ---------- completeness: the masks order nothing else ----------

  // Some run executes i and later j.
  ghost predicate Before(t: seq<nat>, i: nat, j: nat) {
    exists a, b | 0 <= a < b < |t| :: t[a] == i && t[b] == j
  }

  // Every write is executed in some run; with want beyond the writes, this just gives a run.
  lemma {:induction false} SomeRun(p: Stmt, m: string, first: nat, want: nat) returns (t: seq<nat>)
    requires WellFormed(p)
    ensures Runs(p, m, first, t) && (first <= want < first + Count(p, m) ==> want in t)
    decreases p
  {
    match p
    case Write(mem) =>
      t := if mem == m then [first] else [];
      assert mem == m ==> t[0] == first;
    case Block(ss) =>
      assert Count(p, m) == CountStmts(ss, m);
      t := SomeStmtsRun(ss, m, first, want);
    case Case(arms, hasDefault) =>
      assert Count(p, m) == CountArms(arms, m);
      if arms == [] { t := []; }
      else { t := SomeArmRun(arms, m, first, want); }
  }

  lemma {:induction false} JoinRuns(ss: seq<Stmt>, m: string, first: nat, a: seq<nat>, b: seq<nat>)
    requires ss != [] && Runs(ss[0], m, first, a) && RunsStmts(ss[1..], m, first + Count(ss[0], m), b)
    ensures RunsStmts(ss, m, first, a + b)
  {
    var k := |a|;
    assert (a + b)[..k] == a && (a + b)[k..] == b;
  }

  lemma {:induction false} SomeStmtsRun(ss: seq<Stmt>, m: string, first: nat, want: nat) returns (t: seq<nat>)
    requires WellFormedStmts(ss)
    ensures RunsStmts(ss, m, first, t) && (first <= want < first + CountStmts(ss, m) ==> want in t)
    decreases ss
  {
    if ss == [] { t := []; }
    else {
      var a := SomeRun(ss[0], m, first, want);
      var b := SomeStmtsRun(ss[1..], m, first + Count(ss[0], m), want);
      JoinRuns(ss, m, first, a, b);
      t := a + b;
    }
  }

  lemma {:induction false} SomeArmRun(arms: seq<Stmt>, m: string, first: nat, want: nat) returns (t: seq<nat>)
    requires WellFormedArms(arms) && arms != []
    ensures RunsArm(arms, m, first, t) && (first <= want < first + CountArms(arms, m) ==> want in t)
    decreases arms
  {
    assert CountArms(arms, m) == Count(arms[0], m) + CountArms(arms[1..], m);
    if want < first + Count(arms[0], m) || arms[1..] == [] {
      t := SomeRun(arms[0], m, first, want);
    } else {
      t := SomeArmRun(arms[1..], m, first + Count(arms[0], m), want);
    }
  }

  // What is newly visible after the code was executed by some run of it.
  lemma {:induction false} VisibleIsRun(p: Stmt, m: string, v: Visit, i: nat) returns (t: seq<nat>)
    requires WellFormed(p) && Below(v.visible, |v.masks|)
    requires i in VisitStmt(p, m, v).visible && i !in v.visible
    ensures Runs(p, m, |v.masks|, t) && i in t
    decreases p
  {
    match p
    case Write(mem) => t := [i];
    case Block(ss) => t := VisibleIsStmtsRun(ss, m, v, i);
    case Case(arms, _) => t := VisibleIsArmRun(arms, m, v, v.visible, i);
  }

  lemma {:induction false} VisibleIsStmtsRun(ss: seq<Stmt>, m: string, v: Visit, i: nat) returns (t: seq<nat>)
    requires WellFormedStmts(ss) && Below(v.visible, |v.masks|)
    requires i in VisitStmts(ss, m, v).visible && i !in v.visible
    ensures RunsStmts(ss, m, |v.masks|, t) && i in t
    decreases ss
  {
    var w := VisitStmt(ss[0], m, v);
    VisitExtends(ss[0], m, v);
    var a, b;
    if i in w.visible {
      a := VisibleIsRun(ss[0], m, v, i);
      b := SomeStmtsRun(ss[1..], m, |w.masks|, 0);
    } else {
      a := SomeRun(ss[0], m, |v.masks|, 0);
      b := VisibleIsStmtsRun(ss[1..], m, w, i);
    }
    JoinRuns(ss, m, |v.masks|, a, b);
    t := a + b;
  }

  lemma {:induction false} VisibleIsArmRun(arms: seq<Stmt>, m: string, v: Visit, final: set<nat>,
      i: nat) returns (t: seq<nat>)
    requires WellFormedArms(arms) && Below(v.visible, |v.masks|) && v.visible <= final
    requires i in VisitArms(arms, m, v, final).visible && i !in final
    ensures RunsArm(arms, m, |v.masks|, t) && i in t
    decreases arms
  {
    var w := VisitStmt(arms[0], m, v);
    VisitExtends(arms[0], m, v);
    if i in w.visible {
      t := VisibleIsRun(arms[0], m, v, i);
    } else {
      t := VisibleIsArmRun(arms[1..], m, Visit(v.visible, w.masks), final + w.visible, i);
    }
  }

  // When the mask of a port of this code names a port that was not visible before, some
  // run of this code executes the named port first and the other later.
  lemma {:induction false} MaskIsRun(p: Stmt, m: string, v: Visit, i: nat, j: nat) returns (t: seq<nat>)
    requires WellFormed(p) && Below(v.visible, |v.masks|)
    requires var w := VisitStmt(p, m, v); |v.masks| <= j < |w.masks| && i in w.masks[j] && i !in v.visible
    ensures Runs(p, m, |v.masks|, t) && Before(t, i, j)
    decreases p
  {
    match p
    case Write(mem) => assert false;
    case Block(ss) => t := MaskIsStmtsRun(ss, m, v, i, j);
    case Case(arms, _) => t := MaskIsArmRun(arms, m, v, v.visible, i, j);
  }

  lemma {:induction false} MaskIsStmtsRun(ss: seq<Stmt>, m: string, v: Visit, i: nat, j: nat) returns (t: seq<nat>)
    requires WellFormedStmts(ss) && Below(v.visible, |v.masks|)
    requires var w := VisitStmts(ss, m, v); |v.masks| <= j < |w.masks| && i in w.masks[j] && i !in v.visible
    ensures RunsStmts(ss, m, |v.masks|, t) && Before(t, i, j)
    decreases ss
  {
    var w := VisitStmt(ss[0], m, v);
    var z := VisitStmts(ss[1..], m, w);
    VisitExtends(ss[0], m, v);
    VisitStmtsExtends(ss[1..], m, w);
    var a, b;
    if j < |w.masks| {
      assert z.masks[j] == z.masks[..|w.masks|][j] == w.masks[j];
      a := MaskIsRun(ss[0], m, v, i, j);
      b := SomeStmtsRun(ss[1..], m, |w.masks|, 0);
      var x, y :| 0 <= x < y < |a| && a[x] == i && a[y] == j;
      assert (a + b)[x] == i && (a + b)[y] == j;
    } else if i in w.visible {
      a := VisibleIsRun(ss[0], m, v, i);
      b := SomeStmtsRun(ss[1..], m, |w.masks|, j);
      var x :| 0 <= x < |a| && a[x] == i;
      var y :| 0 <= y < |b| && b[y] == j;
      assert (a + b)[x] == i && (a + b)[|a| + y] == j;
    } else {
      a := SomeRun(ss[0], m, |v.masks|, 0);
      b := MaskIsStmtsRun(ss[1..], m, w, i, j);
      var x, y :| 0 <= x < y < |b| && b[x] == i && b[y] == j;
      assert (a + b)[|a| + x] == i && (a + b)[|a| + y] == j;
    }
    JoinRuns(ss, m, |v.masks|, a, b);
    t := a + b;
  }

  lemma {:induction false} MaskIsArmRun(arms: seq<Stmt>, m: string, v: Visit, final: set<nat>, i: nat,
      j: nat) returns (t: seq<nat>)
    requires WellFormedArms(arms) && Below(v.visible, |v.masks|) && Below(final, |v.masks|)
    requires var w := VisitArms(arms, m, v, final); |v.masks| <= j < |w.masks| && i in w.masks[j] && i !in v.visible
    ensures RunsArm(arms, m, |v.masks|, t) && Before(t, i, j)
    decreases arms
  {
    if arms == [] { assert false; }
    else {
      var w := VisitStmt(arms[0], m, v);
      var v1 := Visit(v.visible, w.masks);
      VisitExtends(arms[0], m, v);
      VisitArmsExtends(arms[1..], m, v1, final + w.visible);
      if j < |w.masks| {
        var z := VisitArms(arms, m, v, final);
        assert z.masks[j] == z.masks[..|w.masks|][j] == w.masks[j];
        t := MaskIsRun(arms[0], m, v, i, j);
      } else {
        t := MaskIsArmRun(arms[1..], m, v1, final + w.visible, i, j);
      }
    }
  }

  // ---------- the masks of a whole always block ----------

  // The traversal of an always block starts with nothing visible and no port.
  function Masks(p: Stmt, m: string): seq<set<nat>> {
    VisitStmt(p, m, Visit({}, [])).masks
  }

  // Port j has priority over port i exactly when some run executes i and then j.
  lemma {:induction false} PriorityIffSomeRun(p: Stmt, m: string, i: nat, j: nat)
    requires WellFormed(p)
    ensures |Masks(p, m)| == Count(p, m)
    ensures j < Count(p, m) && i in Masks(p, m)[j] <==> exists t :: Runs(p, m, 0, t) && Before(t, i, j)
  {
    var v := Visit({}, []);
    VisitExtends(p, m, v);
    if j < Count(p, m) && i in Masks(p, m)[j] {
      var t := MaskIsRun(p, m, v, i, j);
    }
    if t :| Runs(p, m, 0, t) && Before(t, i, j) {
      RunOrdered(p, m, v, t);
    }
  }

  lemma {:induction false} ArmRunStaysInArm(arms: seq<Stmt>, m: string, first: nat, t: seq<nat>) returns (k: nat)
    requires RunsArm(arms, m, first, t)
    ensures k < |arms| && Runs(arms[k], m, first + CountArms(arms[..k], m), t)
    decreases arms
  {
    if Runs(arms[0], m, first, t) {
      k := 0;
    } else {
      k := ArmRunStaysInArm(arms[1..], m, first + Count(arms[0], m), t);
      assert arms[..k + 1][1..] == arms[1..][..k];
      k := k + 1;
    }
  }

  // Write number i is made in arm k of a case whose first write is number first.
  predicate InArm(arms: seq<Stmt>, m: string, first: nat, k: nat, i: nat) {
    k < |arms| && var start := first + CountArms(arms[..k], m); start <= i < start + Count(arms[k], m)
  }

  // Writes in different arms of a case get no priority over each other.
  lemma {:induction false} BranchesUnordered(arms: seq<Stmt>, hasDefault: bool, m: string, v: Visit, i: nat, j: nat)
    requires WellFormed(Case(arms, hasDefault)) && Below(v.visible, |v.masks|)
    requires var w := VisitStmt(Case(arms, hasDefault), m, v); |v.masks| <= i && |v.masks| <= j < |w.masks| && i in w.masks[j]
    ensures exists k :: InArm(arms, m, |v.masks|, k, i) && InArm(arms, m, |v.masks|, k, j)
  {
    var first := |v.masks|;
    var t := MaskIsArmRun(arms, m, v, v.visible, i, j);
    var k := ArmRunStaysInArm(arms, m, first, t);
    var none := Visit({}, seq(first + CountArms(arms[..k], m), _ => {}));
    VisitExtends(arms[k], m, none);
    RunOrdered(arms[k], m, none, t);
    assert InArm(arms, m, first, k, i) && InArm(arms, m, first, k, j);
  }

  // ---------- the memory after the always block ----------

  datatype Cell = Cell(addr: int, bit: nat)

  // What one port does in a run: its address and the bits it enables with their data.
  datatype Event = Event(port: nat, addr: int, bits: map<nat, bool>)

  type Memory = map<Cell, bool>

  predicate Covers(e: Event, c: Cell) {
    e.addr == c.addr && c.bit in e.bits
  }

  // The given bits as cells of one address.
  function Cells(addr: int, bits: map<nat, bool>): Memory {
    map b | b in bits :: Cell(addr, b) := bits[b]
  }

  // The writes in program order.
  function Sequential(mem: Memory, es: seq<Event>): Memory {
    if es == [] then mem
    else
      var e := es[|es| - 1];
      Sequential(mem, es[..|es| - 1]) + Cells(e.addr, e.bits)
  }

  lemma {:induction false} SequentialLast(mem: Memory, es: seq<Event>, n: nat)
    requires n + 1 == |es|
    ensures Sequential(mem, es) == Sequential(mem, es[..n]) + Cells(es[n].addr, es[n].bits)
  {
  }

  function Ports(es: seq<Event>): seq<nat> {
    seq(|es|, i requires 0 <= i < |es| => es[i].port)
  }

  // The enabled ports all write at once. Where several write the same bit, the result is
  // defined only if one of them has priority over all the others, and then that one wins.
  ghost predicate CommitsAt(masks: seq<set<nat>>, mem: Memory, es: set<Event>, final: Memory, c: Cell)
    requires forall e | e in es :: e.port < |masks|
  {
    if exists e :: e in es && Covers(e, c)
    then exists e :: e in es && Covers(e, c) && c in final && final[c] == e.bits[c.bit] &&
           forall o | o in es && Covers(o, c) && o != e :: o.port in masks[e.port]
    else (c in final <==> c in mem) && (c in final ==> final[c] == mem[c])
  }

  ghost predicate Commits(masks: seq<set<nat>>, mem: Memory, es: set<Event>, final: Memory)
    requires forall e | e in es :: e.port < |masks|
  {
    forall c: Cell :: CommitsAt(masks, mem, es, final, c)
  }

  lemma {:induction false} LastWriteWins(mem: Memory, es: seq<Event>, c: Cell) returns (k: int)
    ensures -1 <= k < |es| && (forall i | k < i < |es| :: !Covers(es[i], c))
    ensures k >= 0 ==> Covers(es[k], c) && c in Sequential(mem, es) && Sequential(mem, es)[c] == es[k].bits[c.bit]
    ensures k < 0 ==> ((c in Sequential(mem, es) <==> c in mem) && (c in mem ==> Sequential(mem, es)[c] == mem[c]))
    decreases |es|
  {
    if es == [] { k := -1; }
    else {
      var n := |es| - 1;
      k := LastWriteWins(mem, es[..n], c);
      if Covers(es[n], c) { k := n; }
    }
  }

  // The events of a run are in increasing order of their ports, each with priority over
  // all before it.
  ghost predicate InOrder(masks: seq<set<nat>>, es: seq<Event>) {
    && (forall i | 0 <= i < |es| :: es[i].port < |masks|)
    && (forall i, j | 0 <= i < j < |es| :: es[i].port < es[j].port && es[i].port in masks[es[j].port])
  }

  lemma {:induction false} RunInOrder(p: Stmt, m: string, es: seq<Event>)
    requires WellFormed(p) && Runs(p, m, 0, Ports(es))
    ensures InOrder(Masks(p, m), es)
  {
    var t := Ports(es);
    RunOrdered(p, m, Visit({}, []), t);
    assert forall i | 0 <= i < |es| :: t[i] == es[i].port;
  }

  // For every run of the always block, whatever addresses and data it computes: the
  // enabled ports under their masks produce a memory, and only the one that the executed
  // writes produce in program order.
  lemma {:induction false} PortsRefineWrites(p: Stmt, m: string, mem: Memory, es: seq<Event>, final: Memory)
    requires WellFormed(p) && Runs(p, m, 0, Ports(es))
    ensures InOrder(Masks(p, m), es)
    ensures Commits(Masks(p, m), mem, (set e | e in es), final) <==> final == Sequential(mem, es)
  {
    RunInOrder(p, m, es);
    var all := set e | e in es;
    forall c: Cell
      ensures CommitsAt(Masks(p, m), mem, all, final, c) <==> SameAt(final, Sequential(mem, es), c)
    {
      CommitCell(p, m, Masks(p, m), mem, es, final, c);
    }
    if final == Sequential(mem, es) {
      assert forall c: Cell :: SameAt(final, Sequential(mem, es), c);
      assert Commits(Masks(p, m), mem, all, final);
    }
    if Commits(Masks(p, m), mem, all, final) {
      SameEverywhere(final, Sequential(mem, es));
    }
  }

  // Two memories agree on a cell.
  ghost predicate SameAt(a: Memory, b: Memory, c: Cell) {
    (c in a <==> c in b) && (c in a ==> a[c] == b[c])
  }

  lemma {:induction false} SameEverywhere(a: Memory, b: Memory)
    requires forall c: Cell :: SameAt(a, b, c)
    ensures a == b
  {
    assert forall c | c in a :: SameAt(a, b, c);
    assert forall c | c in b :: SameAt(a, b, c);
  }

  lemma {:induction false} CommitCell(p: Stmt, m: string, masks: seq<set<nat>>, mem: Memory, es: seq<Event>,
      final: Memory, c: Cell)
    requires WellFormed(p) && masks == Masks(p, m) && InOrder(masks, es)
    ensures CommitsAt(masks, mem, (set e | e in es), final, c) <==> SameAt(final, Sequential(mem, es), c)
  {
    var all := set e | e in es;
    var k := LastWriteWins(mem, es, c);
    if k >= 0 {
      var last := es[k];
      assert last in all && Covers(last, c);
      forall o | o in all && Covers(o, c) && o != last
        ensures o.port in masks[last.port] && last.port !in masks[o.port]
      {
        var i :| 0 <= i < |es| && es[i] == o;
        assert i < k;
        if last.port in masks[o.port] { MaskIsEarlier(p, m, last.port, o.port); }
      }
    } else {
      assert forall e | e in all :: !Covers(e, c);
    }
  }

  // A mask only names earlier ports, so that two ports never have priority over each other.
  lemma {:induction false} MaskIsEarlier(p: Stmt, m: string, i: nat, j: nat)
    requires WellFormed(p) && j < |Masks(p, m)| && i in Masks(p, m)[j]
    ensures i < j
  {
    var v := Visit({}, []);
    var t := MaskIsRun(p, m, v, i, j);
    RunOrdered(p, m, v, t);
  }

  // ---------- the pass as the source runs it ----------

  function Seen(visible: map<string, set<nat>>, m: string): set<nat> {
    if m in visible then visible[m] else {}
  }

  function Made(ports: map<string, seq<seq<bool>>>, m: string): seq<seq<bool>> {
    if m in ports then ports[m] else []
  }

  function AsSet(mask: seq<bool>): set<nat> {
    set i | 0 <= i < |mask| && mask[i]
  }

  function MaskSets(masks: seq<seq<bool>>): (r: seq<set<nat>>)
    ensures |r| == |masks| && forall i | 0 <= i < |masks| :: r[i] == AsSet(masks[i])
  {
    if masks == [] then [] else MaskSets(masks[..|masks| - 1]) + [AsSet(masks[|masks| - 1])]
  }

  function Merge(a: map<string, set<nat>>, b: map<string, set<nat>>): (r: map<string, set<nat>>)
    ensures forall m :: Seen(r, m) == Seen(a, m) + Seen(b, m)
  {
    map m | m in a.Keys + b.Keys :: Seen(a, m) + Seen(b, m)
  }

  lemma {:induction false} MaskAppended(masks: seq<seq<bool>>, mask: seq<bool>)
    ensures MaskSets(masks + [mask]) == MaskSets(masks) + [AsSet(mask)]
  {
    assert (masks + [mask])[..|masks|] == masks;
  }

  function Counted(count: map<string, nat>, m: string): nat {
    if m in count then count[m] else 0
  }

  // The tables of one memory: as many masks as ports, each with a bit for every earlier port.
  ghost predicate Consistent(count: nat, visible: set<nat>, masks: seq<seq<bool>>) {
    && count == |masks| && Below(visible, |masks|)
    && forall j | 0 <= j < |masks| :: |masks[j]| == j
  }

  lemma {:induction false} ConsistentNext(count: nat, visible: set<nat>, masks: seq<seq<bool>>, mask: seq<bool>)
    requires Consistent(count, visible, masks) && |mask| == count
    ensures Consistent(count + 1, visible + {count}, masks + [mask])
  {
  }

  // The tables kept while an always block is simplified, and the priority masks of the
  // write ports added to it. A mask has one bit for every earlier port of its memory.
  class WritePortPass {
    var visible: map<string, set<nat>>
    var count: map<string, nat>
    var ports: map<string, seq<seq<bool>>>

    ghost predicate Valid()
      reads this
    {
      forall m :: Consistent(Counted(count, m), Seen(visible, m), Made(ports, m))
    }

    // The tables restricted to one memory.
    ghost function Of(m: string): Visit
      reads this
    {
      Visit(Seen(visible, m), MaskSets(Made(ports, m)))
    }

    constructor ()
      ensures Valid() && forall m :: Of(m) == Visit({}, [])
    {
      visible, count, ports := map[], map[], map[];
    }

    // At the end of an always block its ports stay with it, and the tables are as they
    // were before the first block.
    method EndAlways() returns (made: map<string, seq<seq<bool>>>)
      modifies this
      ensures Valid() && forall m :: Of(m) == Visit({}, [])
      ensures made == old(ports)
    {
      made := ports;
      visible, count, ports := map[], map[], map[];
    }

    // One always block of several: its ports have the masks of the block on its own, and
    // the next block starts afresh.
    method SimplifyAlways(p: Stmt) returns (made: map<string, seq<seq<bool>>>)
      requires Valid() && forall m :: Of(m) == Visit({}, [])
      modifies this
      ensures Valid() && forall m :: Of(m) == Visit({}, [])
      ensures forall m :: MaskSets(Made(made, m)) == Masks(p, m)
    {
      Simplify(p);
      assert forall m :: MaskSets(Made(ports, m)) == Of(m).masks;
      made := EndAlways();
    }

    method AddPort(m: string)
      requires Valid()
      modifies this
      ensures Valid() && forall n :: Of(n) == VisitStmt(Write(m), n, old(Of(n)))
    {
      var portid := Counted(count, m);
      count := count[m := portid + 1];
      assert Consistent(portid, Seen(visible, m), Made(ports, m));
      var mask: seq<bool> := [];
      for i := 0 to portid
        invariant |mask| == i && forall k | 0 <= k < i :: mask[k] <==> k in Seen(visible, m)
      {
        mask := mask + [i in Seen(visible, m)];
      }
      assert AsSet(mask) == Seen(visible, m);
      MaskAppended(Made(ports, m), mask);
      ConsistentNext(portid, Seen(visible, m), Made(ports, m), mask);
      ports := ports[m := Made(ports, m) + [mask]];
      visible := visible[m := Seen(visible, m) + {portid}];
      assert forall n | n != m :: Seen(visible, n) == old(Seen(visible, n));
      assert forall n | n != m :: Made(ports, n) == old(Made(ports, n));
      assert forall n | n != m :: Counted(count, n) == old(Counted(count, n));
    }

    method Simplify(p: Stmt)
      requires Valid()
      modifies this
      ensures Valid() && forall m :: Of(m) == VisitStmt(p, m, old(Of(m)))
      decreases p, 0
    {
      match p
      case Write(m) => AddPort(m);
      case Block(ss) => SimplifyBlock(ss);
      case Case(arms, _) => SimplifyCase(arms);
    }

    method SimplifyBlock(ss: seq<Stmt>)
      requires Valid()
      modifies this
      ensures Valid() && forall m :: Of(m) == VisitStmts(ss, m, old(Of(m)))
      decreases ss, 0
    {
      for i := 0 to |ss|
        invariant Valid() && forall m :: VisitStmts(ss[i..], m, Of(m)) == VisitStmts(ss, m, old(Of(m)))
      {
        assert ss[i..][1..] == ss[i + 1..];
        Simplify(ss[i]);
      }
    }

    method SimplifyCase(arms: seq<Stmt>)
      requires Valid()
      modifies this
      ensures Valid() && forall m :: Of(m) == VisitArms(arms, m, old(Of(m)), old(Of(m)).visible)
      decreases arms, 0
    {
      var final := visible;
      for i := 0 to |arms|
        invariant Valid() && forall m :: Below(Seen(final, m), |Made(ports, m)|)
        invariant forall m :: VisitArms(arms[i..], m, Of(m), Seen(final, m)) == VisitArms(arms, m, old(Of(m)), old(Of(m)).visible)
      {
        assert arms[i..][1..] == arms[i + 1..];
        final := SimplifyArm(arms[i], final);
      }
      visible := final;
    }

    // One arm of a case: what it makes visible is collected and then hidden again.
    method SimplifyArm(p: Stmt, collected: map<string, set<nat>>) returns (final: map<string, set<nat>>)
      requires Valid() && forall m :: Below(Seen(collected, m), |Made(ports, m)|)
      modifies this
      ensures Valid() && forall m :: Below(Seen(final, m), |Made(ports, m)|)
      ensures forall m :: var w := VisitStmt(p, m, old(Of(m)));
                Of(m) == Visit(old(Of(m)).visible, w.masks) && Seen(final, m) == Seen(collected, m) + w.visible
      decreases p, 1
    {
      forall m { VisitExtends(p, m, Of(m)); }
      var backup := visible;
      Simplify(p);
      final := Merge(collected, visible);
      visible := backup;
      forall m ensures |Made(ports, m)| >= |old(Made(ports, m))| {
        assert Extends(old(Of(m)), VisitStmt(p, m, old(Of(m))), Count(p, m));
      }
    }
  }
}
