// A lowered program ends whenever the original does, if every for loop with a break has a
// control that ends on its own.
module ProgramTermination {
  import opened Arithmetic
  import opened Procedural
  import opened JumpLowering
  import opened JumpLoweringMeaning
  import opened LeakedVariables
  import opened ProgramLowering
  import opened Unrolling
  import opened UnrollingMeaning
  import opened LoopTermination

  // ---------- more fuel does not change a complete run ----------

  predicate Complete(r: Result) {
    !r.out.OutOfFuel?
  }

  lemma {:induction false} StmtsMore(ss: seq<Stmt>, s: State, f: nat, g: nat)
    requires f <= g && Complete(ExecStmts(ss, s, f))
    ensures ExecStmts(ss, s, g) == ExecStmts(ss, s, f)
    decreases f, ss
  {
    if ss != [] {
      StmtMore(ss[0], s, f, g);
      var r := Exec(ss[0], s, f);
      if r.out.Normal? { StmtsMore(ss[1..], r.state, f, g); }
    }
  }

  lemma {:induction false} BlkMore(b: Blk, s: State, f: nat, g: nat)
    requires f <= g && Complete(ExecBlk(b, s, f))
    ensures ExecBlk(b, s, g) == ExecBlk(b, s, f)
    decreases f, b, 0, 0
  {
    StmtsMore(b.stmts, Enter(s, b.decls), f, g);
  }

  lemma {:induction false} StmtMore(p: Stmt, s: State, f: nat, g: nat)
    requires f <= g && Complete(Exec(p, s, f))
    ensures Exec(p, s, g) == Exec(p, s, f)
    decreases f, p
  {
    match p
    case Block(b) => BlkMore(b, s, f, g);
    case Case(sel, arms) =>
      var i := Choose(arms, Eval(sel, s), s);
      if i < |arms| { BlkMore(arms[i].body, s, f, g); }
    case Loop(decls, head, body) => LoopMore(head, body, Enter(s, decls), f, g);
    case _ =>
  }

  lemma {:induction false} LoopMore(head: Head, body: Blk, s: State, f: nat, g: nat)
    requires f <= g && Complete(ExecLoop(head, body, s, f))
    ensures ExecLoop(head, body, s, g) == ExecLoop(head, body, s, f)
    decreases f, body, 2, 0
  {
    match head
    case While(cond) => WhileMore(cond, body, s, f, g);
    case Repeat(count) => RepeatMore(Eval(count, s), body, s, f, g);
    case For(v, init, cond, step) => ForMore(v, cond, step, body, Store(s, v, Eval(init, s)), f, g);
  }

  lemma {:induction false} WhileMore(cond: Expr, body: Blk, s: State, f: nat, g: nat)
    requires f <= g && Complete(ExecWhile(cond, body, s, f))
    ensures ExecWhile(cond, body, s, g) == ExecWhile(cond, body, s, f)
    decreases f, body, 1, 0
  {
    if Eval(cond, s) != 0 {
      BlkMore(body, s, f - 1, g - 1);
      var r := ExecBlk(body, s, f - 1);
      if !r.out.Broke? { WhileMore(cond, body, r.state, f - 1, g - 1); }
    }
  }

  lemma {:induction false} RepeatMore(n: int, body: Blk, s: State, f: nat, g: nat)
    requires f <= g && Complete(ExecRepeat(n, body, s, f))
    ensures ExecRepeat(n, body, s, g) == ExecRepeat(n, body, s, f)
    decreases f, body, 1, if n < 0 then 0 else n
  {
    if n > 0 {
      BlkMore(body, s, f, g);
      var r := ExecBlk(body, s, f);
      if !r.out.Broke? { RepeatMore(n - 1, body, r.state, f, g); }
    }
  }

  lemma {:induction false} ForMore(v: Var, cond: Expr, step: Expr, body: Blk, s: State, f: nat, g: nat)
    requires f <= g && Complete(ExecFor(v, cond, step, body, s, f))
    ensures ExecFor(v, cond, step, body, s, g) == ExecFor(v, cond, step, body, s, f)
    decreases f, body, 1, 0
  {
    if Eval(cond, s) != 0 {
      BlkMore(body, s, f - 1, g - 1);
      var r := ExecBlk(body, s, f - 1);
      if !r.out.Broke? { ForMore(v, cond, step, body, Store(r.state, v, Eval(step, r.state)), f - 1, g - 1); }
    }
  }

  // ---------- lowering assigns no variable of the program ----------

  lemma {:induction false} LowerKeeps(ss: seq<Stmt>, v: Var)
    requires Keeps(ss, v) && v !in FLAGS
    ensures Keeps(LowerStmts(ss).code, v)
    decreases ss
  {
    if ss != [] && !ss[0].Break? && !ss[0].Continue? {
      var head, rest := LowerStmt(ss[0]), LowerStmts(ss[1..]);
      LowerStmtKeeps(ss[0], v);
      LowerKeeps(ss[1..], v);
      if head.jumped {
        GuardKeeps(CONTINUE, Blk({}, rest.code), v);
        var g := Guard(CONTINUE, Blk({}, rest.code));
        assert [head.code, g][1..] == [g] && [g][1..] == [];
      } else {
        assert ([head.code] + rest.code)[1..] == rest.code;
      }
    } else if ss != [] {
      var first, second := SetFlag(CONTINUE, 1), SetFlag(BREAK, 1);
      assert KeepsStmt(first, v) && KeepsStmt(second, v);
      assert [first, second][1..] == [second] && [second][1..] == [] && [first][1..] == [];
    }
  }

  lemma {:induction false} GuardKeeps(flag: Var, b: Blk, v: Var)
    requires KeepsBlk(b, v)
    ensures KeepsStmt(Guard(flag, b), v)
  {
    var arms := Guard(flag, b).arms;
    assert arms[1..] == [];
  }

  lemma {:induction false} LowerStmtKeeps(p: Stmt, v: Var)
    requires KeepsStmt(p, v) && v !in FLAGS
    ensures KeepsStmt(LowerStmt(p).code, v)
    decreases p
  {
    match p
    case Block(b) => LowerBlkKeeps(b, v);
    case Case(_, arms) => LowerArmsKeep(arms, v);
    case _ =>
  }

  lemma {:induction false} LowerBlkKeeps(b: Blk, v: Var)
    requires KeepsBlk(b, v) && v !in FLAGS
    ensures KeepsBlk(LowerBlk(b).code, v)
    decreases b
  {
    if v !in b.decls { LowerKeeps(b.stmts, v); }
  }

  lemma {:induction false} LowerArmsKeep(arms: seq<Arm>, v: Var)
    requires KeepsArms(arms, v) && v !in FLAGS
    ensures KeepsArms(LowerArms(arms).code, v)
    decreases arms
  {
    if arms != [] {
      var l := LowerArms(arms);
      LowerBlkKeeps(arms[0].body, v);
      LowerArmsKeep(arms[1..], v);
      if arms[0].kind.Exact? && LowerBlk(arms[0].body).jumped {
        assert l.code[1..] == arms[1..];
      } else {
        assert l.code[1..] == LowerArms(arms[1..]).code;
      }
    }
  }

  lemma {:induction false} LowerLoopKeeps(decls: set<Var>, head: Head, body: Blk, v: Var)
    requires v in decls || (KeepsHead(head, v) && KeepsBlk(body, v))
    requires v !in FLAGS
    ensures KeepsBlk(LowerLoop(decls, head, body), v)
  {
    var low := LowerLoop(decls, head, body);
    if v !in decls {
      var last := [low.stmts[|low.stmts| - 1]];
      assert last[1..] == [];
      if LowerBlk(body).jumped {
        LowerBlkKeeps(body, v);
        var lb := LoopBody(body);
        assert lb.stmts[1..] == LowerStmts(body.stmts).code;
        assert KeepsBlk(lb, v);
        GuardKeeps(BREAK, lb, v);
        assert [Guard(BREAK, lb)][1..] == [];
        assert KeepsBlk(LoweredBody(head, body), v) && KeepsHead(LoweredHead(head, body), v);
        if LowerBlk(body).broke { assert low.stmts[1..] == last; }
      }
      assert Keeps(last, v);
    }
  }

  lemma {:induction false} LowerAllKeeps(ss: seq<Stmt>, v: Var)
    requires Keeps(ss, v) && v !in FLAGS
    ensures Keeps(LowerAllStmts(ss), v)
    decreases ss
  {
    if ss != [] {
      assert LowerAllStmts(ss)[1..] == LowerAllStmts(ss[1..]);
      LowerAllStmtKeeps(ss[0], v);
      LowerAllKeeps(ss[1..], v);
    }
  }

  lemma {:induction false} LowerAllBlkKeeps(b: Blk, v: Var)
    requires KeepsBlk(b, v) && v !in FLAGS
    ensures KeepsBlk(LowerAllBlk(b), v)
    decreases b
  {
    if v !in b.decls { LowerAllKeeps(b.stmts, v); }
  }

  lemma {:induction false} LowerAllArmsKeep(arms: seq<Arm>, v: Var)
    requires KeepsArms(arms, v) && v !in FLAGS
    ensures KeepsArms(LowerAllArms(arms), v)
    decreases arms
  {
    if arms != [] {
      assert LowerAllArms(arms)[1..] == LowerAllArms(arms[1..]);
      LowerAllBlkKeeps(arms[0].body, v);
      LowerAllArmsKeep(arms[1..], v);
    }
  }

  lemma {:induction false} LowerAllStmtKeeps(p: Stmt, v: Var)
    requires KeepsStmt(p, v) && v !in FLAGS
    ensures KeepsStmt(LowerAll(p), v)
    decreases p
  {
    match p
    case Block(b) => LowerAllBlkKeeps(b, v);
    case Case(_, arms) => LowerAllArmsKeep(arms, v);
    case Loop(decls, head, body) =>
      if v !in decls { LowerAllBlkKeeps(body, v); }
      LowerLoopKeeps(decls, head, LowerAllBlk(body), v);
    case _ =>
  }

  // ---------- programs whose controls end ----------

  // The control ends from every state within k steps.
  ghost predicate EndsAlone(h: Head, k: nat)
    requires h.For?
  {
    forall s: State :: AloneEnds(h, s, k)
  }

  // Every for loop with a break has a control that the body keeps and that ends alone.
  ghost predicate Bounded(ss: seq<Stmt>, k: nat)
    decreases ss
  {
    ss == [] || (BoundedStmt(ss[0], k) && Bounded(ss[1..], k))
  }

  ghost predicate BoundedBlk(b: Blk, k: nat)
    decreases b
  {
    Bounded(b.stmts, k)
  }

  ghost predicate BoundedArms(arms: seq<Arm>, k: nat)
    decreases arms
  {
    arms == [] || (BoundedBlk(arms[0].body, k) && BoundedArms(arms[1..], k))
  }

  ghost predicate BoundedStmt(p: Stmt, k: nat)
    decreases p
  {
    match p
    case Block(b) => BoundedBlk(b, k)
    case Case(_, arms) => BoundedArms(arms, k)
    case Loop(_, head, body) =>
      && BoundedBlk(body, k)
      && (LowerBlk(body).broke && head.For? ==> ControlKept(head, body) && EndsAlone(head, k))
    case _ => true
  }

  lemma {:induction false} BoundedArmAt(arms: seq<Arm>, k: nat, i: nat)
    requires BoundedArms(arms, k) && i < |arms|
    ensures BoundedBlk(arms[i].body, k)
  {
    if i > 0 { BoundedArmAt(arms[1..], k, i - 1); }
  }

  // ---------- the whole program ----------

  // The lowered code, with k more fuel, against a complete run of the original.
  ghost predicate Follows(after: set<Var>, all: set<Var>, r': Result, r: Result) {
    r'.out == r.out && Same(r'.state, r.state, if r.out.Normal? then after else all)
  }

  lemma {:induction false} StmtsFollow(ss: seq<Stmt>, xs: set<Var>, k: nat, u: State, t: State, fuel: nat)
    requires NoFlags(ss) && Lowerable(ss) && Unread(ss, xs) && Bounded(ss, k) && Same(u, t, xs)
    requires Complete(ExecStmts(ss, t, fuel))
    ensures Follows(After(ss, xs), xs + Leaks(ss), ExecStmts(LowerAllStmts(ss), u, fuel + k), ExecStmts(ss, t, fuel))
    decreases fuel, ss
  {
    if ss != [] {
      StmtFollows(ss[0], xs, k, u, t, fuel);
      ConsStmts(LowerAll(ss[0]), LowerAllStmts(ss[1..]), u, fuel + k);
      var ru, rt := Exec(LowerAll(ss[0]), u, fuel + k), Exec(ss[0], t, fuel);
      AfterStmtBound(ss[0], xs);
      if rt.out.Normal? { StmtsFollow(ss[1..], AfterStmt(ss[0], xs), k, ru.state, rt.state, fuel); }
    }
  }

  lemma {:induction false} BlkFollows(b: Blk, xs: set<Var>, k: nat, u: State, t: State, fuel: nat)
    requires NoFlagsBlk(b) && LowerableBlk(b) && UnreadBlk(b, xs) && BoundedBlk(b, k) && Same(u, t, xs)
    requires Complete(ExecBlk(b, t, fuel))
    ensures Follows(AfterBlk(b, xs), xs + LeaksBlk(b), ExecBlk(LowerAllBlk(b), u, fuel + k), ExecBlk(b, t, fuel))
    decreases fuel, b, 0, 0
  {
    EnterLeaveSame(xs, b.decls, u, t);
    StmtsFollow(b.stmts, xs - b.decls, k, Enter(u, b.decls), Enter(t, b.decls), fuel);
    LowerAllBlkSim(b, xs, false, u, t, fuel + k);
    BlkMore(b, t, fuel, fuel + k);
  }

  // Whenever a program ends, its lowered form ends with the same outcome in the same state,
  // but for the leaked variables.
  lemma {:induction false} StmtFollows(p: Stmt, xs: set<Var>, k: nat, u: State, t: State, fuel: nat)
    requires NoFlagsStmt(p) && LowerableStmt(p) && UnreadStmt(p, xs) && BoundedStmt(p, k) && Same(u, t, xs)
    requires Complete(Exec(p, t, fuel))
    ensures Follows(AfterStmt(p, xs), xs + LeaksStmt(p), Exec(LowerAll(p), u, fuel + k), Exec(p, t, fuel))
    decreases fuel, p
  {
    if Complete(Exec(LowerAll(p), u, fuel + k)) {
      LowerAllSim(p, xs, false, u, t, fuel + k);
      StmtMore(p, t, fuel, fuel + k);
    } else {
      match p
      case Block(b) => BlkFollows(b, xs, k, u, t, fuel);
      case Case(sel, arms) => CaseFollows(sel, arms, xs, k, u, t, fuel);
      case Loop(decls, head, body) => LoopCompletes(decls, head, body, xs, k, u, t, fuel);
      case _ =>
    }
  }

  predicate EndsWithin(p: Stmt, s: State, fuel: nat) {
    Complete(Exec(p, s, fuel))
  }

  ghost predicate Ends(p: Stmt, s: State) {
    exists f: nat :: EndsWithin(p, s, f)
  }

  // From every state, the lowered program ends exactly when the original does.
  lemma {:induction false} ProgramEndsIff(p: Stmt, k: nat, s: State)
    requires NoFlagsStmt(p) && LowerableStmt(p) && UnreadStmt(p, {}) && BoundedStmt(p, k)
    ensures Ends(LowerAll(p), s) <==> Ends(p, s)
  {
    if Ends(LowerAll(p), s) { LoweredEndsOnly(p, s); }
    if Ends(p, s) {
      var f: nat :| EndsWithin(p, s, f);
      StmtFollows(p, {}, k, s, s, f);
      assert EndsWithin(LowerAll(p), s, f + k);
    }
  }

  lemma {:induction false} LoweredEndsOnly(p: Stmt, s: State)
    requires NoFlagsStmt(p) && LowerableStmt(p) && UnreadStmt(p, {}) && Ends(LowerAll(p), s)
    ensures Ends(p, s)
  {
    var f: nat :| EndsWithin(LowerAll(p), s, f);
    LowerAllSim(p, {}, false, s, s, f);
    assert EndsWithin(p, s, f);
  }

  lemma {:induction false} CaseFollows(sel: Expr, arms: seq<Arm>, xs: set<Var>, k: nat, u: State, t: State, fuel: nat)
    requires NoFlagsArms(arms) && LowerableArms(arms) && BoundedArms(arms, k) && Same(u, t, xs)
    requires AvoidsExpr(sel, xs) && UnreadArms(arms, xs) && Complete(Exec(Case(sel, arms), t, fuel))
    ensures Complete(Exec(Case(sel, LowerAllArms(arms)), u, fuel + k))
    decreases fuel, arms
  {
    SameArm(sel, arms, xs, u, t);
    var i := Choose(arms, Eval(sel, t), t);
    if i < |arms| {
      ArmAt(arms, false, i);
      UnreadArmAt(arms, xs, i);
      BoundedArmAt(arms, k, i);
      BlkFollows(arms[i].body, xs, k, u, t, fuel);
    }
  }

  lemma {:induction false} LoopCompletes(decls: set<Var>, head: Head, body: Blk, xs: set<Var>, k: nat, u: State,
      t: State, fuel: nat)
    requires var p := Loop(decls, head, body);
             NoFlagsStmt(p) && LowerableStmt(p) && UnreadStmt(p, xs) && BoundedStmt(p, k) && Same(u, t, xs)
    requires Complete(Exec(Loop(decls, head, body), t, fuel))
    ensures Complete(Exec(LowerAll(Loop(decls, head, body)), u, fuel + k))
    decreases fuel, body, 4, 0
  {
    var b := LowerAllBlk(body);
    EnterLeaveSame(xs, decls, u, t);
    InnerCompletes(head, body, xs - decls, k, Enter(u, decls), Enter(t, decls), fuel);
    LoopOutcome(head, b, Enter(u, decls), fuel + k);
    LowerAllBlkJumps(body);
    LowerAllBlkAvoids(body, FLAGS);
    LowerAllBlkClear(body);
    if LowerBlk(body).broke && head.For? {
      KeptAfterLowering(head, body);
      AloneMonotone(head, StartOf(decls, head, u), k, fuel + k);
      LoweredLoopEndsIff(decls, head, b, u, fuel + k);
    } else {
      LowerLoopSim(decls, head, b, u, u, fuel + k);
    }
  }

  lemma {:induction false} KeptAfterLowering(h: Head, body: Blk)
    requires h.For? && AvoidsHead(h, FLAGS) && ControlKept(h, body)
    ensures ControlKept(h, LowerAllBlk(body))
  {
    ControlApart(h);
    forall w | w in Control(h) ensures KeepsBlk(LowerAllBlk(body), w) { LowerAllBlkKeeps(body, w); }
  }

  // A loop whose body is lowered already.
  lemma {:induction false} InnerCompletes(head: Head, body: Blk, xs: set<Var>, k: nat, u: State, t: State, fuel: nat)
    requires NoFlagsBlk(body) && LowerableBlk(body) && BoundedBlk(body, k) && Same(u, t, xs)
    requires UnreadHead(head, xs, Around(head, body, xs)) && UnreadBlk(body, Around(head, body, xs))
    requires Complete(ExecLoop(head, body, t, fuel))
    ensures Complete(ExecLoop(head, LowerAllBlk(body), u, fuel + k))
    decreases fuel, body, 2, 0
  {
    var ys := Around(head, body, xs);
    match head
    case While(cond) =>
      SameMore(u, t, xs, ys);
      WhileCompletes(cond, body, ys, k, u, t, fuel);
    case Repeat(count) =>
      EvalAvoids(count, xs, u, t);
      SameMore(u, t, xs, ys);
      RepeatCompletes(Eval(count, t), body, ys, k, u, t, fuel);
    case For(v, init, cond, step) =>
      EvalAvoids(init, xs, u, t);
      var u1, t1 := Store(u, v, Eval(init, u)), Store(t, v, Eval(init, t));
      SameMore(u1, t1, xs - {v}, ys);
      ForCompletes(v, cond, step, body, ys, k, u1, t1, fuel);
  }

  // One iteration, when everything that the body leaks may differ already.
  lemma {:induction false} IterationFollows(body: Blk, xs: set<Var>, k: nat, u: State, t: State, fuel: nat)
    requires NoFlagsBlk(body) && LowerableBlk(body) && BoundedBlk(body, k) && Same(u, t, xs)
    requires UnreadBlk(body, xs) && LeaksBlk(body) <= xs && Complete(ExecBlk(body, t, fuel))
    ensures var r', r := ExecBlk(LowerAllBlk(body), u, fuel + k), ExecBlk(body, t, fuel);
            r'.out == r.out && Same(r'.state, r.state, xs)
    decreases fuel, body, 1, 0
  {
    BlkFollows(body, xs, k, u, t, fuel);
    AfterBlkBound(body, xs);
    assert xs + LeaksBlk(body) == xs;
  }

  lemma {:induction false} WhileCompletes(cond: Expr, body: Blk, xs: set<Var>, k: nat, u: State, t: State, fuel: nat)
    requires NoFlagsBlk(body) && LowerableBlk(body) && BoundedBlk(body, k) && Same(u, t, xs)
    requires AvoidsExpr(cond, xs) && UnreadBlk(body, xs) && LeaksBlk(body) <= xs && Complete(ExecWhile(cond, body, t, fuel))
    ensures Complete(ExecWhile(cond, LowerAllBlk(body), u, fuel + k))
    decreases fuel, body, 1, 1
  {
    EvalAvoids(cond, xs, u, t);
    if Eval(cond, t) != 0 {
      IterationFollows(body, xs, k, u, t, fuel - 1);
      var ru, rt := ExecBlk(LowerAllBlk(body), u, fuel - 1 + k), ExecBlk(body, t, fuel - 1);
      if !rt.out.Broke? { WhileCompletes(cond, body, xs, k, ru.state, rt.state, fuel - 1); }
    }
  }

  lemma {:induction false} RepeatCompletes(n: int, body: Blk, xs: set<Var>, k: nat, u: State, t: State, fuel: nat)
    requires NoFlagsBlk(body) && LowerableBlk(body) && BoundedBlk(body, k) && Same(u, t, xs)
    requires UnreadBlk(body, xs) && LeaksBlk(body) <= xs && Complete(ExecRepeat(n, body, t, fuel))
    ensures Complete(ExecRepeat(n, LowerAllBlk(body), u, fuel + k))
    decreases fuel, body, 1, 1 + if n < 0 then 0 else n
  {
    if n > 0 {
      IterationFollows(body, xs, k, u, t, fuel);
      var ru, rt := ExecBlk(LowerAllBlk(body), u, fuel + k), ExecBlk(body, t, fuel);
      if !rt.out.Broke? { RepeatCompletes(n - 1, body, xs, k, ru.state, rt.state, fuel); }
    }
  }

  lemma {:induction false} ForCompletes(v: Var, cond: Expr, step: Expr, body: Blk, xs: set<Var>, k: nat, u: State,
      t: State, fuel: nat)
    requires NoFlagsBlk(body) && LowerableBlk(body) && BoundedBlk(body, k) && Same(u, t, xs)
    requires AvoidsExpr(cond, xs) && AvoidsExpr(step, xs) && UnreadBlk(body, xs) && LeaksBlk(body) <= xs
    requires Complete(ExecFor(v, cond, step, body, t, fuel))
    ensures Complete(ExecFor(v, cond, step, LowerAllBlk(body), u, fuel + k))
    decreases fuel, body, 1, 1
  {
    EvalAvoids(cond, xs, u, t);
    if Eval(cond, t) != 0 {
      IterationFollows(body, xs, k, u, t, fuel - 1);
      var ru, rt := ExecBlk(LowerAllBlk(body), u, fuel - 1 + k), ExecBlk(body, t, fuel - 1);
      if !rt.out.Broke? {
        EvalAvoids(step, xs, ru.state, rt.state);
        var n := Eval(step, rt.state);
        StoreSame(xs, ru.state, rt.state, v, n);
        ForCompletes(v, cond, step, body, xs, k, Store(ru.state, v, n), Store(rt.state, v, n), fuel - 1);
      }
    }
  }

  // ---------- counting loops ----------

  // A counting loop that cannot step over the end of its variable ends from every state.
  lemma {:induction false} CountingEndsAlone(v: Var, a: int, b: int, c: int, k: nat)
    requires 0 < c && b + c <= Limit(v) && k > 0 && k > b - Lowest(v)
    ensures EndsAlone(Counting(v, a, b, c), k)
  {
    forall s: State ensures AloneEnds(Counting(v, a, b, c), s, k) {
      CountingTurns(v, a, b, c, s);
      AloneTurn(Counting(v, a, b, c), s, k);
      if Get(s, v) < b { CountsUp(v, a, b, c, StepOnce(Counting(v, a, b, c), s), k - 1); }
    }
  }

  lemma {:induction false} CountingTurns(v: Var, a: int, b: int, c: int, s: State)
    ensures var h := Counting(v, a, b, c);
            && (Eval(h.cond, s) != 0 <==> Get(s, v) < b)
            && Get(StepOnce(h, s), v) == Fit(v, Get(s, v) + c)
            && Lowest(v) <= Get(StepOnce(h, s), v)
  {
    var h := Counting(v, a, b, c);
    assert Eval(Ref(v), s) == Get(s, v) && Eval(Const(b), s) == b && Eval(Const(c), s) == c;
    FitInRange(v, Get(s, v) + c);
  }

  lemma {:induction false} CountsUp(v: Var, a: int, b: int, c: int, s: State, k: nat)
    requires 0 < c && b + c <= Limit(v) && Lowest(v) <= Get(s, v) && k >= b - Get(s, v)
    ensures AloneEnds(Counting(v, a, b, c), s, k)
    decreases k
  {
    var h := Counting(v, a, b, c);
    CountingTurns(v, a, b, c, s);
    AloneTurn(h, s, k);
    if Get(s, v) < b {
      FitInRange(v, Get(s, v) + c);
      CountsUp(v, a, b, c, StepOnce(h, s), k - 1);
    }
  }
}
