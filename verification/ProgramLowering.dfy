// Lowering every loop of a program, innermost first, keeps the meaning of the program
// and leaves no break or continue behind.
module ProgramLowering {
  import opened Arithmetic
  import opened Procedural
  import opened JumpLowering
  import opened JumpLoweringMeaning
  import opened LeakedVariables

  // ---------- the programs considered ----------

  // The flags neither occur nor are declared: their names are not SystemVerilog identifiers.
  predicate NoFlags(ss: seq<Stmt>)
    decreases ss
  {
    ss == [] || (NoFlagsStmt(ss[0]) && NoFlags(ss[1..]))
  }

  predicate NoFlagsBlk(b: Blk)
    decreases b
  {
    b.decls !! FLAGS && NoFlags(b.stmts)
  }

  predicate NoFlagsArms(arms: seq<Arm>)
    decreases arms
  {
    arms == [] || (AvoidsLabels(arms[0].labels, FLAGS) && NoFlagsBlk(arms[0].body) && NoFlagsArms(arms[1..]))
  }

  predicate NoFlagsStmt(p: Stmt)
    decreases p
  {
    match p
    case Assign(v, e) => v !in FLAGS && AvoidsExpr(e, FLAGS)
    case Block(b) => NoFlagsBlk(b)
    case Case(sel, arms) => AvoidsExpr(sel, FLAGS) && NoFlagsArms(arms)
    case Loop(decls, head, body) => decls !! FLAGS && AvoidsHead(head, FLAGS) && NoFlagsBlk(body)
    case Break => true
    case Continue => true
  }

  // Every loop body is supported.
  predicate Lowerable(ss: seq<Stmt>)
    decreases ss
  {
    ss == [] || (LowerableStmt(ss[0]) && Lowerable(ss[1..]))
  }

  predicate LowerableArms(arms: seq<Arm>)
    decreases arms
  {
    arms == [] || (LowerableBlk(arms[0].body) && LowerableArms(arms[1..]))
  }

  predicate LowerableBlk(b: Blk)
    decreases b
  {
    Lowerable(b.stmts)
  }

  predicate LowerableStmt(p: Stmt)
    decreases p
  {
    match p
    case Block(b) => LowerableBlk(b)
    case Case(_, arms) => LowerableArms(arms)
    case Loop(_, _, body) => Supported(body.stmts) && LowerableBlk(body)
    case _ => true
  }

  // No for loop has a break.
  predicate Prompt(ss: seq<Stmt>)
    decreases ss
  {
    ss == [] || (PromptStmt(ss[0]) && Prompt(ss[1..]))
  }

  predicate PromptArms(arms: seq<Arm>)
    decreases arms
  {
    arms == [] || (PromptBlk(arms[0].body) && PromptArms(arms[1..]))
  }

  predicate PromptBlk(b: Blk)
    decreases b
  {
    Prompt(b.stmts)
  }

  predicate PromptStmt(p: Stmt)
    decreases p
  {
    match p
    case Block(b) => PromptBlk(b)
    case Case(_, arms) => PromptArms(arms)
    case Loop(_, head, body) => PromptBlk(body) && !(LowerBlk(body).broke && head.For?)
    case _ => true
  }

  // ---------- lowering inner loops does not disturb the outer ones ----------

  lemma {:induction false} LowerAllJumps(ss: seq<Stmt>)
    ensures HasJump(LowerAllStmts(ss)) == HasJump(ss)
    ensures Supported(LowerAllStmts(ss)) == Supported(ss)
    ensures LowerStmts(LowerAllStmts(ss)).jumped == LowerStmts(ss).jumped
    ensures LowerStmts(LowerAllStmts(ss)).broke == LowerStmts(ss).broke
    decreases ss
  {
    if ss != [] {
      assert LowerAllStmts(ss)[1..] == LowerAllStmts(ss[1..]);
      LowerAllStmtJumps(ss[0]);
      LowerAllJumps(ss[1..]);
    }
  }

  lemma {:induction false} LowerAllStmtJumps(p: Stmt)
    ensures JumpsIn(LowerAll(p)) == JumpsIn(p)
    ensures SupportedStmt(LowerAll(p)) == SupportedStmt(p)
    ensures LowerStmt(LowerAll(p)).jumped == LowerStmt(p).jumped
    ensures LowerStmt(LowerAll(p)).broke == LowerStmt(p).broke
    decreases p
  {
    match p
    case Block(b) => LowerAllBlkJumps(b);
    case Case(_, arms) => LowerAllArmsJumps(arms);
    case Loop(decls, head, body) =>
      var low := LowerLoop(decls, head, LowerAllBlk(body));
      NoJumpInLowered(decls, head, LowerAllBlk(body));
      NoJumpUnchanged(low.stmts);
    case _ =>
  }

  lemma {:induction false} NoJumpInLowered(decls: set<Var>, head: Head, body: Blk)
    ensures !HasJump(LowerLoop(decls, head, body).stmts)
  {
    var ss := LowerLoop(decls, head, body).stmts;
    var last := [ss[|ss| - 1]];
    assert last[1..] == [] && !HasJump(last);
    if |ss| == 2 { assert ss[1..] == last; }
    else { assert ss == last; }
  }

  lemma {:induction false} LowerAllBlkJumps(b: Blk)
    ensures HasJump(LowerAllBlk(b).stmts) == HasJump(b.stmts)
    ensures Supported(LowerAllBlk(b).stmts) == Supported(b.stmts)
    ensures LowerBlk(LowerAllBlk(b)).jumped == LowerBlk(b).jumped
    ensures LowerBlk(LowerAllBlk(b)).broke == LowerBlk(b).broke
    decreases b
  {
    LowerAllJumps(b.stmts);
  }

  lemma {:induction false} LowerAllArmsJumps(arms: seq<Arm>)
    ensures JumpsInArms(LowerAllArms(arms)) == JumpsInArms(arms)
    ensures SupportedArms(LowerAllArms(arms)) == SupportedArms(arms)
    ensures LowerArms(LowerAllArms(arms)).jumped == LowerArms(arms).jumped
    ensures LowerArms(LowerAllArms(arms)).broke == LowerArms(arms).broke
    decreases arms
  {
    if arms != [] {
      assert LowerAllArms(arms)[1..] == LowerAllArms(arms[1..]);
      LowerAllBlkJumps(arms[0].body);
      LowerAllArmsJumps(arms[1..]);
    }
  }

  lemma {:induction false} LowerAllClear(ss: seq<Stmt>)
    requires NoFlags(ss)
    ensures Clear(LowerAllStmts(ss))
    decreases ss
  {
    if ss != [] {
      assert LowerAllStmts(ss)[1..] == LowerAllStmts(ss[1..]);
      LowerAllStmtClear(ss[0]);
      LowerAllClear(ss[1..]);
    }
  }

  lemma {:induction false} LowerAllBlkClear(b: Blk)
    requires NoFlagsBlk(b)
    ensures ClearBlk(LowerAllBlk(b))
    decreases b
  {
    LowerAllClear(b.stmts);
  }

  lemma {:induction false} LowerAllArmsClear(arms: seq<Arm>)
    requires NoFlagsArms(arms)
    ensures ClearArms(LowerAllArms(arms))
    decreases arms
  {
    if arms != [] {
      assert LowerAllArms(arms)[1..] == LowerAllArms(arms[1..]);
      LowerAllBlkClear(arms[0].body);
      LowerAllArmsClear(arms[1..]);
    }
  }

  lemma {:induction false} LowerAllStmtClear(p: Stmt)
    requires NoFlagsStmt(p)
    ensures ClearStmt(LowerAll(p))
    decreases p
  {
    match p
    case Block(b) => LowerAllBlkClear(b);
    case Case(_, arms) => LowerAllArmsClear(arms);
    case Loop(decls, head, body) => NoJumpInLowered(decls, head, LowerAllBlk(body));
    case _ =>
  }

  // ---------- the flags of a lowered loop stay inside its declaration block ----------

  lemma {:induction false} AvoidsExprFewer(e: Expr, xs: set<Var>)
    requires AvoidsExpr(e, FLAGS) && xs <= FLAGS
    ensures AvoidsExpr(e, xs)
  {
    match e
    case LogicNot(e1) => AvoidsExprFewer(e1, xs);
    case Binary(_, l, r) => AvoidsExprFewer(l, xs); AvoidsExprFewer(r, xs);
    case _ =>
  }

  lemma {:induction false} AvoidsHeadFewer(h: Head, xs: set<Var>)
    requires AvoidsHead(h, FLAGS) && xs <= FLAGS
    ensures AvoidsHead(h, xs)
  {
    forall e | AvoidsExpr(e, FLAGS) { AvoidsExprFewer(e, xs); }
  }

  // Without a break, the transformation brings in no use of $break.
  lemma {:induction false} LowerKeepsBreakOut(ss: seq<Stmt>, xs: set<Var>)
    requires AvoidsStmts(ss, xs) && xs <= {BREAK} && !LowerStmts(ss).broke
    ensures AvoidsStmts(LowerStmts(ss).code, xs)
    decreases ss
  {
    if ss != [] {
      var c := LowerStmts(ss).code;
      if ss[0].Continue? {
        assert c == [SetFlag(CONTINUE, 1)];
      } else if !ss[0].Break? {
        var head, rest := LowerStmt(ss[0]), LowerStmts(ss[1..]);
        if !head.jumped { NoJumpStmtUnchanged(ss[0]); }
        LowerStmtKeepsBreakOut(ss[0], xs);
        LowerKeepsBreakOut(ss[1..], xs);
        if head.jumped {
          var g := Guard(CONTINUE, Blk({}, rest.code));
          assert xs - {} == xs;
          assert g.arms[1..] == [];
          assert AvoidsArms(g.arms, xs);
          assert c[1..] == [g] && [g][1..] == [];
        } else {
          assert c[1..] == rest.code;
        }
      }
    }
  }

  lemma {:induction false} LowerStmtKeepsBreakOut(p: Stmt, xs: set<Var>)
    requires AvoidsStmt(p, xs) && xs <= {BREAK} && !LowerStmt(p).broke
    ensures AvoidsStmt(LowerStmt(p).code, xs)
    decreases p
  {
    match p
    case Block(b) => LowerBlkKeepsBreakOut(b, xs);
    case Case(_, arms) => LowerArmsKeepsBreakOut(arms, xs);
    case _ =>
  }

  lemma {:induction false} LowerBlkKeepsBreakOut(b: Blk, xs: set<Var>)
    requires AvoidsBlk(b, xs) && xs <= {BREAK} && !LowerBlk(b).broke
    ensures AvoidsBlk(LowerBlk(b).code, xs)
    decreases b
  {
    LowerKeepsBreakOut(b.stmts, xs - b.decls);
  }

  lemma {:induction false} LowerArmsKeepsBreakOut(arms: seq<Arm>, xs: set<Var>)
    requires AvoidsArms(arms, xs) && xs <= {BREAK} && !LowerArms(arms).broke
    ensures AvoidsArms(LowerArms(arms).code, xs)
    decreases arms
  {
    if arms != [] {
      var a, l := arms[0], LowerArms(arms);
      if a.kind.Exact? && LowerBlk(a.body).jumped {
        LowerBlkKeepsBreakOut(a.body, xs);
        assert l.code[1..] == arms[1..];
      } else {
        LowerArmsKeepsBreakOut(arms[1..], xs);
        assert l.code[1..] == LowerArms(arms[1..]).code;
      }
    }
  }

  lemma {:induction false} LowerAllAvoids(ss: seq<Stmt>, xs: set<Var>)
    requires NoFlags(ss) && xs <= FLAGS
    ensures AvoidsStmts(LowerAllStmts(ss), xs)
    decreases ss
  {
    if ss != [] {
      assert LowerAllStmts(ss)[1..] == LowerAllStmts(ss[1..]);
      LowerAllStmtAvoids(ss[0], xs);
      LowerAllAvoids(ss[1..], xs);
    }
  }

  lemma {:induction false} LowerAllBlkAvoids(b: Blk, xs: set<Var>)
    requires NoFlagsBlk(b) && xs <= FLAGS
    ensures AvoidsBlk(LowerAllBlk(b), xs)
    decreases b
  {
    assert xs - b.decls == xs;
    LowerAllAvoids(b.stmts, xs);
  }

  lemma {:induction false} LowerAllArmsAvoids(arms: seq<Arm>, xs: set<Var>)
    requires NoFlagsArms(arms) && xs <= FLAGS
    ensures AvoidsArms(LowerAllArms(arms), xs)
    decreases arms
  {
    if arms != [] {
      assert LowerAllArms(arms)[1..] == LowerAllArms(arms[1..]);
      forall e | AvoidsExpr(e, FLAGS) { AvoidsExprFewer(e, xs); }
      LowerAllBlkAvoids(arms[0].body, xs);
      LowerAllArmsAvoids(arms[1..], xs);
    }
  }

  lemma {:induction false} LowerAllStmtAvoids(p: Stmt, xs: set<Var>)
    requires NoFlagsStmt(p) && xs <= FLAGS
    ensures AvoidsStmt(LowerAll(p), xs)
    decreases p
  {
    match p
    case Assign(_, e) => AvoidsExprFewer(e, xs);
    case Block(b) => LowerAllBlkAvoids(b, xs);
    case Case(sel, arms) =>
      AvoidsExprFewer(sel, xs);
      LowerAllArmsAvoids(arms, xs);
    case Loop(decls, head, body) =>
      var b := LowerAllBlk(body);
      var low := LowerLoop(decls, head, b);
      LowerAllBlkAvoids(body, xs - low.decls);
      AvoidsHeadFewer(head, xs - low.decls);
      LowerLoopAvoids(decls, head, b, xs);
    case _ =>
  }

  lemma {:induction false} LowerLoopAvoids(decls: set<Var>, head: Head, body: Blk, xs: set<Var>)
    requires xs <= FLAGS
    requires var ys := xs - LowerLoop(decls, head, body).decls; AvoidsHead(head, ys) && AvoidsBlk(body, ys)
    ensures AvoidsBlk(LowerLoop(decls, head, body), xs)
  {
    var low := LowerLoop(decls, head, body);
    var ys := xs - low.decls;
    assert ys - {} == ys;
    if !LowerBlk(body).jumped {
      assert low.stmts[1..] == [];
    } else if LowerBlk(body).broke {
      assert ys == {};
      AvoidsNothing(low.stmts);
    } else {
      var lb := LoopBody(body);
      LowerBlkKeepsBreakOut(body, ys);
      assert lb.stmts[1..] == LowerStmts(body.stmts).code;
      assert AvoidsBlk(lb, ys);
      assert low.stmts == [Loop({}, head, lb)] && low.stmts[1..] == [];
      assert AvoidsStmt(low.stmts[0], ys);
    }
  }

  // ---------- the whole program ----------

  // Sim for code that may end with a jump in its middle: the variables of all may differ
  // then, those of after if the code runs to its end.
  ghost predicate SimAfter(exact: bool, after: set<Var>, all: set<Var>, r': Result, r: Result) {
    Sim(exact, if r.out.Normal? then after else all, r', r)
  }

  lemma {:induction false} LowerAllStmtsSim(ss: seq<Stmt>, xs: set<Var>, exact: bool, u: State, t: State, fuel: nat)
    requires NoFlags(ss) && Lowerable(ss) && (exact ==> Prompt(ss)) && Unread(ss, xs) && Same(u, t, xs)
    ensures SimAfter(exact, After(ss, xs), xs + Leaks(ss), ExecStmts(LowerAllStmts(ss), u, fuel), ExecStmts(ss, t, fuel))
    decreases fuel, ss
  {
    if ss != [] {
      LowerAllSim(ss[0], xs, exact, u, t, fuel);
      ConsStmts(LowerAll(ss[0]), LowerAllStmts(ss[1..]), u, fuel);
      var ru, rt := Exec(LowerAll(ss[0]), u, fuel), Exec(ss[0], t, fuel);
      if ru.out.Normal? {
        AfterStmtBound(ss[0], xs);
        LowerAllStmtsSim(ss[1..], AfterStmt(ss[0], xs), exact, ru.state, rt.state, fuel);
      }
    }
  }

  lemma {:induction false} LowerAllBlkSim(b: Blk, xs: set<Var>, exact: bool, u: State, t: State, fuel: nat)
    requires NoFlagsBlk(b) && LowerableBlk(b) && (exact ==> PromptBlk(b)) && UnreadBlk(b, xs) && Same(u, t, xs)
    ensures SimAfter(exact, AfterBlk(b, xs), xs + LeaksBlk(b), ExecBlk(LowerAllBlk(b), u, fuel), ExecBlk(b, t, fuel))
    decreases fuel, b, 0, 0
  {
    var u1, t1 := Enter(u, b.decls), Enter(t, b.decls);
    EnterLeaveSame(xs, b.decls, u, t);
    LowerAllStmtsSim(b.stmts, xs - b.decls, exact, u1, t1, fuel);
    var ru, rt := ExecStmts(LowerAllStmts(b.stmts), u1, fuel), ExecStmts(b.stmts, t1, fuel);
    if !ru.out.OutOfFuel? {
      LeaveOutside(b.decls, xs, if rt.out.Normal? then After(b.stmts, xs - b.decls) else xs - b.decls + Leaks(b.stmts), u, t, ru.state, rt.state);
    }
  }

  // Lowering all loops keeps the meaning of a program: whenever the lowered program
  // completes, the original completes with the same outcome in the same state, but for the
  // leaked variables, and if no for loop has a break, each completes exactly when the
  // other does.
  lemma {:induction false} LowerAllSim(p: Stmt, xs: set<Var>, exact: bool, u: State, t: State, fuel: nat)
    requires NoFlagsStmt(p) && LowerableStmt(p) && (exact ==> PromptStmt(p)) && UnreadStmt(p, xs) && Same(u, t, xs)
    ensures SimAfter(exact, AfterStmt(p, xs), xs + LeaksStmt(p), Exec(LowerAll(p), u, fuel), Exec(p, t, fuel))
    decreases fuel, p
  {
    match p
    case Assign(v, e) => EvalAvoids(e, xs, u, t);
    case Block(b) => LowerAllBlkSim(b, xs, exact, u, t, fuel);
    case Case(sel, arms) => LowerAllCaseSim(sel, arms, xs, exact, u, t, fuel);
    case Loop(decls, head, body) => LowerWholeLoopSim(decls, head, body, xs, exact, u, t, fuel);
    case Break =>
    case Continue =>
  }

  lemma {:induction false} LowerAllCaseSim(sel: Expr, arms: seq<Arm>, xs: set<Var>, exact: bool, u: State, t: State,
      fuel: nat)
    requires NoFlagsArms(arms) && LowerableArms(arms) && (exact ==> PromptArms(arms)) && Same(u, t, xs)
    requires AvoidsExpr(sel, xs) && UnreadArms(arms, xs)
    ensures SimAfter(exact, AfterArms(arms, xs), xs + LeaksArms(arms), Exec(Case(sel, LowerAllArms(arms)), u, fuel), Exec(Case(sel, arms), t, fuel))
    decreases fuel, arms
  {
    SameArm(sel, arms, xs, u, t);
    BeforeInAfterArms(arms, xs);
    var i := Choose(arms, Eval(sel, t), t);
    if i < |arms| {
      ArmAt(arms, exact, i);
      UnreadArmAt(arms, xs, i);
      LowerAllBlkSim(arms[i].body, xs, exact, u, t, fuel);
    }
  }

  lemma {:induction false} SameArm(sel: Expr, arms: seq<Arm>, xs: set<Var>, u: State, t: State)
    requires AvoidsExpr(sel, xs) && UnreadArms(arms, xs) && Same(u, t, xs)
    ensures |LowerAllArms(arms)| == |arms|
    ensures Choose(LowerAllArms(arms), Eval(sel, u), u) == Choose(arms, Eval(sel, t), t)
  {
    EvalAvoids(sel, xs, u, t);
    FirstMatchUnread(arms, xs, Eval(sel, t), u, t);
    LowerAllChoice(arms, Eval(sel, t), u);
  }

  lemma {:induction false} LowerWholeLoopSim(decls: set<Var>, head: Head, body: Blk, xs: set<Var>, exact: bool,
      u: State, t: State, fuel: nat)
    requires var p := Loop(decls, head, body);
             NoFlagsStmt(p) && LowerableStmt(p) && (exact ==> PromptStmt(p)) && UnreadStmt(p, xs) && Same(u, t, xs)
    ensures var p := Loop(decls, head, body);
            SimAfter(exact, AfterStmt(p, xs), xs + LeaksStmt(p), Exec(LowerAll(p), u, fuel), Exec(p, t, fuel))
    decreases fuel, body, 4, 0
  {
    var b := LowerAllBlk(body);
    LowerInnerSim(decls, head, body, xs, exact, u, t, fuel);
    LowerAllBlkJumps(body);
    LowerAllBlkAvoids(body, FLAGS);
    LowerAllBlkClear(body);
    LowerLoopSim(decls, head, b, u, u, fuel);
    var inner, leaked := Outside(decls, xs, Around(head, body, xs - decls)), Leaked(decls, head, LowerBlk(body).broke);
    assert leaked == {} || !exact;
    SimThrough(exact, leaked, inner, ExecBlk(LowerLoop(decls, head, b), u, fuel), Exec(Loop(decls, head, b), u, fuel),
      Exec(Loop(decls, head, body), t, fuel));
  }

  lemma {:induction false} SimThrough(exact: bool, xs: set<Var>, ys: set<Var>, low: Result, mid: Result, r: Result)
    requires Sim(exact, xs, low, mid) && Sim(exact, ys, mid, r)
    ensures Sim(exact, ys + xs, low, r)
  {
  }

  // A loop whose body is lowered already, against the original loop.
  lemma {:induction false} LowerInnerSim(decls: set<Var>, head: Head, body: Blk, xs: set<Var>, exact: bool, u: State,
      t: State, fuel: nat)
    requires NoFlagsBlk(body) && LowerableBlk(body) && (exact ==> PromptBlk(body)) && Same(u, t, xs)
    requires UnreadStmt(Loop(decls, head, body), xs)
    ensures Sim(exact, Outside(decls, xs, Around(head, body, xs - decls)),
              Exec(Loop(decls, head, LowerAllBlk(body)), u, fuel), Exec(Loop(decls, head, body), t, fuel))
    ensures Exec(Loop(decls, head, body), t, fuel).out in {Normal, OutOfFuel}
    decreases fuel, body, 3, 0
  {
    var b := LowerAllBlk(body);
    var u1, t1 := Enter(u, decls), Enter(t, decls);
    EnterLeaveSame(xs, decls, u, t);
    LoopOutcome(head, body, t1, fuel);
    LowerAllLoopSim(head, body, xs - decls, exact, u1, t1, fuel);
    var ru, rt := ExecLoop(head, b, u1, fuel), ExecLoop(head, body, t1, fuel);
    if !ru.out.OutOfFuel? { LeaveOutside(decls, xs, Around(head, body, xs - decls), u, t, ru.state, rt.state); }
  }

  lemma {:induction false} LowerAllChoice(arms: seq<Arm>, x: int, s: State)
    ensures |LowerAllArms(arms)| == |arms|
    ensures FirstMatch(LowerAllArms(arms), x, s) == FirstMatch(arms, x, s)
    ensures FirstDefault(LowerAllArms(arms)) == FirstDefault(arms)
    decreases arms
  {
    if arms != [] {
      LowerAllChoice(arms[1..], x, s);
      var l := LowerAllArms(arms);
      assert l[1..] == LowerAllArms(arms[1..]);
      assert ArmMatches(l[0], x, s) == ArmMatches(arms[0], x, s);
    }
  }

  lemma {:induction false} ArmAt(arms: seq<Arm>, exact: bool, i: nat)
    requires i < |arms| && NoFlagsArms(arms) && LowerableArms(arms) && (exact ==> PromptArms(arms))
    ensures NoFlagsBlk(arms[i].body) && LowerableBlk(arms[i].body) && (exact ==> PromptBlk(arms[i].body))
    ensures |LowerAllArms(arms)| == |arms| && LowerAllArms(arms)[i].body == LowerAllBlk(arms[i].body)
    decreases arms
  {
    LowerAllChoice(arms, 0, map[]);
    if i > 0 {
      ArmAt(arms[1..], exact, i - 1);
      assert LowerAllArms(arms)[i] == LowerAllArms(arms[1..])[i - 1];
    }
  }

  lemma {:induction false} LowerAllLoopSim(head: Head, body: Blk, xs: set<Var>, exact: bool, u: State, t: State,
      fuel: nat)
    requires NoFlagsBlk(body) && LowerableBlk(body) && (exact ==> PromptBlk(body)) && Same(u, t, xs)
    requires UnreadHead(head, xs, Around(head, body, xs)) && UnreadBlk(body, Around(head, body, xs))
    ensures Sim(exact, Around(head, body, xs), ExecLoop(head, LowerAllBlk(body), u, fuel), ExecLoop(head, body, t, fuel))
    decreases fuel, body, 2, 0
  {
    var ys := Around(head, body, xs);
    match head
    case While(cond) =>
      SameMore(u, t, xs, ys);
      LowerAllWhileSim(cond, body, ys, exact, u, t, fuel);
    case Repeat(count) =>
      EvalAvoids(count, xs, u, t);
      SameMore(u, t, xs, ys);
      LowerAllRepeatSim(Eval(count, t), body, ys, exact, u, t, fuel);
    case For(v, init, cond, step) =>
      EvalAvoids(init, xs, u, t);
      var u1, t1 := Store(u, v, Eval(init, u)), Store(t, v, Eval(init, t));
      SameMore(u1, t1, xs - {v}, ys);
      LowerAllForSim(v, cond, step, body, ys, exact, u1, t1, fuel);
  }

  // One iteration, when everything that the body leaks may differ already.
  lemma {:induction false} LowerAllIterationSim(body: Blk, xs: set<Var>, exact: bool, u: State, t: State, fuel: nat)
    requires NoFlagsBlk(body) && LowerableBlk(body) && (exact ==> PromptBlk(body)) && Same(u, t, xs)
    requires UnreadBlk(body, xs) && LeaksBlk(body) <= xs
    ensures Sim(exact, xs, ExecBlk(LowerAllBlk(body), u, fuel), ExecBlk(body, t, fuel))
    decreases fuel, body, 1, 0
  {
    LowerAllBlkSim(body, xs, exact, u, t, fuel);
    AfterBlkBound(body, xs);
    assert xs + LeaksBlk(body) == xs;
  }

  lemma {:induction false} LowerAllWhileSim(cond: Expr, body: Blk, xs: set<Var>, exact: bool, u: State, t: State,
      fuel: nat)
    requires NoFlagsBlk(body) && LowerableBlk(body) && (exact ==> PromptBlk(body)) && Same(u, t, xs)
    requires AvoidsExpr(cond, xs) && UnreadBlk(body, xs) && LeaksBlk(body) <= xs
    ensures Sim(exact, xs, ExecWhile(cond, LowerAllBlk(body), u, fuel), ExecWhile(cond, body, t, fuel))
    decreases fuel, body, 1, 1
  {
    EvalAvoids(cond, xs, u, t);
    if Eval(cond, t) != 0 && fuel > 0 {
      LowerAllIterationSim(body, xs, exact, u, t, fuel - 1);
      var ru, rt := ExecBlk(LowerAllBlk(body), u, fuel - 1), ExecBlk(body, t, fuel - 1);
      WhileOutcome(cond, body, t, fuel);
      if !ru.out.Broke? && !ru.out.OutOfFuel? {
        LowerAllWhileSim(cond, body, xs, exact, ru.state, rt.state, fuel - 1);
      }
    }
  }

  lemma {:induction false} LowerAllRepeatSim(n: int, body: Blk, xs: set<Var>, exact: bool, u: State, t: State,
      fuel: nat)
    requires NoFlagsBlk(body) && LowerableBlk(body) && (exact ==> PromptBlk(body)) && Same(u, t, xs)
    requires UnreadBlk(body, xs) && LeaksBlk(body) <= xs
    ensures Sim(exact, xs, ExecRepeat(n, LowerAllBlk(body), u, fuel), ExecRepeat(n, body, t, fuel))
    decreases fuel, body, 1, 1 + if n < 0 then 0 else n
  {
    if n > 0 {
      LowerAllIterationSim(body, xs, exact, u, t, fuel);
      var ru, rt := ExecBlk(LowerAllBlk(body), u, fuel), ExecBlk(body, t, fuel);
      if !ru.out.Broke? && !ru.out.OutOfFuel? {
        LowerAllRepeatSim(n - 1, body, xs, exact, ru.state, rt.state, fuel);
      }
    }
  }

  lemma {:induction false} LowerAllForSim(v: Var, cond: Expr, step: Expr, body: Blk, xs: set<Var>, exact: bool,
      u: State, t: State, fuel: nat)
    requires NoFlagsBlk(body) && LowerableBlk(body) && (exact ==> PromptBlk(body)) && Same(u, t, xs)
    requires AvoidsExpr(cond, xs) && AvoidsExpr(step, xs) && UnreadBlk(body, xs) && LeaksBlk(body) <= xs
    ensures Sim(exact, xs, ExecFor(v, cond, step, LowerAllBlk(body), u, fuel), ExecFor(v, cond, step, body, t, fuel))
    decreases fuel, body, 1, 1
  {
    EvalAvoids(cond, xs, u, t);
    if Eval(cond, t) != 0 && fuel > 0 {
      LowerAllIterationSim(body, xs, exact, u, t, fuel - 1);
      var ru, rt := ExecBlk(LowerAllBlk(body), u, fuel - 1), ExecBlk(body, t, fuel - 1);
      if !ru.out.Broke? && !ru.out.OutOfFuel? {
        EvalAvoids(step, xs, ru.state, rt.state);
        var n := Eval(step, rt.state);
        StoreSame(xs, ru.state, rt.state, v, n);
        LowerAllForSim(v, cond, step, body, xs, exact, Store(ru.state, v, n), Store(rt.state, v, n), fuel - 1);
      }
    }
  }

  // A break in a for loop whose variable outlives the loop: the original leaves the
  // variable at 0, the lowered loop steps it to 4.
  function CountingHead(i: Var): Head {
    For(i, Const(0), Binary(Less, Ref(i), Const(4)), Binary(Add, Ref(i), Const(1)))
  }

  lemma {:induction false} CountingHeadValues(i: Var, s: State)
    requires i == Var("i", 4, false) && 0 <= Get(s, i) <= 4
    ensures Eval(CountingHead(i).cond, s) == Truth(Get(s, i) < 4)
    ensures Store(s, i, Eval(CountingHead(i).step, s)) == s[i := Get(s, i) + 1]
  {
    assert Eval(Ref(i), s) == Get(s, i);
    assert Pow2(2) == 4 && Pow2(4) == 16;
  }

  lemma {:induction false} StartAtZero(i: Var, body: Blk, s: State)
    requires i == Var("i", 4, false)
    ensures ExecLoop(CountingHead(i), body, s, 9) ==
            ExecFor(i, CountingHead(i).cond, CountingHead(i).step, body, s[i := 0], 9)
  {
    assert Fit(i, 0) == 0;
  }

  lemma {:induction false} OriginalStops(i: Var)
    requires i == Var("i", 4, false)
    ensures var r := Exec(Loop({}, CountingHead(i), Blk({}, [Break])), map[], 9);
            r.out.Normal? && Get(r.state, i) == 0
  {
    var body := Blk({}, [Break]);
    LoopAlone(CountingHead(i), body, map[], 9);
    StartAtZero(i, body, map[]);
    BreakAtOnce(i, map[i := 0], body);
  }

  lemma {:induction false} LoweredStepsOn(i: Var)
    requires i == Var("i", 4, false)
    ensures var r := ExecBlk(LowerLoop({}, CountingHead(i), Blk({}, [Break])), map[], 9);
            r.out.Normal? && Get(r.state, i) == 4
  {
    var head, body := CountingHead(i), Blk({}, [Break]);
    var u := Enter(map[], FLAGS)[BREAK := 0];
    assert LowerBlk(body).jumped && LowerBlk(body).broke;
    LowerLoopRuns({}, head, body, map[], 9);
    StartAtZero(i, LoweredBody(head, body), u);
    BreakAtOnce(i, u[i := 0], body);
  }

  lemma {:induction false} BreakMovesOuterVariable(i: Var)
    requires i == Var("i", 4, false)
    ensures var p := Loop({}, CountingHead(i), Blk({}, [Break]));
            var r, r' := Exec(p, map[], 9), Exec(LowerAll(p), map[], 9);
            r.out.Normal? && Get(r.state, i) == 0 && r'.out.Normal? && Get(r'.state, i) == 4
  {
    OriginalStops(i);
    LoweredStepsOn(i);
    var body := Blk({}, [Break]);
    assert LowerAllBlk(body) == body;
    assert LowerAll(Loop({}, CountingHead(i), body)) == Block(LowerLoop({}, CountingHead(i), body));
  }

  lemma {:induction false} BreakAtOnce(i: Var, s: State, body: Blk)
    requires i == Var("i", 4, false) && body == Blk({}, [Break]) && Get(s, i) == 0
    ensures ExecFor(i, CountingHead(i).cond, CountingHead(i).step, body, s, 9) == Result(s, Normal)
    ensures Get(s, BREAK) == 0 ==>
              var r := ExecFor(i, CountingHead(i).cond, CountingHead(i).step, LoweredBody(CountingHead(i), body), s, 9);
              r.out.Normal? && Get(r.state, i) == 4
  {
    var head := CountingHead(i);
    CountingHeadValues(i, s);
    OneStmt(Break, s, 8);
    NoDecls(s, s);
    assert ExecBlk(body, s, 8) == Result(s, Broke);
    if Get(s, BREAK) == 0 {
      JumpFreeIffSupported([Break]);
      assert [Break][1..] == [];
      IterationSim(head, body, s, s, 8);
      var s1 := ExecBlk(LoweredBody(head, body), s, 8).state;
      assert Get(s1, i) == Get(s, i);
      CountingHeadValues(i, s1);
      CountUp(i, s1[i := 1], body, 8);
    }
  }

  lemma {:induction false} CountUp(i: Var, s: State, body: Blk, fuel: nat)
    requires i == Var("i", 4, false) && Get(s, BREAK) == 1 && 0 <= Get(s, i) <= 4 && fuel >= 4 - Get(s, i)
    ensures var r := ExecFor(i, CountingHead(i).cond, CountingHead(i).step, GuardedBody(body), s, fuel);
            r.out.Normal? && Get(r.state, i) == 4
    decreases fuel
  {
    CountingHeadValues(i, s);
    if Get(s, i) < 4 {
      GuardedBodyRuns(body, s, fuel - 1);
      CountUp(i, s[i := Get(s, i) + 1], body, fuel - 1);
    }
  }
}
