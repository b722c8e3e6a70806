// Eliminating break and continue keeps the meaning of every loop, and of every program
// when all its loops are lowered from the inside out.
module JumpLoweringMeaning {
  import opened Arithmetic
  import opened Procedural
  import opened JumpLowering

  // ---------- conditions on the code ----------

  // No block that the transformation rewrites redeclares a flag.
  predicate Clear(ss: seq<Stmt>)
    decreases ss
  {
    ss == [] || (ClearStmt(ss[0]) && Clear(ss[1..]))
  }

  predicate ClearBlk(b: Blk)
    decreases b
  {
    HasJump(b.stmts) ==> b.decls !! FLAGS && Clear(b.stmts)
  }

  predicate ClearArms(arms: seq<Arm>)
    decreases arms
  {
    arms == [] || (ClearBlk(arms[0].body) && ClearArms(arms[1..]))
  }

  predicate ClearStmt(p: Stmt)
    decreases p
  {
    match p
    case Block(b) => ClearBlk(b)
    case Case(_, arms) => ClearArms(arms)
    case _ => true
  }

  // ---------- one block ----------

  // The transformed code, run from u, has recorded in the flags how the original ended.
  ghost predicate Flagged(u: State, r': Result, r: Result) {
    if r.out.OutOfFuel? then r'.out.OutOfFuel?
    else
      && r'.out.Normal? && Same(r'.state, r.state, FLAGS)
      && Get(r'.state, CONTINUE) == Truth(!r.out.Normal?)
      && Get(r'.state, BREAK) == if r.out.Broke? then 1 else Get(u, BREAK)
  }

  ghost predicate Ready(u: State, t: State) {
    Same(u, t, FLAGS) && Get(u, CONTINUE) == 0
  }

  lemma {:induction false} GuardRuns(flag: Var, b: Blk, s: State, fuel: nat)
    ensures Exec(Guard(flag, b), s, fuel) == if Get(s, flag) == 0 then ExecBlk(b, s, fuel) else Result(s, Normal)
  {
    var g := Guard(flag, b);
    var a := g.arms[0];
    assert g.arms[1..] == [];
    assert LabelMatches(Exact, a.labels[0], Get(s, flag), s) == (Get(s, flag) == 0);
    assert ArmMatches(a, Get(s, flag), s) == (Get(s, flag) == 0);
  }

  lemma {:induction false} FlagIsSet(flag: Var, n: int, s: State, fuel: nat)
    requires flag in FLAGS && 0 <= n <= 1
    ensures Exec(SetFlag(flag, n), s, fuel) == Result(s[flag := n], Normal)
  {
    assert Pow2(1) == 2;
  }

  lemma {:induction false} TwoStmts(p: Stmt, q: Stmt, s: State, fuel: nat)
    ensures ExecStmts([p, q], s, fuel) ==
            var r := Exec(p, s, fuel); if r.out.Normal? then Exec(q, r.state, fuel) else r
  {
    assert [p, q][1..] == [q];
    OneStmt(q, Exec(p, s, fuel).state, fuel);
  }

  // The heart of the matter: on states that agree outside the flags, with the flags
  // clear, the transformed code ends like the original code and the flags tell how.
  lemma {:induction false} LowerStmtsSim(ss: seq<Stmt>, u: State, t: State, fuel: nat)
    requires AvoidsStmts(ss, FLAGS) && Clear(ss) && Supported(ss) && Ready(u, t)
    ensures Flagged(u, ExecStmts(LowerStmts(ss).code, u, fuel), ExecStmts(ss, t, fuel))
    ensures !LowerStmts(ss).broke ==> !ExecStmts(ss, t, fuel).out.Broke?
    decreases ss
  {
    if ss != [] {
      if ss[0].Break? {
        TwoStmts(SetFlag(CONTINUE, 1), SetFlag(BREAK, 1), u, fuel);
        FlagIsSet(CONTINUE, 1, u, fuel);
        FlagIsSet(BREAK, 1, Exec(SetFlag(CONTINUE, 1), u, fuel).state, fuel);
        assert LowerStmts(ss).code == [SetFlag(CONTINUE, 1), SetFlag(BREAK, 1)];
        assert ExecStmts(ss, t, fuel) == Result(t, Broke);
      } else if ss[0].Continue? {
        OneStmt(SetFlag(CONTINUE, 1), u, fuel);
        FlagIsSet(CONTINUE, 1, u, fuel);
        assert LowerStmts(ss).code == [SetFlag(CONTINUE, 1)];
        assert ExecStmts(ss, t, fuel) == Result(t, Continued);
      } else {
        LowerStmtSim(ss[0], u, t, fuel);
        var head, rest := LowerStmt(ss[0]), LowerStmts(ss[1..]);
        var ru, rt := Exec(head.code, u, fuel), Exec(ss[0], t, fuel);
        if rt.out.Normal? {
          LowerStmtsSim(ss[1..], ru.state, rt.state, fuel);
        }
        if head.jumped {
          var b := Blk({}, rest.code);
          TwoStmts(head.code, Guard(CONTINUE, b), u, fuel);
          GuardRuns(CONTINUE, b, ru.state, fuel);
          NoDecls(ru.state, ExecStmts(rest.code, ru.state, fuel).state);
        } else {
          ConsStmts(head.code, rest.code, u, fuel);
        }
      }
    }
  }

  lemma {:induction false} LowerStmtSim(p: Stmt, u: State, t: State, fuel: nat)
    requires !p.Break? && !p.Continue?
    requires AvoidsStmt(p, FLAGS) && ClearStmt(p) && SupportedStmt(p) && Ready(u, t)
    ensures Flagged(u, Exec(LowerStmt(p).code, u, fuel), Exec(p, t, fuel))
    ensures !LowerStmt(p).jumped ==> Exec(p, t, fuel).out in {Normal, OutOfFuel}
    ensures !LowerStmt(p).broke ==> !Exec(p, t, fuel).out.Broke?
    decreases p
  {
    JumpFreeStmtIffSupported(p);
    if !JumpsIn(p) {
      NoJumpStmtUnchanged(p);
      StmtBlind(p, FLAGS, u, t, fuel);
      NoJumpStmtOutcome(p, t, fuel);
      assert CONTINUE in FLAGS && BREAK in FLAGS;
    } else {
      match p
      case Block(b) => LowerBlkSim(b, u, t, fuel);
      case Case(sel, arms) =>
        EvalAvoids(sel, FLAGS, u, t);
        var x := Eval(sel, t);
        FirstMatchAvoids(arms, FLAGS, x, u, t);
        SameChoice(arms, x, u);
        var i := Choose(arms, x, t);
        if i < |arms| {
          LowerArmsSim(arms, i, u, t, fuel);
        }
    }
  }

  lemma {:induction false} SameChoice(arms: seq<Arm>, x: int, s: State)
    ensures |LowerArms(arms).code| == |arms|
    ensures FirstMatch(LowerArms(arms).code, x, s) == FirstMatch(arms, x, s)
    ensures FirstDefault(LowerArms(arms).code) == FirstDefault(arms)
    decreases arms
  {
    if arms != [] {
      SameChoice(arms[1..], x, s);
      var l := LowerArms(arms).code;
      assert l[1..] == arms[1..] || l[1..] == LowerArms(arms[1..]).code;
      assert l[0].labels == arms[0].labels && l[0].kind == arms[0].kind;
      assert ArmMatches(l[0], x, s) == ArmMatches(arms[0], x, s);
    }
  }

  lemma {:induction false} LowerArmsSim(arms: seq<Arm>, i: nat, u: State, t: State, fuel: nat)
    requires i < |arms| == |LowerArms(arms).code|
    requires AvoidsArms(arms, FLAGS) && ClearArms(arms) && SupportedArms(arms) && Ready(u, t)
    ensures Flagged(u, ExecBlk(LowerArms(arms).code[i].body, u, fuel), ExecBlk(arms[i].body, t, fuel))
    ensures !LowerArms(arms).broke ==> !ExecBlk(arms[i].body, t, fuel).out.Broke?
    decreases arms
  {
    var a := arms[0];
    JumpFreeIffSupported(a.body.stmts);
    if !HasJump(a.body.stmts) {
      NoJumpUnchanged(a.body.stmts);
      if i == 0 {
        PlainBlkSim(a.body, u, t, fuel);
      } else {
        SameChoice(arms[1..], 0, u);
        LowerArmsSim(arms[1..], i - 1, u, t, fuel);
        assert LowerArms(arms).code[i] == LowerArms(arms[1..]).code[i - 1];
      }
    } else if i == 0 {
      LowerBlkSim(a.body, u, t, fuel);
    } else {
      assert LowerArms(arms).code[i] == arms[i] == arms[1..][i - 1];
      NoJumpInArm(arms[1..], i - 1);
      AvoidsArmAt(arms, FLAGS, i);
      PlainBlkSim(arms[i].body, u, t, fuel);
    }
  }

  lemma {:induction false} PlainBlkSim(b: Blk, u: State, t: State, fuel: nat)
    requires !HasJump(b.stmts) && AvoidsBlk(b, FLAGS) && Ready(u, t)
    ensures Flagged(u, ExecBlk(b, u, fuel), ExecBlk(b, t, fuel))
    ensures !ExecBlk(b, t, fuel).out.Broke?
  {
    BlkBlind(b, FLAGS, u, t, fuel);
    NoJumpOutcome(b.stmts, Enter(t, b.decls), fuel);
    assert CONTINUE in FLAGS && BREAK in FLAGS;
  }

  lemma {:induction false} LowerBlkSim(b: Blk, u: State, t: State, fuel: nat)
    requires HasJump(b.stmts) && Supported(b.stmts)
    requires AvoidsBlk(b, FLAGS) && ClearBlk(b) && Ready(u, t)
    ensures Flagged(u, ExecBlk(LowerBlk(b).code, u, fuel), ExecBlk(b, t, fuel))
    ensures !LowerBlk(b).broke ==> !ExecBlk(b, t, fuel).out.Broke?
    decreases b
  {
    var l := LowerStmts(b.stmts);
    var u1, t1 := Enter(u, b.decls), Enter(t, b.decls);
    assert FLAGS - b.decls == FLAGS;
    assert CONTINUE !in b.decls && BREAK !in b.decls;
    LowerStmtsSim(b.stmts, u1, t1, fuel);
    LeaveSame(b.decls, FLAGS, u, t, ExecStmts(l.code, u1, fuel).state, ExecStmts(b.stmts, t1, fuel).state,
      ExecStmts(b.stmts, t1, fuel).out.OutOfFuel?);
  }

  // ---------- loops ----------

  ghost predicate BodyReady(body: Blk) {
    HasJump(body.stmts) && Supported(body.stmts) && ClearBlk(body) && AvoidsBlk(body, FLAGS)
  }

  // One iteration, starting with $continue in any state.
  lemma {:induction false} LoopBodySim(body: Blk, u: State, t: State, fuel: nat)
    requires BodyReady(body) && Same(u, t, FLAGS)
    ensures Flagged(u, ExecBlk(LoopBody(body), u, fuel), ExecBlk(body, t, fuel))
    ensures !LowerBlk(body).broke ==> !ExecBlk(body, t, fuel).out.Broke?
  {
    var b := LowerBlk(body).code;
    var u0 := u[CONTINUE := 0];
    assert Same(u0, t, FLAGS) by { assert CONTINUE in FLAGS; }
    LowerBlkSim(body, u0, t, fuel);
    var u1 := Enter(u, body.decls);
    ConsStmts(SetFlag(CONTINUE, 0), b.stmts, u1, fuel);
    FlagIsSet(CONTINUE, 0, u1, fuel);
    assert u1[CONTINUE := 0] == Enter(u0, body.decls);
    var m := ExecStmts(b.stmts, Enter(u0, body.decls), fuel).state;
    assert forall v :: Get(Leave(m, u, body.decls), v) == Get(Leave(m, u0, body.decls), v);
  }

  // The same iteration under the guard of $break that repeat and for loops get.
  lemma {:induction false} GuardedBodyRuns(body: Blk, u: State, fuel: nat)
    ensures ExecBlk(GuardedBody(body), u, fuel) ==
            if Get(u, BREAK) == 0 then ExecBlk(LoopBody(body), u, fuel) else Result(u, Normal)
  {
    var g := Guard(BREAK, LoopBody(body));
    OneStmt(g, u, fuel);
    GuardRuns(BREAK, LoopBody(body), u, fuel);
    NoDecls(u, ExecStmts([g], u, fuel).state);
  }

  // How the run r' of a lowered loop from u may differ from the original run r: it may
  // need more fuel unless exact is set, and the variables in xs and the flags may differ.
  // $break is left alone when the loop has no break.
  ghost predicate LoopSim(broke: bool, exact: bool, xs: set<Var>, u: State, r': Result, r: Result) {
    || (r'.out.OutOfFuel? && (exact ==> r.out.OutOfFuel?))
    || (r'.out.Normal? && r.out.Normal? && Same(r'.state, r.state, FLAGS + xs) &&
        (!broke ==> Get(r'.state, BREAK) == Get(u, BREAK)))
  }

  ghost predicate LoopReady(body: Blk, u: State, t: State) {
    BodyReady(body) && Same(u, t, FLAGS) && (LowerBlk(body).broke ==> Get(u, BREAK) == 0)
  }

  lemma {:induction false} IterationSim(head: Head, body: Blk, u: State, t: State, fuel: nat)
    requires LoopReady(body, u, t)
    ensures var ru, rt := ExecBlk(LoweredBody(head, body), u, fuel), ExecBlk(body, t, fuel);
            match rt.out
            case OutOfFuel => ru.out.OutOfFuel?
            case Broke => ru.out.Normal? && Same(ru.state, rt.state, FLAGS) && LowerBlk(body).broke && Get(ru.state, BREAK) == 1
            case _ => ru.out.Normal? && LoopReady(body, ru.state, rt.state) && Get(ru.state, BREAK) == Get(u, BREAK)
  {
    LoopBodySim(body, u, t, fuel);
    GuardedBodyRuns(body, u, fuel);
  }

  lemma {:induction false} StoreSame(xs: set<Var>, u: State, t: State, v: Var, n: int)
    requires Same(u, t, xs)
    ensures Same(Store(u, v, n), Store(t, v, n), xs)
  {
  }

  lemma {:induction false} LoweredCond(cond: Expr, body: Blk, s: State)
    ensures Eval(LoweredHead(While(cond), body).cond, s) != 0 <==>
            Eval(cond, s) != 0 && (LowerBlk(body).broke ==> Get(s, BREAK) == 0)
  {
    assert Eval(LogicNot(Ref(BREAK)), s) == Truth(Eval(Ref(BREAK), s) == 0);
  }

  lemma {:induction false} WhileSim(cond: Expr, body: Blk, u: State, t: State, fuel: nat)
    requires LoopReady(body, u, t) && AvoidsExpr(cond, FLAGS)
    ensures var h := While(cond);
            LoopSim(LowerBlk(body).broke, true, {}, u,
              ExecWhile(LoweredHead(h, body).cond, LoweredBody(h, body), u, fuel), ExecWhile(cond, body, t, fuel))
    decreases fuel
  {
    EvalAvoids(cond, FLAGS, u, t);
    LoweredCond(cond, body, u);
    assert FLAGS + {} == FLAGS;
    if Eval(cond, t) != 0 && fuel > 0 {
      IterationSim(While(cond), body, u, t, fuel - 1);
      var ru, rt := ExecBlk(LoweredBody(While(cond), body), u, fuel - 1), ExecBlk(body, t, fuel - 1);
      if rt.out.Normal? || rt.out.Continued? {
        WhileSim(cond, body, ru.state, rt.state, fuel - 1);
      } else if rt.out.Broke? {
        LoweredCond(cond, body, ru.state);
      }
    }
  }

  lemma {:induction false} RepeatSim(count: Expr, n: int, body: Blk, u: State, t: State, fuel: nat)
    requires LoopReady(body, u, t)
    ensures LoopSim(LowerBlk(body).broke, true, {}, u,
              ExecRepeat(n, LoweredBody(Repeat(count), body), u, fuel), ExecRepeat(n, body, t, fuel))
    decreases n
  {
    assert FLAGS + {} == FLAGS;
    if n > 0 {
      IterationSim(Repeat(count), body, u, t, fuel);
      var ru, rt := ExecBlk(LoweredBody(Repeat(count), body), u, fuel), ExecBlk(body, t, fuel);
      if rt.out.Normal? || rt.out.Continued? {
        RepeatSim(count, n - 1, body, ru.state, rt.state, fuel);
      } else if rt.out.Broke? {
        RepeatIdles(n - 1, body, ru.state, fuel);
      }
    }
  }

  // Once $break is set, the remaining iterations of a repeat loop do nothing.
  lemma {:induction false} RepeatIdles(n: int, body: Blk, u: State, fuel: nat)
    requires Get(u, BREAK) != 0
    ensures ExecRepeat(n, GuardedBody(body), u, fuel) == Result(u, Normal)
    decreases n
  {
    if n > 0 {
      GuardedBodyRuns(body, u, fuel);
      RepeatIdles(n - 1, body, u, fuel);
    }
  }

  lemma {:induction false} ForSim(head: Head, body: Blk, u: State, t: State, fuel: nat)
    requires LoopReady(body, u, t) && head.For? && AvoidsHead(head, FLAGS)
    ensures var broke := LowerBlk(body).broke;
            LoopSim(broke, !broke, Stepped(head, broke), u,
              ExecFor(head.v, head.cond, head.step, LoweredBody(head, body), u, fuel),
              ExecFor(head.v, head.cond, head.step, body, t, fuel))
    decreases fuel
  {
    EvalAvoids(head.cond, FLAGS, u, t);
    if Eval(head.cond, t) != 0 && fuel > 0 {
      IterationSim(head, body, u, t, fuel - 1);
      var ru, rt := ExecBlk(LoweredBody(head, body), u, fuel - 1), ExecBlk(body, t, fuel - 1);
      if !rt.out.OutOfFuel? {
        var n := Eval(head.step, ru.state);
        var u1 := Store(ru.state, head.v, n);
        assert Get(u1, BREAK) == Get(ru.state, BREAK);
        if rt.out.Broke? {
          ForIdles(head.v, head.cond, head.step, body, u1, fuel - 1);
        } else {
          EvalAvoids(head.step, FLAGS, ru.state, rt.state);
          StoreSame(FLAGS, ru.state, rt.state, head.v, n);
          ForSim(head, body, u1, Store(rt.state, head.v, n), fuel - 1);
        }
      }
    }
  }

  // Once $break is set, the remaining iterations of a for loop only step its variable.
  lemma {:induction false} ForIdles(v: Var, cond: Expr, step: Expr, body: Blk, u: State, fuel: nat)
    requires Get(u, BREAK) != 0 && v !in FLAGS
    ensures var r := ExecFor(v, cond, step, GuardedBody(body), u, fuel);
            r.out.OutOfFuel? || (r.out.Normal? && Same(r.state, u, {v}))
    decreases fuel
  {
    if Eval(cond, u) != 0 && fuel > 0 {
      GuardedBodyRuns(body, u, fuel - 1);
      ForIdles(v, cond, step, body, Store(u, v, Eval(step, u)), fuel - 1);
    }
  }

  // The loop variable, when a break leaves it with another value than the original loop.
  function Leaked(decls: set<Var>, head: Head, broke: bool): set<Var> {
    if broke && head.For? && head.v !in decls then {head.v} else {}
  }

  // A lowered program p' against its original p, from states that agree outside xs:
  // whenever p' completes, p completes in the same way and in the same state.
  ghost predicate Sim(exact: bool, xs: set<Var>, r': Result, r: Result) {
    || (r'.out.OutOfFuel? && (exact ==> r.out.OutOfFuel?))
    || (r'.out == r.out && !r.out.OutOfFuel? && Same(r'.state, r.state, xs))
  }

  // The variables of the loop itself that may differ when the loop ends.
  function Stepped(head: Head, broke: bool): set<Var> {
    if broke && head.For? then {head.v} else {}
  }

  lemma {:induction false} LoweredLoopSim(head: Head, body: Blk, u: State, t: State, fuel: nat)
    requires LoopReady(body, u, t) && AvoidsHead(head, FLAGS)
    ensures var broke := LowerBlk(body).broke;
            LoopSim(broke, !(broke && head.For?), Stepped(head, broke), u,
              ExecLoop(LoweredHead(head, body), LoweredBody(head, body), u, fuel), ExecLoop(head, body, t, fuel))
  {
    match head
    case While(cond) => WhileSim(cond, body, u, t, fuel);
    case Repeat(count) =>
      EvalAvoids(count, FLAGS, u, t);
      RepeatSim(count, Eval(count, t), body, u, t, fuel);
    case For(v, init, cond, step) =>
      EvalAvoids(init, FLAGS, u, t);
      StoreSame(FLAGS, u, t, v, Eval(init, u));
      ForSim(head, body, Store(u, v, Eval(init, u)), Store(t, v, Eval(init, t)), fuel);
  }

  // What the declaration block of a lowered loop runs.
  lemma {:induction false} LowerLoopRuns(decls: set<Var>, head: Head, body: Blk, u: State, fuel: nat)
    requires LowerBlk(body).jumped
    ensures var low := LowerLoop(decls, head, body);
            var u0 := Enter(u, low.decls);
            var u1 := if LowerBlk(body).broke then u0[BREAK := 0] else u0;
            var r := ExecLoop(LoweredHead(head, body), LoweredBody(head, body), u1, fuel);
            ExecBlk(low, u, fuel) == Result(Leave(r.state, u, low.decls), r.out)
  {
    var low := LowerLoop(decls, head, body);
    var u0 := Enter(u, low.decls);
    var u1 := if LowerBlk(body).broke then u0[BREAK := 0] else u0;
    var loop := Loop({}, LoweredHead(head, body), LoweredBody(head, body));
    LoopAlone(LoweredHead(head, body), LoweredBody(head, body), u1, fuel);
    if LowerBlk(body).broke {
      TwoStmts(SetFlag(BREAK, 0), loop, u0, fuel);
      FlagIsSet(BREAK, 0, u0, fuel);
    } else {
      OneStmt(loop, u0, fuel);
    }
  }

  lemma {:induction false} LoopAlone(head: Head, body: Blk, s: State, fuel: nat)
    ensures Exec(Loop({}, head, body), s, fuel) == ExecLoop(head, body, s, fuel)
  {
    NoDecls(s, ExecLoop(head, body, s, fuel).state);
  }

  // Lowering one loop keeps its meaning. While and repeat loops, and for loops without
  // a break, run for exactly as long as before; a for loop with a break also steps
  // through its remaining iterations, so that it may run longer and leave the loop
  // variable different where that variable is visible after the loop.
  lemma {:induction false} LowerLoopSim(decls: set<Var>, head: Head, body: Blk, u: State, t: State, fuel: nat)
    requires decls !! FLAGS && AvoidsHead(head, FLAGS) && AvoidsBlk(body, FLAGS)
    requires ClearBlk(body) && Supported(body.stmts) && Same(u, t, {})
    ensures var broke := LowerBlk(body).broke;
            Sim(!(broke && head.For?), Leaked(decls, head, broke),
              ExecBlk(LowerLoop(decls, head, body), u, fuel), Exec(Loop(decls, head, body), t, fuel))
  {
    var broke := LowerBlk(body).broke;
    JumpFreeIffSupported(body.stmts);
    var low := LowerLoop(decls, head, body);
    var u0, t0 := Enter(u, low.decls), Enter(t, decls);
    LoopOutcome(head, body, t0, fuel);
    if !LowerBlk(body).jumped {
      NoJumpUnchanged(body.stmts);
      AvoidsNothingHead(head);
      AvoidsNothingBlk(body);
      LoopBlind(head, body, {}, u0, t0, fuel);
      OneStmt(Loop({}, head, body), u0, fuel);
      LoopAlone(head, body, u0, fuel);
      LeaveSame(decls, {}, u, t, ExecLoop(head, body, u0, fuel).state, ExecLoop(head, body, t0, fuel).state, false);
    } else {
      var u1 := if broke then u0[BREAK := 0] else u0;
      assert Same(u1, t0, FLAGS);
      LowerLoopRuns(decls, head, body, u, fuel);
      LoweredLoopSim(head, body, u1, t0, fuel);
      var r' := ExecLoop(LoweredHead(head, body), LoweredBody(head, body), u1, fuel);
      var r := ExecLoop(head, body, t0, fuel);
      if !r'.out.OutOfFuel? {
        LoopBlind(head, body, FLAGS, t0, t0, fuel);
        LeaveLoop(decls, low.decls, Stepped(head, broke), u, t, r'.state, r.state);
      }
    }
  }

  lemma {:induction false} LeaveLoop(decls: set<Var>, low: set<Var>, xs: set<Var>, u: State, t: State, u': State,
      t': State)
    requires decls !! FLAGS && xs !! FLAGS && decls <= low <= decls + FLAGS && Same(u, t, {}) && Same(u', t', FLAGS + xs)
    requires forall f | f in FLAGS - low :: Get(u', f) == Get(u, f)
    requires forall f | f in FLAGS :: Get(t', f) == Get(t, f)
    ensures Same(Leave(u', u, low), Leave(t', t, decls), xs - decls)
  {
    forall v | v !in xs - decls
      ensures Get(Leave(u', u, low), v) == Get(Leave(t', t, decls), v)
    {
      assert Get(u, v) == Get(t, v);
      if v !in FLAGS + xs { assert Get(u', v) == Get(t', v); }
    }
  }
}
