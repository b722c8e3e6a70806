// A lowered for loop keeps stepping after a break: when it ends, and where its variable
// stands then.
module LoopTermination {
  import opened Wrappers
  import opened Procedural
  import opened JumpLowering
  import opened JumpLoweringMeaning
  import opened Unrolling
  import opened UnrollingMeaning

  // ---------- the control of a loop ----------

  function Vars(e: Expr): set<Var> {
    match e
    case Const(_) => {}
    case Ref(v) => {v}
    case LogicNot(e1) => Vars(e1)
    case Binary(_, l, r) => Vars(l) + Vars(r)
  }

  ghost predicate Agree(xs: set<Var>, s: State, t: State) {
    forall w | w in xs :: Get(s, w) == Get(t, w)
  }

  lemma {:induction false} EvalAgrees(e: Expr, s: State, t: State)
    requires Agree(Vars(e), s, t)
    ensures Eval(e, s) == Eval(e, t)
  {
    match e
    case Const(_) =>
    case Ref(_) =>
    case LogicNot(e1) => EvalAgrees(e1, s, t);
    case Binary(_, l, r) => EvalAgrees(l, s, t); EvalAgrees(r, s, t);
  }

  lemma {:induction false} AvoidsVars(e: Expr, xs: set<Var>)
    ensures AvoidsExpr(e, xs) <==> Vars(e) !! xs
  {
    match e
    case Const(_) =>
    case Ref(_) =>
    case LogicNot(e1) => AvoidsVars(e1, xs);
    case Binary(_, l, r) => AvoidsVars(l, xs); AvoidsVars(r, xs);
  }

  // The variables that decide how a for loop goes on.
  function Control(h: Head): set<Var>
    requires h.For?
  {
    Vars(h.cond) + Vars(h.step) + {h.v}
  }

  // The body leaves them all alone.
  predicate ControlKept(h: Head, body: Blk)
    requires h.For?
  {
    forall w | w in Control(h) :: KeepsBlk(body, w)
  }

  lemma {:induction false} ControlApart(h: Head)
    requires h.For? && AvoidsHead(h, FLAGS)
    ensures Control(h) !! FLAGS
  {
    AvoidsVars(h.cond, FLAGS);
    AvoidsVars(h.step, FLAGS);
  }

  lemma {:induction false} BodyKeepsControl(h: Head, body: Blk, t: State, fuel: nat)
    requires h.For? && ControlKept(h, body)
    ensures Agree(Control(h), ExecBlk(body, t, fuel).state, t)
  {
    forall w | w in Control(h) ensures Get(ExecBlk(body, t, fuel).state, w) == Get(t, w) {
      SubstBlkMeans(body, w, Get(t, w), t, fuel);
    }
  }

  // ---------- the control alone ----------

  const IDLE := Blk({}, [])

  // The loop with an empty body ends from this state.
  predicate AloneEnds(h: Head, s: State, fuel: nat)
    requires h.For?
  {
    ExecFor(h.v, h.cond, h.step, IDLE, s, fuel).out.Normal?
  }

  function StepOnce(h: Head, s: State): State
    requires h.For?
  {
    Store(s, h.v, Eval(h.step, s))
  }

  lemma {:induction false} AloneTurn(h: Head, s: State, fuel: nat)
    requires h.For?
    ensures AloneEnds(h, s, fuel) <==> Eval(h.cond, s) == 0 || (fuel > 0 && AloneEnds(h, StepOnce(h, s), fuel - 1))
  {
    if Eval(h.cond, s) != 0 && fuel > 0 {
      NoDecls(s, s);
      assert ExecBlk(IDLE, s, fuel - 1) == Result(s, Normal);
    }
  }

  lemma {:induction false} StepAgrees(h: Head, s: State, t: State)
    requires h.For? && Agree(Control(h), s, t)
    ensures Eval(h.cond, s) == Eval(h.cond, t) && Agree(Control(h), StepOnce(h, s), StepOnce(h, t))
  {
    EvalAgrees(h.cond, s, t);
    EvalAgrees(h.step, s, t);
  }

  lemma {:induction false} AloneAgrees(h: Head, s: State, t: State, fuel: nat)
    requires h.For? && Agree(Control(h), s, t)
    ensures AloneEnds(h, s, fuel) == AloneEnds(h, t, fuel)
    decreases fuel
  {
    StepAgrees(h, s, t);
    AloneTurn(h, s, fuel);
    AloneTurn(h, t, fuel);
    if fuel > 0 { AloneAgrees(h, StepOnce(h, s), StepOnce(h, t), fuel - 1); }
  }

  // More steps do no harm.
  lemma {:induction false} AloneMonotone(h: Head, s: State, fuel: nat, more: nat)
    requires h.For? && AloneEnds(h, s, fuel) && fuel <= more
    ensures AloneEnds(h, s, more)
    decreases fuel
  {
    AloneTurn(h, s, fuel);
    AloneTurn(h, s, more);
    if Eval(h.cond, s) != 0 { AloneMonotone(h, StepOnce(h, s), fuel - 1, more - 1); }
  }

  // ---------- after a break ----------

  // The loop steps on until its condition fails, if it ever does.
  lemma {:induction false} IdlingEndsIff(h: Head, body: Blk, u: State, t: State, fuel: nat)
    requires h.For? && h.v !in FLAGS && Get(u, BREAK) != 0 && Agree(Control(h), u, t)
    ensures var r := ExecFor(h.v, h.cond, h.step, GuardedBody(body), u, fuel);
            && (r.out.Normal? <==> AloneEnds(h, t, fuel))
            && (r.out.Normal? ==> Eval(h.cond, r.state) == 0 && Same(r.state, u, {h.v}))
    decreases fuel
  {
    StepAgrees(h, u, t);
    AloneTurn(h, t, fuel);
    if Eval(h.cond, u) != 0 && fuel > 0 {
      GuardedBodyRuns(body, u, fuel - 1);
      IdlingEndsIff(h, body, StepOnce(h, u), StepOnce(h, t), fuel - 1);
    }
  }

  // The variable has left the value that it had at the break.
  lemma {:induction false} IdlesElsewhere(h: Head, body: Blk, u: State, t: State, fuel: nat)
    requires h.For? && AvoidsHead(h, FLAGS) && Eval(h.cond, t) != 0 && Get(u, BREAK) != 0 && Same(u, t, FLAGS)
    ensures var r := ExecFor(h.v, h.cond, h.step, GuardedBody(body), StepOnce(h, u), fuel);
            && (r.out.Normal? <==> AloneEnds(h, StepOnce(h, t), fuel))
            && (r.out.Normal? ==> Get(r.state, h.v) != Get(t, h.v))
  {
    ControlApart(h);
    assert Agree(Control(h), u, t);
    StepAgrees(h, u, t);
    IdlingEndsIff(h, body, StepOnce(h, u), StepOnce(h, t), fuel);
    var r := ExecFor(h.v, h.cond, h.step, GuardedBody(body), StepOnce(h, u), fuel);
    if r.out.Normal? && Get(r.state, h.v) == Get(t, h.v) {
      forall w | w in Vars(h.cond) ensures Get(r.state, w) == Get(t, w) {
        if w != h.v { assert Get(r.state, w) == Get(StepOnce(h, u), w) == Get(u, w); }
      }
      EvalAgrees(h.cond, r.state, t);
    }
  }

  // ---------- the whole loop ----------

  // The lowered loop ends exactly when the original does and the control alone would end,
  // too; and then the variable agrees exactly when the original ended without a break.
  ghost predicate EndsWith(h: Head, ends: bool, r': Result, r: Result)
    requires h.For?
  {
    && (r'.out.Normal? <==> ends && r.out.Normal?)
    && (r'.out.Normal? ==> (Get(r'.state, h.v) == Get(r.state, h.v) <==> Eval(h.cond, r.state) == 0))
  }

  function RunFor(h: Head, body: Blk, s: State, fuel: nat): Result
    requires h.For?
  {
    ExecFor(h.v, h.cond, h.step, body, s, fuel)
  }

  lemma {:induction false} LoweredForEnds(h: Head, body: Blk, u: State, t: State, fuel: nat)
    requires LoopReady(body, u, t) && h.For? && AvoidsHead(h, FLAGS) && ControlKept(h, body)
    ensures EndsWith(h, AloneEnds(h, t, fuel), RunFor(h, LoweredBody(h, body), u, fuel), RunFor(h, body, t, fuel))
    decreases fuel
  {
    EvalAvoids(h.cond, FLAGS, u, t);
    AloneTurn(h, t, fuel);
    if Eval(h.cond, t) != 0 && fuel > 0 {
      IterationSim(h, body, u, t, fuel - 1);
      var ru, rt := ExecBlk(LoweredBody(h, body), u, fuel - 1), ExecBlk(body, t, fuel - 1);
      if rt.out.Broke? {
        LoweredForBreaks(h, body, u, t, fuel);
      } else if !rt.out.OutOfFuel? {
        EvalAvoids(h.step, FLAGS, ru.state, rt.state);
        StoreSame(FLAGS, ru.state, rt.state, h.v, Eval(h.step, rt.state));
        LoweredForEnds(h, body, StepOnce(h, ru.state), StepOnce(h, rt.state), fuel - 1);
        LoweredForTurns(h, body, u, t, fuel);
      }
    }
  }

  // One turn of a for loop.
  lemma {:induction false} ForTurns(h: Head, body: Blk, s: State, fuel: nat)
    requires h.For? && Eval(h.cond, s) != 0 && fuel > 0
    ensures var r := ExecBlk(body, s, fuel - 1);
            RunFor(h, body, s, fuel) ==
            if r.out.OutOfFuel? then r
            else if r.out.Broke? then Result(r.state, Normal)
            else RunFor(h, body, StepOnce(h, r.state), fuel - 1)
  {
  }

  // An iteration of the original leaves the course of the control as it was.
  lemma {:induction false} AloneAfterBody(h: Head, body: Blk, t: State, fuel: nat)
    requires h.For? && ControlKept(h, body) && Eval(h.cond, t) != 0 && fuel > 0
    ensures var r := ExecBlk(body, t, fuel - 1);
            Eval(h.cond, r.state) != 0 && (AloneEnds(h, t, fuel) <==> AloneEnds(h, StepOnce(h, r.state), fuel - 1))
  {
    var r := ExecBlk(body, t, fuel - 1);
    BodyKeepsControl(h, body, t, fuel - 1);
    StepAgrees(h, r.state, t);
    AloneAgrees(h, StepOnce(h, r.state), StepOnce(h, t), fuel - 1);
    AloneTurn(h, t, fuel);
  }

  lemma {:induction false} LoweredForTurns(h: Head, body: Blk, u: State, t: State, fuel: nat)
    requires LoopReady(body, u, t) && h.For? && AvoidsHead(h, FLAGS) && ControlKept(h, body)
    requires Eval(h.cond, t) != 0 && fuel > 0 && ExecBlk(body, t, fuel - 1).out in {Normal, Continued}
    requires var ru, rt := ExecBlk(LoweredBody(h, body), u, fuel - 1), ExecBlk(body, t, fuel - 1);
             EndsWith(h, AloneEnds(h, StepOnce(h, rt.state), fuel - 1),
               RunFor(h, LoweredBody(h, body), StepOnce(h, ru.state), fuel - 1), RunFor(h, body, StepOnce(h, rt.state), fuel - 1))
    ensures EndsWith(h, AloneEnds(h, t, fuel), RunFor(h, LoweredBody(h, body), u, fuel), RunFor(h, body, t, fuel))
  {
    EvalAvoids(h.cond, FLAGS, u, t);
    IterationSim(h, body, u, t, fuel - 1);
    ForTurns(h, LoweredBody(h, body), u, fuel);
    ForTurns(h, body, t, fuel);
    AloneAfterBody(h, body, t, fuel);
  }

  lemma {:induction false} LoweredForBreaks(h: Head, body: Blk, u: State, t: State, fuel: nat)
    requires LoopReady(body, u, t) && h.For? && AvoidsHead(h, FLAGS) && ControlKept(h, body)
    requires Eval(h.cond, t) != 0 && fuel > 0 && ExecBlk(body, t, fuel - 1).out.Broke?
    ensures EndsWith(h, AloneEnds(h, t, fuel), RunFor(h, LoweredBody(h, body), u, fuel), RunFor(h, body, t, fuel))
  {
    EvalAvoids(h.cond, FLAGS, u, t);
    IterationSim(h, body, u, t, fuel - 1);
    ForTurns(h, LoweredBody(h, body), u, fuel);
    ForTurns(h, body, t, fuel);
    AloneAfterBody(h, body, t, fuel);
    var ru, rt := ExecBlk(LoweredBody(h, body), u, fuel - 1), ExecBlk(body, t, fuel - 1);
    assert LoweredBody(h, body) == GuardedBody(body);
    IdlesElsewhere(h, body, ru.state, rt.state, fuel - 1);
  }

  // The state in which the iterations of a loop statement start.
  function StartOf(decls: set<Var>, h: Head, s: State): State
    requires h.For?
  {
    Store(Enter(s, decls), h.v, Eval(h.init, Enter(s, decls)))
  }

  // The same for what runs inside the declaration block of a whole loop statement.
  lemma {:induction false} InsideEnds(decls: set<Var>, h: Head, body: Blk, s: State, fuel: nat)
    requires decls !! FLAGS && h.For? && AvoidsHead(h, FLAGS) && AvoidsBlk(body, FLAGS) && ClearBlk(body)
    requires Supported(body.stmts) && LowerBlk(body).broke && ControlKept(h, body)
    ensures var low := LowerLoop(decls, h, body);
            var u0 := Enter(s, low.decls)[BREAK := 0];
            var r' := RunFor(h, LoweredBody(h, body), Store(u0, h.v, Eval(h.init, u0)), fuel);
            && ExecBlk(low, s, fuel) == Result(Leave(r'.state, s, low.decls), r'.out)
            && EndsWith(h, AloneEnds(h, StartOf(decls, h, s), fuel), r', RunFor(h, body, StartOf(decls, h, s), fuel))
  {
    var t0, u0 := Enter(s, decls), Enter(s, LowerLoop(decls, h, body).decls)[BREAK := 0];
    NoJumpUnchanged(body.stmts);
    JumpFreeIffSupported(body.stmts);
    LowerLoopRuns(decls, h, body, s, fuel);
    EvalAvoids(h.init, FLAGS, u0, t0);
    StoreSame(FLAGS, u0, t0, h.v, Eval(h.init, t0));
    LoweredForEnds(h, body, Store(u0, h.v, Eval(h.init, u0)), StartOf(decls, h, s), fuel);
  }

  // A lowered loop with a break ends exactly when the original and its control alone do.
  lemma {:induction false} LoweredLoopEndsIff(decls: set<Var>, h: Head, body: Blk, s: State, fuel: nat)
    requires decls !! FLAGS && h.For? && AvoidsHead(h, FLAGS) && AvoidsBlk(body, FLAGS) && ClearBlk(body)
    requires Supported(body.stmts) && LowerBlk(body).broke && ControlKept(h, body)
    ensures ExecBlk(LowerLoop(decls, h, body), s, fuel).out.Normal? <==>
            AloneEnds(h, StartOf(decls, h, s), fuel) && Exec(Loop(decls, h, body), s, fuel).out.Normal?
  {
    InsideEnds(decls, h, body, s, fuel);
  }

  // If its variable is declared outside, it agrees exactly when no break was taken.
  // (Without a break in it the lowered loop runs exactly like the original.)
  lemma {:induction false} OuterVariableAgreesIff(decls: set<Var>, h: Head, body: Blk, s: State, fuel: nat)
    requires decls !! FLAGS && h.For? && AvoidsHead(h, FLAGS) && AvoidsBlk(body, FLAGS) && ClearBlk(body)
    requires Supported(body.stmts) && LowerBlk(body).broke && ControlKept(h, body) && h.v !in decls
    ensures var r', r := ExecBlk(LowerLoop(decls, h, body), s, fuel), Exec(Loop(decls, h, body), s, fuel);
            var atEnd := ExecLoop(h, body, Enter(s, decls), fuel).state;
            && (r'.out.Normal? <==> AloneEnds(h, StartOf(decls, h, s), fuel) && r.out.Normal?)
            && (r'.out.Normal? ==> (Get(r'.state, h.v) == Get(r.state, h.v) <==> Eval(h.cond, atEnd) == 0))
  {
    var low := LowerLoop(decls, h, body);
    var u0 := Enter(s, low.decls)[BREAK := 0];
    InsideEnds(decls, h, body, s, fuel);
    LeaveKeeps(RunFor(h, body, StartOf(decls, h, s), fuel).state, s, decls, h.v);
    LeaveKeeps(RunFor(h, LoweredBody(h, body), Store(u0, h.v, Eval(h.init, u0)), fuel).state, s, low.decls, h.v);
  }

  lemma {:induction false} LeaveKeeps(t: State, s: State, decls: set<Var>, v: Var)
    requires v !in decls
    ensures Get(Leave(t, s, decls), v) == Get(t, v)
  {
  }

  // ---------- controls over the loop variable alone ----------

  lemma {:induction false} ControlValues(h: Head, s: State)
    requires h.For? && IsConst(SubstExpr(h.cond, h.v, 0)) && IsConst(SubstExpr(h.step, h.v, 0))
    ensures Eval(h.cond, s) == Value(SubstExpr(h.cond, h.v, Get(s, h.v)))
    ensures Eval(h.step, s) == Value(SubstExpr(h.step, h.v, Get(s, h.v)))
  {
    var x := Get(s, h.v);
    SubstEval(h.cond, h.v, x, s);
    SubstEval(h.step, h.v, x, s);
    SameConst(h.cond, h.v, 0, x);
    SameConst(h.step, h.v, 0, x);
    ConstEval(SubstExpr(h.cond, h.v, x), s);
    ConstEval(SubstExpr(h.step, h.v, x), s);
  }

  // Such a control ends exactly when the values that the variable takes run out.
  lemma {:induction false} AloneIffStored(h: Head, n: int, s: State, fuel: nat)
    requires h.For? && IsConst(SubstExpr(h.cond, h.v, 0)) && IsConst(SubstExpr(h.step, h.v, 0))
    requires Get(s, h.v) == Fit(h.v, n)
    ensures AloneEnds(h, s, fuel) <==> StoredIndices(h, n, fuel).Some?
    decreases fuel
  {
    ControlValues(h, s);
    AloneTurn(h, s, fuel);
    if Eval(h.cond, s) != 0 && fuel > 0 { AloneIffStored(h, Eval(h.step, s), StepOnce(h, s), fuel - 1); }
  }

  // ---------- a control that never ends ----------

  // "for (i = 0; 1; i = i + 1) break;" ends at once, but its lowered form never does.
  function EndlessHead(i: Var): Head {
    For(i, Const(0), Const(1), Binary(Add, Ref(i), Const(1)))
  }

  lemma {:induction false} EndlessControl(i: Var, s: State, fuel: nat)
    ensures !AloneEnds(EndlessHead(i), s, fuel)
    decreases fuel
  {
    AloneTurn(EndlessHead(i), s, fuel);
    if fuel > 0 { EndlessControl(i, StepOnce(EndlessHead(i), s), fuel - 1); }
  }

  lemma {:induction false} EndlessStops(i: Var, s: State, fuel: nat)
    requires fuel > 0
    ensures Exec(Loop({}, EndlessHead(i), Blk({}, [Break])), s, fuel).out.Normal?
  {
    var h, body, t := EndlessHead(i), Blk({}, [Break]), Store(s, i, 0);
    LoopAlone(h, body, s, fuel);
    OneStmt(Break, t, fuel - 1);
    NoDecls(t, t);
    assert ExecBlk(body, t, fuel - 1) == Result(t, Broke);
    assert ExecFor(i, h.cond, h.step, body, t, fuel) == Result(t, Normal);
  }

  lemma {:induction false} EndlessControlIsLowered(i: Var, s: State, fuel: nat)
    requires i !in FLAGS && fuel > 0
    ensures var p := Loop({}, EndlessHead(i), Blk({}, [Break]));
            Exec(p, s, fuel).out.Normal? && Exec(LowerAll(p), s, fuel).out.OutOfFuel?
  {
    var h, body := EndlessHead(i), Blk({}, [Break]);
    assert [Break][1..] == [];
    assert LowerAllBlk(body) == body;
    assert LowerAll(Loop({}, h, body)) == Block(LowerLoop({}, h, body));
    EndlessStops(i, s, fuel);
    EndlessControl(i, StartOf({}, h, s), fuel);
    OuterVariableAgreesIff({}, h, body, s, fuel);
    var u1 := Enter(s, LowerLoop({}, h, body).decls)[BREAK := 0];
    LowerLoopRuns({}, h, body, s, fuel);
    LoopOutcome(LoweredHead(h, body), LoweredBody(h, body), u1, fuel);
  }
}
