// Elimination of break and continue (UhdmAst::transform_breaks_continues): jumps become
// assignments to the one-bit flags $break and $continue, and the code they skip is put
// under a guard.
module JumpLowering {
  import opened Procedural

  const BREAK := Var("$break", 1, false)
  const CONTINUE := Var("$continue", 1, false)
  const FLAGS: set<Var> := {BREAK, CONTINUE}

  // ---------- the transformation ----------

  function SetFlag(flag: Var, n: int): Stmt {
    Assign(flag, Const(n))
  }

  // The case statement that runs b only while the flag is clear.
  function Guard(flag: Var, b: Blk): Stmt {
    Case(Ref(flag), [Arm(Exact, [Label(Const(0), {})], b)])
  }

  // Transformed code, whether a jump was found, and whether a break was among the jumps.
  datatype Lowered<T> = Lowered(code: T, jumped: bool, broke: bool)

  // The head statement, then the rest of its block: under a guard if the head may jump.
  function Follow(head: Lowered<Stmt>, rest: Lowered<seq<Stmt>>): Lowered<seq<Stmt>> {
    if head.jumped then
      Lowered([head.code, Guard(CONTINUE, Blk({}, rest.code))], true, head.broke || rest.broke)
    else
      Lowered([head.code] + rest.code, rest.jumped, rest.broke)
  }

  function LowerStmts(ss: seq<Stmt>): Lowered<seq<Stmt>>
    decreases ss
  {
    if ss == [] then Lowered([], false, false)
    else
      match ss[0]
      case Break => Lowered([SetFlag(CONTINUE, 1), SetFlag(BREAK, 1)], true, true)
      case Continue => Lowered([SetFlag(CONTINUE, 1)], true, false)
      case _ => Follow(LowerStmt(ss[0]), LowerStmts(ss[1..]))
  }

  function LowerStmt(p: Stmt): Lowered<Stmt>
    decreases p
  {
    match p
    case Block(b) =>
      var lb := LowerBlk(b);
      Lowered(Block(lb.code), lb.jumped, lb.broke)
    case Case(sel, arms) =>
      var la := LowerArms(arms);
      Lowered(Case(sel, la.code), la.jumped, la.broke)
    case _ => Lowered(p, false, false)
  }

  function LowerBlk(b: Blk): Lowered<Blk>
    decreases b
  {
    var l := LowerStmts(b.stmts);
    Lowered(Blk(b.decls, l.code), l.jumped, l.broke)
  }

  // Only the arms up to the first one that jumps are visited, and casex and casez arms
  // are never visited.
  function LowerArms(arms: seq<Arm>): Lowered<seq<Arm>>
    decreases arms
  {
    if arms == [] then Lowered([], false, false)
    else
      var a := arms[0];
      var lb := LowerBlk(a.body);
      if a.kind.Exact? && lb.jumped then
        Lowered([Arm(a.kind, a.labels, lb.code)] + arms[1..], true, lb.broke)
      else
        var rest := LowerArms(arms[1..]);
        Lowered([a] + rest.code, rest.jumped, rest.broke)
  }

  // The body of a lowered loop: reset $continue, then the transformed statements.
  function LoopBody(body: Blk): Blk {
    Blk(body.decls, [SetFlag(CONTINUE, 0)] + LowerStmts(body.stmts).code)
  }

  // Repeat and for loops with a break run their body only while $break is clear.
  function GuardedBody(body: Blk): Blk {
    Blk({}, [Guard(BREAK, LoopBody(body))])
  }

  function LoweredBody(head: Head, body: Blk): Blk {
    if LowerBlk(body).broke && !head.While? then GuardedBody(body) else LoopBody(body)
  }

  // While loops with a break test $break in their condition.
  function LoweredHead(head: Head, body: Blk): Head {
    if LowerBlk(body).broke && head.While? then While(Binary(LogicAnd, LogicNot(Ref(BREAK)), head.cond)) else head
  }

  // The declaration block of a loop after the transformation.
  function LowerLoop(decls: set<Var>, head: Head, body: Blk): Blk {
    var l := LowerBlk(body);
    var loop := Loop({}, LoweredHead(head, body), LoweredBody(head, body));
    if !l.jumped then Blk(decls, [Loop({}, head, body)])
    else if !l.broke then Blk(decls + {CONTINUE}, [loop])
    else Blk(decls + FLAGS, [SetFlag(BREAK, 0), loop])
  }

  // The front end visits children first, so inner loops are lowered before outer ones.
  function LowerAllStmts(ss: seq<Stmt>): seq<Stmt>
    decreases ss
  {
    if ss == [] then [] else [LowerAll(ss[0])] + LowerAllStmts(ss[1..])
  }

  function LowerAllBlk(b: Blk): Blk
    decreases b
  {
    Blk(b.decls, LowerAllStmts(b.stmts))
  }

  function LowerAllArms(arms: seq<Arm>): seq<Arm>
    decreases arms
  {
    if arms == [] then []
    else [Arm(arms[0].kind, arms[0].labels, LowerAllBlk(arms[0].body))] + LowerAllArms(arms[1..])
  }

  function LowerAll(p: Stmt): Stmt
    decreases p
  {
    match p
    case Block(b) => Block(LowerAllBlk(b))
    case Case(sel, arms) => Case(sel, LowerAllArms(arms))
    case Loop(decls, head, body) => Block(LowerLoop(decls, head, LowerAllBlk(body)))
    case _ => p
  }

  // ---------- jumps in the code ----------

  // A break or continue occurs that belongs to the loop around this code.
  predicate HasJump(ss: seq<Stmt>)
    decreases ss
  {
    ss != [] && (JumpsIn(ss[0]) || HasJump(ss[1..]))
  }

  predicate JumpsInArms(arms: seq<Arm>)
    decreases arms
  {
    arms != [] && (HasJump(arms[0].body.stmts) || JumpsInArms(arms[1..]))
  }

  predicate JumpsIn(p: Stmt)
    decreases p
  {
    match p
    case Break => true
    case Continue => true
    case Block(b) => HasJump(b.stmts)
    case Case(_, arms) => JumpsInArms(arms)
    case _ => false
  }

  // What the transformation handles: up to the first jump of a block, no casex or casez
  // arm jumps and no arm after a jumping arm of the same case jumps.
  predicate Supported(ss: seq<Stmt>)
    decreases ss
  {
    ss == [] || ss[0].Break? || ss[0].Continue? || (SupportedStmt(ss[0]) && Supported(ss[1..]))
  }

  predicate SupportedStmt(p: Stmt)
    decreases p
  {
    match p
    case Block(b) => Supported(b.stmts)
    case Case(_, arms) => SupportedArms(arms)
    case _ => true
  }

  predicate SupportedArms(arms: seq<Arm>)
    decreases arms
  {
    arms == [] ||
    if !HasJump(arms[0].body.stmts) then SupportedArms(arms[1..])
    else arms[0].kind.Exact? && Supported(arms[0].body.stmts) && !JumpsInArms(arms[1..])
  }

  lemma {:induction false} NoJumpUnchanged(ss: seq<Stmt>)
    ensures !LowerStmts(ss).jumped ==> LowerStmts(ss).code == ss && !LowerStmts(ss).broke
    ensures !HasJump(ss) ==> !LowerStmts(ss).jumped && Supported(ss)
    decreases ss
  {
    if ss != [] {
      if ss[0].Break? || ss[0].Continue? {
        assert JumpsIn(ss[0]);
      } else {
        NoJumpStmtUnchanged(ss[0]);
        NoJumpUnchanged(ss[1..]);
      }
    }
  }

  lemma {:induction false} NoJumpStmtUnchanged(p: Stmt)
    requires !p.Break? && !p.Continue?
    ensures !LowerStmt(p).jumped ==> LowerStmt(p).code == p && !LowerStmt(p).broke
    ensures !JumpsIn(p) ==> !LowerStmt(p).jumped && SupportedStmt(p)
    decreases p
  {
    match p
    case Block(b) => NoJumpUnchanged(b.stmts);
    case Case(_, arms) => NoJumpArmsUnchanged(arms);
    case _ =>
  }

  lemma {:induction false} NoJumpArmsUnchanged(arms: seq<Arm>)
    ensures !LowerArms(arms).jumped ==> LowerArms(arms).code == arms && !LowerArms(arms).broke
    ensures !JumpsInArms(arms) ==> !LowerArms(arms).jumped && SupportedArms(arms)
    decreases arms
  {
    if arms != [] {
      var b := arms[0].body;
      NoJumpUnchanged(b.stmts);
      NoJumpArmsUnchanged(arms[1..]);
    }
  }

  // The transformed code is free of jumps exactly when the code is supported, and then
  // a jump was reported exactly when there was one.
  lemma {:induction false} JumpFreeIffSupported(ss: seq<Stmt>)
    ensures !HasJump(LowerStmts(ss).code) <==> Supported(ss)
    ensures Supported(ss) ==> LowerStmts(ss).jumped == HasJump(ss)
    decreases ss
  {
    if ss != [] {
      if ss[0].Break? {
        assert [SetFlag(CONTINUE, 1), SetFlag(BREAK, 1)][1..] == [SetFlag(BREAK, 1)];
        assert !HasJump([SetFlag(BREAK, 1)]);
      } else if ss[0].Continue? {
        assert [SetFlag(CONTINUE, 1)][1..] == [];
      } else {
        JumpFreeStmtIffSupported(ss[0]);
        JumpFreeIffSupported(ss[1..]);
        JumpInFollow(LowerStmt(ss[0]), LowerStmts(ss[1..]));
      }
    }
  }

  lemma {:induction false} JumpInFollow(head: Lowered<Stmt>, rest: Lowered<seq<Stmt>>)
    ensures HasJump(Follow(head, rest).code) <==> JumpsIn(head.code) || HasJump(rest.code)
  {
    var c := Follow(head, rest).code;
    if head.jumped {
      var g := Guard(CONTINUE, Blk({}, rest.code));
      assert c[1..] == [g] && [g][1..] == [];
      assert g.arms[1..] == [];
      assert JumpsInArms(g.arms) == HasJump(rest.code);
      assert JumpsIn(g) == HasJump(rest.code);
      assert HasJump([g]) == JumpsIn(g);
    } else {
      assert c[1..] == rest.code;
    }
  }

  lemma {:induction false} JumpFreeStmtIffSupported(p: Stmt)
    requires !p.Break? && !p.Continue?
    ensures !JumpsIn(LowerStmt(p).code) <==> SupportedStmt(p)
    ensures SupportedStmt(p) ==> LowerStmt(p).jumped == JumpsIn(p)
    decreases p
  {
    match p
    case Block(b) => JumpFreeIffSupported(b.stmts);
    case Case(_, arms) => JumpFreeArmsIffSupported(arms);
    case _ =>
  }

  lemma {:induction false} JumpFreeArmsIffSupported(arms: seq<Arm>)
    ensures !JumpsInArms(LowerArms(arms).code) <==> SupportedArms(arms)
    ensures SupportedArms(arms) ==> LowerArms(arms).jumped == JumpsInArms(arms)
    decreases arms
  {
    if arms != [] {
      var a := arms[0];
      var b := a.body;
      JumpFreeIffSupported(b.stmts);
      NoJumpUnchanged(b.stmts);
      JumpFreeArmsIffSupported(arms[1..]);
      var l := LowerArms(arms);
      assert l.code[1..] == if a.kind.Exact? && LowerBlk(b).jumped then arms[1..] else LowerArms(arms[1..]).code;
    }
  }

  // Two jumping arms are one too many: the second keeps its break.
  lemma {:induction false} SecondJumpingArmIsMissed(sel: Expr, l0: Label, l1: Label)
    ensures var arms := [Arm(Exact, [l0], Blk({}, [Break])), Arm(Exact, [l1], Blk({}, [Break]))];
            !Supported([Case(sel, arms)]) && HasJump(LowerStmts([Case(sel, arms)]).code)
  {
    var arms := [Arm(Exact, [l0], Blk({}, [Break])), Arm(Exact, [l1], Blk({}, [Break]))];
    assert arms[1..][0] == arms[1];
    assert HasJump([Break]) && JumpsInArms(arms[1..]);
    assert !SupportedArms(arms);
    JumpFreeIffSupported([Case(sel, arms)]);
  }

  lemma {:induction false} NoJumpOutcome(ss: seq<Stmt>, s: State, fuel: nat)
    requires !HasJump(ss)
    ensures ExecStmts(ss, s, fuel).out in {Normal, OutOfFuel}
    decreases ss
  {
    if ss != [] {
      NoJumpStmtOutcome(ss[0], s, fuel);
      NoJumpOutcome(ss[1..], Exec(ss[0], s, fuel).state, fuel);
    }
  }

  lemma {:induction false} NoJumpStmtOutcome(p: Stmt, s: State, fuel: nat)
    requires !JumpsIn(p)
    ensures Exec(p, s, fuel).out in {Normal, OutOfFuel}
    decreases p
  {
    match p
    case Block(b) => NoJumpOutcome(b.stmts, Enter(s, b.decls), fuel);
    case Case(sel, arms) =>
      var i := Choose(arms, Eval(sel, s), s);
      if i < |arms| {
        NoJumpInArm(arms, i);
        var b := arms[i].body;
        NoJumpOutcome(b.stmts, Enter(s, b.decls), fuel);
      }
    case Loop(decls, head, body) => LoopOutcome(head, body, Enter(s, decls), fuel);
    case Assign(_, _) =>
  }

  lemma {:induction false} NoJumpInArm(arms: seq<Arm>, i: nat)
    requires !JumpsInArms(arms) && i < |arms|
    ensures !HasJump(arms[i].body.stmts)
  {
    if i > 0 { NoJumpInArm(arms[1..], i - 1); }
  }

  lemma {:induction false} LoopOutcome(head: Head, body: Blk, s: State, fuel: nat)
    ensures ExecLoop(head, body, s, fuel).out in {Normal, OutOfFuel}
  {
    match head
    case While(cond) => WhileOutcome(cond, body, s, fuel);
    case Repeat(count) => RepeatOutcome(Eval(count, s), body, s, fuel);
    case For(v, init, cond, step) => ForOutcome(v, cond, step, body, Store(s, v, Eval(init, s)), fuel);
  }

  lemma {:induction false} WhileOutcome(cond: Expr, body: Blk, s: State, fuel: nat)
    ensures ExecWhile(cond, body, s, fuel).out in {Normal, OutOfFuel}
    decreases fuel
  {
    if Eval(cond, s) != 0 && fuel > 0 { WhileOutcome(cond, body, ExecBlk(body, s, fuel - 1).state, fuel - 1); }
  }

  lemma {:induction false} RepeatOutcome(n: int, body: Blk, s: State, fuel: nat)
    ensures ExecRepeat(n, body, s, fuel).out in {Normal, OutOfFuel}
    decreases n
  {
    if n > 0 { RepeatOutcome(n - 1, body, ExecBlk(body, s, fuel).state, fuel); }
  }

  lemma {:induction false} ForOutcome(v: Var, cond: Expr, step: Expr, body: Blk, s: State, fuel: nat)
    ensures ExecFor(v, cond, step, body, s, fuel).out in {Normal, OutOfFuel}
    decreases fuel
  {
    if Eval(cond, s) != 0 && fuel > 0 {
      var r := ExecBlk(body, s, fuel - 1);
      ForOutcome(v, cond, step, body, Store(r.state, v, Eval(step, r.state)), fuel - 1);
    }
  }
}
