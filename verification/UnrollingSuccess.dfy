// Which programs the unroller expands, told from the program alone: its controls are known
// where they are needed, and its for loops run out within the limit.
module UnrollingSuccess {
  import opened Arithmetic
  import opened Wrappers
  import opened Procedural
  import opened JumpLowering
  import opened JumpLoweringMeaning
  import opened LeakedVariables
  import opened ProgramLowering
  import opened Unrolling
  import opened UnrollingMeaning
  import opened LoopCompilation
  import opened LoopTermination
  import opened ProgramTermination

  // ---------- the variables that code assigns ----------

  function Targets(ss: seq<Stmt>): set<Var>
    decreases ss
  {
    if ss == [] then {} else TargetsStmt(ss[0]) + Targets(ss[1..])
  }

  function TargetsBlk(b: Blk): set<Var>
    decreases b
  {
    Targets(b.stmts) - b.decls
  }

  function TargetsArms(arms: seq<Arm>): set<Var>
    decreases arms
  {
    if arms == [] then {} else TargetsBlk(arms[0].body) + TargetsArms(arms[1..])
  }

  function TargetsStmt(p: Stmt): set<Var>
    decreases p
  {
    match p
    case Assign(v, _) => {v}
    case Block(b) => TargetsBlk(b)
    case Case(_, arms) => TargetsArms(arms)
    case Loop(decls, head, body) => (TargetsBlk(body) + if head.For? then {head.v} else {}) - decls
    case _ => {}
  }

  // A body keeps exactly the variables that it does not assign.
  lemma {:induction false} KeepsIff(ss: seq<Stmt>, v: Var)
    ensures Keeps(ss, v) <==> v !in Targets(ss)
    decreases ss
  {
    if ss != [] {
      KeepsStmtIff(ss[0], v);
      KeepsIff(ss[1..], v);
    }
  }

  lemma {:induction false} KeepsBlkIff(b: Blk, v: Var)
    ensures KeepsBlk(b, v) <==> v !in TargetsBlk(b)
    decreases b
  {
    KeepsIff(b.stmts, v);
  }

  lemma {:induction false} KeepsArmsIff(arms: seq<Arm>, v: Var)
    ensures KeepsArms(arms, v) <==> v !in TargetsArms(arms)
    decreases arms
  {
    if arms != [] {
      KeepsBlkIff(arms[0].body, v);
      KeepsArmsIff(arms[1..], v);
    }
  }

  lemma {:induction false} KeepsStmtIff(p: Stmt, v: Var)
    ensures KeepsStmt(p, v) <==> v !in TargetsStmt(p)
    decreases p
  {
    match p
    case Block(b) => KeepsBlkIff(b, v);
    case Case(_, arms) => KeepsArmsIff(arms, v);
    case Loop(_, _, body) => KeepsBlkIff(body, v);
    case _ =>
  }

  // ---------- programs that can be expanded ----------

  // How many iterations a for loop may have, whether jumps are allowed, and whether every
  // value of a loop variable must fit it.
  datatype Rules = Rules(limit: nat, jumps: bool, fits: bool)

  // env holds the values of the variables of the loops around an expression.
  predicate Known(e: Expr, env: State) {
    Vars(e) <= env.Keys
  }

  predicate Expands(ss: seq<Stmt>, env: State, r: Rules)
    decreases ss, 0, 0
  {
    ss == [] || (ExpandsStmt(ss[0], env, r) && Expands(ss[1..], env, r))
  }

  predicate ExpandsBlk(b: Blk, env: State, r: Rules)
    decreases b, 0, 0
  {
    Expands(b.stmts, env - b.decls, r)
  }

  predicate ExpandsArms(arms: seq<Arm>, env: State, r: Rules)
    decreases arms, 0, 0
  {
    arms == [] || (ExpandsBlk(arms[0].body, env, r) && ExpandsArms(arms[1..], env, r))
  }

  predicate ExpandsStmt(p: Stmt, env: State, r: Rules)
    decreases p, 0, 0
  {
    match p
    case Assign(_, _) => true
    case Block(b) => ExpandsBlk(b, env, r)
    case Case(_, arms) => ExpandsArms(arms, env, r)
    case Loop(decls, head, body) => ExpandsLoop(head, body, env - decls, r)
    case _ => r.jumps
  }

  predicate ExpandsLoop(head: Head, body: Blk, env: State, r: Rules)
    decreases body, 2, 0
  {
    match head
    case While(_) => false
    case Repeat(count) => Known(count, env) && (Eval(count, env) > 0 ==> ExpandsBlk(body, env, r))
    case For(v, init, _, _) =>
      Known(init, env) && v !in TargetsBlk(body) && RunsOut(head, body, env, Eval(init, env), r.limit, r)
  }

  // With x in its variable the loop ends within k iterations, each of which can be expanded.
  predicate RunsOut(h: Head, body: Blk, env: State, x: int, k: nat, r: Rules)
    requires h.For?
    decreases body, 1, k
  {
    var e := env[h.v := x];
    && Known(h.cond, e)
    && if Eval(h.cond, e) == 0 then r.fits ==> Eval(h.cond, env[h.v := Fit(h.v, x)]) == 0
       else
         && k > 0 && (r.fits ==> Fit(h.v, x) == x)
         && ExpandsBlk(body, e, r)
         && Known(h.step, e) && RunsOut(h, body, env, Eval(h.step, e), k - 1, r)
  }

  // ---------- a substituted index is a known one ----------

  lemma {:induction false} SubstKnown(e: Expr, v: Var, n: int, env: State)
    ensures Known(SubstExpr(e, v, n), env) <==> Known(e, env[v := n])
    ensures Eval(SubstExpr(e, v, n), env) == Eval(e, env[v := n])
  {
    match e
    case Const(_) =>
    case Ref(w) =>
    case LogicNot(e1) => SubstKnown(e1, v, n, env);
    case Binary(_, l, r) => SubstKnown(l, v, n, env); SubstKnown(r, v, n, env);
  }

  lemma {:induction false} ConstIsKnown(e: Expr)
    ensures IsConst(e) <==> Known(e, map[])
  {
    match e
    case Const(_) =>
    case Ref(_) =>
    case LogicNot(e1) => ConstIsKnown(e1);
    case Binary(_, l, r) => ConstIsKnown(l); ConstIsKnown(r);
  }

  lemma {:induction false} SubstKeeps(ss: seq<Stmt>, v: Var, n: int, w: Var)
    ensures Keeps(SubstStmts(ss, v, n), w) <==> Keeps(ss, w)
    decreases ss
  {
    if ss != [] {
      assert SubstStmts(ss, v, n)[1..] == SubstStmts(ss[1..], v, n);
      SubstStmtKeeps(ss[0], v, n, w);
      SubstKeeps(ss[1..], v, n, w);
    }
  }

  lemma {:induction false} SubstBlkKeeps(b: Blk, v: Var, n: int, w: Var)
    ensures KeepsBlk(SubstBlk(b, v, n), w) <==> KeepsBlk(b, w)
    decreases b
  {
    SubstKeeps(b.stmts, v, n, w);
  }

  lemma {:induction false} SubstArmsKeep(arms: seq<Arm>, v: Var, n: int, w: Var)
    ensures KeepsArms(SubstArms(arms, v, n), w) <==> KeepsArms(arms, w)
    decreases arms
  {
    if arms != [] {
      assert SubstArms(arms, v, n)[1..] == SubstArms(arms[1..], v, n);
      SubstBlkKeeps(arms[0].body, v, n, w);
      SubstArmsKeep(arms[1..], v, n, w);
    }
  }

  lemma {:induction false} SubstStmtKeeps(p: Stmt, v: Var, n: int, w: Var)
    ensures KeepsStmt(SubstStmt(p, v, n), w) <==> KeepsStmt(p, w)
    decreases p
  {
    match p
    case Block(b) => SubstBlkKeeps(b, v, n, w);
    case Case(_, arms) => SubstArmsKeep(arms, v, n, w);
    case Loop(_, _, body) => SubstBlkKeeps(body, v, n, w);
    case _ =>
  }

  lemma {:induction false} SubstExpands(ss: seq<Stmt>, v: Var, n: int, env: State, r: Rules)
    requires Keeps(ss, v)
    ensures Expands(SubstStmts(ss, v, n), env, r) <==> Expands(ss, env[v := n], r)
    decreases ss, 0, 0
  {
    if ss != [] {
      assert SubstStmts(ss, v, n)[1..] == SubstStmts(ss[1..], v, n);
      SubstStmtExpands(ss[0], v, n, env, r);
      SubstExpands(ss[1..], v, n, env, r);
    }
  }

  lemma {:induction false} SubstBlkExpands(b: Blk, v: Var, n: int, env: State, r: Rules)
    requires KeepsBlk(b, v)
    ensures ExpandsBlk(SubstBlk(b, v, n), env, r) <==> ExpandsBlk(b, env[v := n], r)
    decreases b, 0, 0
  {
    if v in b.decls {
      assert env[v := n] - b.decls == env - b.decls;
    } else {
      assert env[v := n] - b.decls == (env - b.decls)[v := n];
      SubstExpands(b.stmts, v, n, env - b.decls, r);
    }
  }

  lemma {:induction false} SubstArmsExpand(arms: seq<Arm>, v: Var, n: int, env: State, r: Rules)
    requires KeepsArms(arms, v)
    ensures ExpandsArms(SubstArms(arms, v, n), env, r) <==> ExpandsArms(arms, env[v := n], r)
    decreases arms, 0, 0
  {
    if arms != [] {
      assert SubstArms(arms, v, n)[1..] == SubstArms(arms[1..], v, n);
      SubstBlkExpands(arms[0].body, v, n, env, r);
      SubstArmsExpand(arms[1..], v, n, env, r);
    }
  }

  lemma {:induction false} SubstStmtExpands(p: Stmt, v: Var, n: int, env: State, r: Rules)
    requires KeepsStmt(p, v)
    ensures ExpandsStmt(SubstStmt(p, v, n), env, r) <==> ExpandsStmt(p, env[v := n], r)
    decreases p, 0, 0
  {
    match p
    case Block(b) => SubstBlkExpands(b, v, n, env, r);
    case Case(_, arms) => SubstArmsExpand(arms, v, n, env, r);
    case Loop(decls, head, body) =>
      if v in decls {
        assert env[v := n] - decls == env - decls;
      } else {
        assert env[v := n] - decls == (env - decls)[v := n];
        SubstLoopExpands(head, body, v, n, env - decls, r);
      }
    case _ =>
  }

  lemma {:induction false} SubstLoopExpands(head: Head, body: Blk, v: Var, n: int, env: State, r: Rules)
    requires KeepsHead(head, v) && KeepsBlk(body, v)
    ensures ExpandsLoop(SubstHead(head, v, n), SubstBlk(body, v, n), env, r) <==> ExpandsLoop(head, body, env[v := n], r)
    decreases body, 2, 0
  {
    match head
    case While(_) =>
    case Repeat(count) =>
      SubstKnown(count, v, n, env);
      SubstBlkExpands(body, v, n, env, r);
    case For(w, init, _, _) =>
      SubstKnown(init, v, n, env);
      SubstBlkKeeps(body, v, n, w);
      KeepsBlkIff(body, w);
      KeepsBlkIff(SubstBlk(body, v, n), w);
      SubstRunsOut(head, body, v, n, env, Eval(init, env[v := n]), r.limit, r);
  }

  lemma {:induction false} SubstRunsOut(h: Head, body: Blk, v: Var, n: int, env: State, x: int, k: nat, r: Rules)
    requires h.For? && h.v != v && KeepsBlk(body, v)
    ensures RunsOut(SubstHead(h, v, n), SubstBlk(body, v, n), env, x, k, r) <==> RunsOut(h, body, env[v := n], x, k, r)
    decreases body, 1, k
  {
    var e, y := env[h.v := x], Fit(h.v, x);
    assert e[v := n] == env[v := n][h.v := x];
    assert env[h.v := y][v := n] == env[v := n][h.v := y];
    SubstKnown(h.cond, v, n, e);
    SubstKnown(h.cond, v, n, env[h.v := y]);
    SubstKnown(h.step, v, n, e);
    SubstBlkExpands(body, v, n, e, r);
    if k > 0 { SubstRunsOut(h, body, v, n, env, Eval(h.step, e[v := n]), k - 1, r); }
  }

  // ---------- the unroller succeeds on exactly these programs ----------

  lemma {:induction false} UnrollStmtsIff(ss: seq<Stmt>, limit: nat, fits: bool)
    ensures Expands(ss, map[], Rules(limit, false, fits)) <==>
            UnrollStmts(ss, limit).Some? && (fits ==> FitsStmts(ss, limit))
    decreases Size(ss), 0, 0
  {
    if ss != [] {
      UnrollIff(ss[0], limit, fits);
      UnrollStmtsIff(ss[1..], limit, fits);
    }
  }

  lemma {:induction false} UnrollBlkIff(b: Blk, limit: nat, fits: bool)
    ensures ExpandsBlk(b, map[], Rules(limit, false, fits)) <==>
            UnrollBlk(b, limit).Some? && (fits ==> FitsBlk(b, limit))
    decreases SizeBlk(b), 0, 0
  {
    var none: State := map[];
    assert none - b.decls == none;
    UnrollStmtsIff(b.stmts, limit, fits);
  }

  lemma {:induction false} UnrollArmsIff(arms: seq<Arm>, limit: nat, fits: bool)
    ensures ExpandsArms(arms, map[], Rules(limit, false, fits)) <==>
            UnrollArms(arms, limit).Some? && (fits ==> FitsArms(arms, limit))
    decreases SizeArms(arms), 0, 0
  {
    if arms != [] {
      UnrollBlkIff(arms[0].body, limit, fits);
      UnrollArmsIff(arms[1..], limit, fits);
    }
  }

  // Unrolling succeeds, with indices that fit their variables where that is asked for,
  // exactly on the programs that expand.
  lemma {:induction false} UnrollIff(p: Stmt, limit: nat, fits: bool)
    ensures ExpandsStmt(p, map[], Rules(limit, false, fits)) <==>
            UnrollStmt(p, limit).Some? && (fits ==> FitsStmt(p, limit))
    decreases SizeStmt(p), 1, 0
  {
    match p
    case Block(b) => UnrollBlkIff(b, limit, fits);
    case Case(_, arms) => UnrollArmsIff(arms, limit, fits);
    case Loop(decls, head, body) =>
      var none: State := map[];
      assert none - decls == none;
      UnrollLoopIff(decls, head, body, limit, fits);
    case _ =>
  }

  lemma {:induction false} UnrollLoopIff(decls: set<Var>, head: Head, body: Blk, limit: nat, fits: bool)
    ensures ExpandsLoop(head, body, map[], Rules(limit, false, fits)) <==>
            UnrollLoop(head, body, limit).Some? && (fits ==> FitsStmt(Loop(decls, head, body), limit))
    decreases SizeBlk(body), 2, 0
  {
    match head
    case While(_) =>
    case Repeat(count) =>
      ConstIsKnown(count);
      UnrollBlkIff(body, limit, fits);
      RepeatCopiesIff(Value(count), body, limit);
    case For(v, init, _, _) =>
      ConstIsKnown(init);
      KeepsBlkIff(body, v);
      if KeepsBlk(body, v) { ForIff(head, body, Value(init), limit, limit, fits); }
  }

  // A loop by itself, with no loop around it.
  predicate LoopExpands(head: Head, body: Blk, limit: nat) {
    ExpandsStmt(Loop({}, head, body), map[], Rules(limit, false, false))
  }

  lemma {:induction false} LoopSucceedsIff(head: Head, body: Blk, limit: nat)
    ensures LoopExpands(head, body, limit) <==> UnrollLoop(head, body, limit).Some?
  {
    UnrollIff(Loop({}, head, body), limit, false);
  }

  lemma {:induction false} RepeatCopiesIff(n: int, body: Blk, limit: nat)
    ensures RepeatCopies(n, body, limit).Some? <==> (n > 0 ==> UnrollBlk(body, limit).Some?)
    decreases n
  {
    if n > 0 { RepeatCopiesIff(n - 1, body, limit); }
  }

  // All iterations of a for loop from x on.
  ghost predicate ForSucceeds(h: Head, body: Blk, x: int, k: nat, limit: nat, fits: bool)
    requires h.For?
  {
    match ForIndices(h, x, k)
    case None => false
    case Some(ix) =>
      ForCopies(ix.visited, h.v, body, limit).Some? &&
      (fits ==> IndicesFit(h, ix) && FitsCopies(ix.visited, h.v, body, limit))
  }

  lemma {:induction false} ForIff(h: Head, body: Blk, x: int, k: nat, limit: nat, fits: bool)
    requires h.For? && KeepsBlk(body, h.v)
    ensures RunsOut(h, body, map[], x, k, Rules(limit, false, fits)) <==> ForSucceeds(h, body, x, k, limit, fits)
    decreases SizeBlk(body), 1, k
  {
    var none: State, r := map[], Rules(limit, false, fits);
    var e := none[h.v := x];
    ControlKnown(h.cond, h.v, x);
    ControlKnown(h.cond, h.v, Fit(h.v, x));
    ControlKnown(h.step, h.v, x);
    if Known(h.cond, e) && Eval(h.cond, e) != 0 && k > 0 && Known(h.step, e) {
      var next := Eval(h.step, e);
      ForIff(h, body, next, k - 1, limit, fits);
      SubstBlkSize(body, h.v, x);
      UnrollBlkIff(SubstBlk(body, h.v, x), limit, fits);
      SubstBlkExpands(body, h.v, x, none, r);
      ForTurnSucceeds(h, body, x, k, limit, fits, next);
    }
  }

  lemma {:induction false} ControlKnown(e: Expr, v: Var, x: int)
    ensures var env: State := map[v := x];
            (IsConst(SubstExpr(e, v, x)) <==> Known(e, env)) && Value(SubstExpr(e, v, x)) == Eval(e, env)
  {
    var none: State := map[];
    assert none[v := x] == map[v := x];
    SubstKnown(e, v, x, none);
    ConstIsKnown(SubstExpr(e, v, x));
  }

  lemma {:induction false} ForTurnSucceeds(h: Head, body: Blk, x: int, k: nat, limit: nat, fits: bool, next: int)
    requires h.For? && k > 0
    requires var c := SubstExpr(h.cond, h.v, x); IsConst(c) && Value(c) != 0
    requires var st := SubstExpr(h.step, h.v, x); IsConst(st) && Value(st) == next
    ensures var copy := SubstBlk(body, h.v, x);
            ForSucceeds(h, body, x, k, limit, fits) <==>
            && UnrollBlk(copy, limit).Some? && (fits ==> FitsBlk(copy, limit) && Fit(h.v, x) == x)
            && ForSucceeds(h, body, next, k - 1, limit, fits)
  {
    match ForIndices(h, next, k - 1)
    case None =>
    case Some(rest) =>
      var ix := ForIndices(h, x, k).value;
      assert ix.visited == [x] + rest.visited && ix.visited[1..] == rest.visited;
      assert (forall i | 0 <= i < |ix.visited| :: Fit(h.v, ix.visited[i]) == ix.visited[i]) <==>
             Fit(h.v, x) == x && forall i | 0 <= i < |rest.visited| :: Fit(h.v, rest.visited[i]) == rest.visited[i] by {
        assert forall i | 0 <= i < |rest.visited| :: rest.visited[i] == ix.visited[i + 1];
      }
  }

  // ---------- lowering jumps keeps a program expandable ----------

  lemma {:induction false} LowerExpands(ss: seq<Stmt>, env: State, r: Rules)
    requires Expands(ss, env, r)
    ensures Expands(LowerStmts(ss).code, env, r)
    decreases ss
  {
    if ss != [] && !ss[0].Break? && !ss[0].Continue? {
      var head, rest := LowerStmt(ss[0]), LowerStmts(ss[1..]);
      LowerStmtExpands(ss[0], env, r);
      LowerExpands(ss[1..], env, r);
      if head.jumped {
        var none: set<Var>, g := {}, Guard(CONTINUE, Blk({}, rest.code));
        assert env - none == env;
        GuardExpands(CONTINUE, Blk({}, rest.code), env, r);
        assert [head.code, g][1..] == [g] && [g][1..] == [];
      } else {
        assert ([head.code] + rest.code)[1..] == rest.code;
      }
    } else if ss != [] {
      var first, second := SetFlag(CONTINUE, 1), SetFlag(BREAK, 1);
      assert ExpandsStmt(first, env, r) && ExpandsStmt(second, env, r);
      assert [first, second][1..] == [second] && [second][1..] == [] && [first][1..] == [];
    }
  }

  lemma {:induction false} GuardExpands(flag: Var, b: Blk, env: State, r: Rules)
    requires ExpandsBlk(b, env, r)
    ensures ExpandsStmt(Guard(flag, b), env, r)
  {
    assert Guard(flag, b).arms[1..] == [];
  }

  lemma {:induction false} LowerStmtExpands(p: Stmt, env: State, r: Rules)
    requires ExpandsStmt(p, env, r)
    ensures ExpandsStmt(LowerStmt(p).code, env, r)
    decreases p
  {
    match p
    case Block(b) => LowerBlkExpands(b, env, r);
    case Case(_, arms) => LowerArmsExpand(arms, env, r);
    case _ =>
  }

  lemma {:induction false} LowerBlkExpands(b: Blk, env: State, r: Rules)
    requires ExpandsBlk(b, env, r)
    ensures ExpandsBlk(LowerBlk(b).code, env, r)
    decreases b
  {
    LowerExpands(b.stmts, env - b.decls, r);
  }

  lemma {:induction false} LowerArmsExpand(arms: seq<Arm>, env: State, r: Rules)
    requires ExpandsArms(arms, env, r)
    ensures ExpandsArms(LowerArms(arms).code, env, r)
    decreases arms
  {
    if arms != [] {
      var l := LowerArms(arms);
      LowerBlkExpands(arms[0].body, env, r);
      LowerArmsExpand(arms[1..], env, r);
      if arms[0].kind.Exact? && LowerBlk(arms[0].body).jumped {
        assert l.code[1..] == arms[1..];
      } else {
        assert l.code[1..] == LowerArms(arms[1..]).code;
      }
    }
  }

  // The body of a lowered loop.
  lemma {:induction false} LoweredBodyExpands(head: Head, body: Blk, env: State, r: Rules)
    requires ExpandsBlk(body, env, r)
    ensures ExpandsBlk(LoweredBody(head, body), env, r)
  {
    var lb := LoopBody(body);
    LowerBlkExpands(body, env, r);
    assert lb.stmts[1..] == LowerStmts(body.stmts).code;
    assert ExpandsBlk(lb, env, r);
    GuardExpands(BREAK, lb, env, r);
    var none: set<Var> := {};
    assert env - none == env;
    assert [Guard(BREAK, lb)][1..] == [];
  }

  lemma {:induction false} LoweredBodyKeeps(head: Head, body: Blk, v: Var)
    requires KeepsBlk(body, v) && v !in FLAGS
    ensures KeepsBlk(LoweredBody(head, body), v)
  {
    var lb := LoopBody(body);
    LowerBlkKeeps(body, v);
    assert lb.stmts[1..] == LowerStmts(body.stmts).code;
    assert KeepsBlk(lb, v);
    GuardKeeps(BREAK, lb, v);
    assert [Guard(BREAK, lb)][1..] == [];
  }

  lemma {:induction false} LoweredRunsOut(h: Head, body: Blk, env: State, x: int, k: nat, r: Rules)
    requires h.For? && RunsOut(h, body, env, x, k, r)
    ensures RunsOut(h, LoweredBody(h, body), env, x, k, r)
    decreases k
  {
    var e := env[h.v := x];
    if Eval(h.cond, e) != 0 {
      LoweredBodyExpands(h, body, e, r);
      LoweredRunsOut(h, body, env, Eval(h.step, e), k - 1, r);
    }
  }

  lemma {:induction false} LowerLoopExpands(decls: set<Var>, head: Head, body: Blk, env: State, r: Rules)
    requires ExpandsLoop(head, body, env - decls, r) && env.Keys !! FLAGS && AvoidsHead(head, FLAGS)
    ensures ExpandsBlk(LowerLoop(decls, head, body), env, r)
  {
    var low := LowerLoop(decls, head, body);
    var none: set<Var>, e := {}, env - decls;
    assert env - low.decls == e && e - none == e;
    if LowerBlk(body).jumped {
      match head {
        case While(_) =>
        case Repeat(count) => if Eval(count, e) > 0 { LoweredBodyExpands(head, body, e, r); }
        case For(v, init, _, _) =>
          KeepsBlkIff(body, v);
          LoweredBodyKeeps(head, body, v);
          KeepsBlkIff(LoweredBody(head, body), v);
          LoweredRunsOut(head, body, e, Eval(init, e), r.limit, r);
      }
    }
    var last := [low.stmts[|low.stmts| - 1]];
    assert last[1..] == [] && ExpandsStmt(last[0], e, r) && Expands(last, e, r);
    if LowerBlk(body).jumped && LowerBlk(body).broke {
      assert low.stmts[0] == SetFlag(BREAK, 0) && low.stmts[1..] == last;
    } else {
      assert low.stmts == last;
    }
    assert Expands(low.stmts, e, r);
  }

  lemma {:induction false} LowerAllStmtsExpand(ss: seq<Stmt>, env: State, r: Rules)
    requires Expands(ss, env, r) && NoFlags(ss) && env.Keys !! FLAGS
    ensures Expands(LowerAllStmts(ss), env, r)
    decreases ss, 0, 0
  {
    if ss != [] {
      assert LowerAllStmts(ss)[1..] == LowerAllStmts(ss[1..]);
      LowerAllExpands(ss[0], env, r);
      LowerAllStmtsExpand(ss[1..], env, r);
    }
  }

  lemma {:induction false} LowerAllBlkExpands(b: Blk, env: State, r: Rules)
    requires ExpandsBlk(b, env, r) && NoFlagsBlk(b) && env.Keys !! FLAGS
    ensures ExpandsBlk(LowerAllBlk(b), env, r)
    decreases b, 0, 0
  {
    LowerAllStmtsExpand(b.stmts, env - b.decls, r);
  }

  lemma {:induction false} LowerAllArmsExpand(arms: seq<Arm>, env: State, r: Rules)
    requires ExpandsArms(arms, env, r) && NoFlagsArms(arms) && env.Keys !! FLAGS
    ensures ExpandsArms(LowerAllArms(arms), env, r)
    decreases arms, 0, 0
  {
    if arms != [] {
      assert LowerAllArms(arms)[1..] == LowerAllArms(arms[1..]);
      LowerAllBlkExpands(arms[0].body, env, r);
      LowerAllArmsExpand(arms[1..], env, r);
    }
  }

  // Lowering every loop keeps a program expandable under the same rules.
  lemma {:induction false} LowerAllExpands(p: Stmt, env: State, r: Rules)
    requires ExpandsStmt(p, env, r) && NoFlagsStmt(p) && env.Keys !! FLAGS
    ensures ExpandsStmt(LowerAll(p), env, r)
    decreases p, 0, 0
  {
    match p
    case Block(b) => LowerAllBlkExpands(b, env, r);
    case Case(_, arms) => LowerAllArmsExpand(arms, env, r);
    case Loop(decls, head, body) =>
      var e := env - decls;
      match head {
        case While(_) =>
        case Repeat(count) => if Eval(count, e) > 0 { LowerAllBlkExpands(body, e, r); }
        case For(v, init, _, _) =>
          KeepsBlkIff(body, v);
          LowerAllBlkKeeps(body, v);
          KeepsBlkIff(LowerAllBlk(body), v);
          LowerAllRunsOut(head, body, e, Eval(init, e), r.limit, r);
      }
      LowerLoopExpands(decls, head, LowerAllBlk(body), env, r);
    case _ =>
  }

  lemma {:induction false} LowerAllRunsOut(h: Head, body: Blk, env: State, x: int, k: nat, r: Rules)
    requires h.For? && RunsOut(h, body, env, x, k, r)
    requires NoFlagsBlk(body) && env.Keys !! FLAGS && h.v !in FLAGS
    ensures RunsOut(h, LowerAllBlk(body), env, x, k, r)
    decreases body, 1, k
  {
    var e := env[h.v := x];
    if Eval(h.cond, e) != 0 {
      LowerAllBlkExpands(body, e, r);
      LowerAllRunsOut(h, body, env, Eval(h.step, e), k - 1, r);
    }
  }

  // ---------- code without jumps needs no permission for them ----------

  lemma {:induction false} JumplessExpands(ss: seq<Stmt>, env: State, r: Rules)
    requires Expands(ss, env, r) && Jumpless(ss)
    ensures Expands(ss, env, r.(jumps := false))
    decreases ss, 0, 0
  {
    if ss != [] {
      JumplessStmtExpands(ss[0], env, r);
      JumplessExpands(ss[1..], env, r);
    }
  }

  lemma {:induction false} JumplessBlkExpands(b: Blk, env: State, r: Rules)
    requires ExpandsBlk(b, env, r) && JumplessBlk(b)
    ensures ExpandsBlk(b, env, r.(jumps := false))
    decreases b, 0, 0
  {
    JumplessExpands(b.stmts, env - b.decls, r);
  }

  lemma {:induction false} JumplessArmsExpand(arms: seq<Arm>, env: State, r: Rules)
    requires ExpandsArms(arms, env, r) && JumplessArms(arms)
    ensures ExpandsArms(arms, env, r.(jumps := false))
    decreases arms, 0, 0
  {
    if arms != [] {
      JumplessBlkExpands(arms[0].body, env, r);
      JumplessArmsExpand(arms[1..], env, r);
    }
  }

  lemma {:induction false} JumplessStmtExpands(p: Stmt, env: State, r: Rules)
    requires ExpandsStmt(p, env, r) && JumplessStmt(p)
    ensures ExpandsStmt(p, env, r.(jumps := false))
    decreases p, 0, 0
  {
    match p
    case Block(b) => JumplessBlkExpands(b, env, r);
    case Case(_, arms) => JumplessArmsExpand(arms, env, r);
    case Loop(decls, head, body) =>
      var e := env - decls;
      match head {
        case While(_) =>
        case Repeat(count) => if Eval(count, e) > 0 { JumplessBlkExpands(body, e, r); }
        case For(_, init, _, _) => JumplessRunsOut(head, body, e, Eval(init, e), r.limit, r);
      }
    case _ =>
  }

  lemma {:induction false} JumplessRunsOut(h: Head, body: Blk, env: State, x: int, k: nat, r: Rules)
    requires h.For? && RunsOut(h, body, env, x, k, r) && JumplessBlk(body)
    ensures RunsOut(h, body, env, x, k, r.(jumps := false))
    decreases body, 1, k
  {
    var e := env[h.v := x];
    if Eval(h.cond, e) != 0 {
      JumplessBlkExpands(body, e, r);
      JumplessRunsOut(h, body, env, Eval(h.step, e), k - 1, r);
    }
  }

  // ---------- compilation ----------

  // A program whose jumps all belong to supported loops and whose loops expand is
  // compiled; if its indices fit as well, CompileCorrect applies.
  lemma {:induction false} CompileSucceeds(p: Stmt, limit: nat, fits: bool)
    requires NoFlagsStmt(p) && LowerableStmt(p) && !JumpsIn(p) && ExpandsStmt(p, map[], Rules(limit, true, fits))
    ensures Compile(p, limit).Some? && (fits ==> FitsStmt(LowerAll(p), limit))
  {
    var r := Rules(limit, true, fits);
    LowerAllExpands(p, map[], r);
    LoweringRemovesAllJumps(p);
    JumplessStmtExpands(LowerAll(p), map[], r);
    UnrollIff(LowerAll(p), limit, fits);
  }

  // The whole way, with every condition on the program that is compiled.
  lemma {:induction false} CompiledMeans(p: Stmt, limit: nat, s: State, m: nat, fuel: nat)
    requires NoFlagsStmt(p) && LowerableStmt(p) && !JumpsIn(p) && UnreadStmt(p, {})
    requires ExpandsStmt(p, map[], Rules(limit, true, true)) && fuel >= limit * SizeStmt(LowerAll(p))
    ensures Compile(p, limit).Some? && StraightStmt(Compile(p, limit).value)
    ensures BothEnd(AfterStmt(p, {}), Exec(Compile(p, limit).value, s, m), Exec(p, s, fuel))
  {
    CompileSucceeds(p, limit, true);
    CompileCorrect(p, limit, s, m, fuel);
  }

  // ---------- counting loops ----------

  // What CountingFitsIff says of the values from n on.
  predicate CountingFits(v: Var, b: int, c: int, n: int)
    requires c > 0
  {
    if n < b then Lowest(v) <= n && b + (n - b) % c < Limit(v) else Fit(v, n) >= b
  }

  lemma {:induction false} CountingFitsNext(v: Var, b: int, c: int, n: int)
    requires 0 < c <= Pow2(v.width) && n < b
    ensures CountingFits(v, b, c, n) <==> Fit(v, n) == n && CountingFits(v, b, c, n + c)
  {
    StepsAlike(n - b, c);
    FitInRange(v, n);
    FitInRange(v, n + c);
    if n + c >= b { DivUnique(n - b, c, -1, n + c - b); }
  }

  predicate ExpandsWith(body: Blk, env: State, v: Var, x: int, r: Rules) {
    ExpandsBlk(body, env[v := x], r)
  }

  // for (v = a; v < b; v = v + c) with a body that expands for every value from n to b:
  // it runs out exactly when k steps cover the way and, if asked for, the values fit.
  lemma {:induction false} CountingRunsOut(v: Var, a: int, b: int, c: int, body: Blk, env: State, n: int, k: nat, r: Rules)
    requires 0 < c <= Pow2(v.width)
    requires forall x | n <= x < b :: ExpandsWith(body, env, v, x, r)
    ensures RunsOut(Counting(v, a, b, c), body, env, n, k, r) <==> k * c >= b - n && (r.fits ==> CountingFits(v, b, c, n))
    decreases k
  {
    CountingControl(v, a, b, c, env, n);
    CountingControl(v, a, b, c, env, Fit(v, n));
    if n < b && k > 0 {
      assert ExpandsWith(body, env, v, n, r);
      assert k * c == (k - 1) * c + c;
      CountingFitsNext(v, b, c, n);
      CountingRunsOut(v, a, b, c, body, env, n + c, k - 1, r);
    }
  }

  lemma {:induction false} CountingControl(v: Var, a: int, b: int, c: int, env: State, n: int)
    ensures var h, e := Counting(v, a, b, c), env[v := n];
            && Known(h.cond, e) && Eval(h.cond, e) == Truth(n < b)
            && Known(h.step, e) && Eval(h.step, e) == n + c
  {
    var e := env[v := n];
    assert Eval(Ref(v), e) == n && Eval(Const(b), e) == b && Eval(Const(c), e) == c;
    assert Vars(Ref(v)) == {v} && Vars(Const(b)) == {} && Vars(Const(c)) == {};
  }
}
