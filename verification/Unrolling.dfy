// Unrolling of for and repeat loops (synlig_simplify) into straight-line code.
module Unrolling {
  import opened Wrappers
  import opened Procedural

  // ---------- constants and substitution ----------

  predicate IsConst(e: Expr) {
    match e
    case Const(_) => true
    case Ref(_) => false
    case LogicNot(e1) => IsConst(e1)
    case Binary(_, l, r) => IsConst(l) && IsConst(r)
  }

  // The value of an expression without variables.
  function Value(e: Expr): int {
    Eval(e, map[])
  }

  // The loop variable is resolved to a constant in every copy of the body.
  function SubstExpr(e: Expr, v: Var, n: int): Expr {
    match e
    case Const(_) => e
    case Ref(w) => if w == v then Const(n) else e
    case LogicNot(e1) => LogicNot(SubstExpr(e1, v, n))
    case Binary(op, l, r) => Binary(op, SubstExpr(l, v, n), SubstExpr(r, v, n))
  }

  function SubstLabels(labels: seq<Label>, v: Var, n: int): seq<Label> {
    seq(|labels|, i requires 0 <= i < |labels| => Label(SubstExpr(labels[i].value, v, n), labels[i].dontCare))
  }

  function SubstHead(h: Head, v: Var, n: int): Head {
    match h
    case While(c) => While(SubstExpr(c, v, n))
    case Repeat(c) => Repeat(SubstExpr(c, v, n))
    case For(w, i, c, st) => For(w, SubstExpr(i, v, n), SubstExpr(c, v, n), SubstExpr(st, v, n))
  }

  function SubstStmts(ss: seq<Stmt>, v: Var, n: int): seq<Stmt>
    decreases ss
  {
    if ss == [] then [] else [SubstStmt(ss[0], v, n)] + SubstStmts(ss[1..], v, n)
  }

  function SubstBlk(b: Blk, v: Var, n: int): Blk
    decreases b
  {
    if v in b.decls then b else Blk(b.decls, SubstStmts(b.stmts, v, n))
  }

  function SubstArms(arms: seq<Arm>, v: Var, n: int): seq<Arm>
    decreases arms
  {
    if arms == [] then []
    else [Arm(arms[0].kind, SubstLabels(arms[0].labels, v, n), SubstBlk(arms[0].body, v, n))] + SubstArms(arms[1..], v, n)
  }

  function SubstStmt(p: Stmt, v: Var, n: int): Stmt
    decreases p
  {
    match p
    case Assign(w, e) => Assign(w, SubstExpr(e, v, n))
    case Block(b) => Block(SubstBlk(b, v, n))
    case Case(sel, arms) => Case(SubstExpr(sel, v, n), SubstArms(arms, v, n))
    case Loop(decls, head, body) =>
      if v in decls then p else Loop(decls, SubstHead(head, v, n), SubstBlk(body, v, n))
    case _ => p
  }

  // ---------- code that does not assign the loop variable ----------

  predicate Keeps(ss: seq<Stmt>, v: Var)
    decreases ss
  {
    ss == [] || (KeepsStmt(ss[0], v) && Keeps(ss[1..], v))
  }

  predicate KeepsBlk(b: Blk, v: Var)
    decreases b
  {
    v in b.decls || Keeps(b.stmts, v)
  }

  predicate KeepsArms(arms: seq<Arm>, v: Var)
    decreases arms
  {
    arms == [] || (KeepsBlk(arms[0].body, v) && KeepsArms(arms[1..], v))
  }

  predicate KeepsHead(h: Head, v: Var) {
    h.For? ==> h.v != v
  }

  predicate KeepsStmt(p: Stmt, v: Var)
    decreases p
  {
    match p
    case Assign(w, _) => w != v
    case Block(b) => KeepsBlk(b, v)
    case Case(_, arms) => KeepsArms(arms, v)
    case Loop(decls, head, body) => v in decls || (KeepsHead(head, v) && KeepsBlk(body, v))
    case _ => true
  }

  // ---------- substitution does not change the size of code ----------

  lemma {:induction false} SubstSize(ss: seq<Stmt>, v: Var, n: int)
    ensures Size(SubstStmts(ss, v, n)) == Size(ss)
    decreases ss
  {
    if ss != [] {
      assert SubstStmts(ss, v, n)[1..] == SubstStmts(ss[1..], v, n);
      SubstStmtSize(ss[0], v, n);
      SubstSize(ss[1..], v, n);
    }
  }

  lemma {:induction false} SubstBlkSize(b: Blk, v: Var, n: int)
    ensures SizeBlk(SubstBlk(b, v, n)) == SizeBlk(b)
    decreases b
  {
    SubstSize(b.stmts, v, n);
  }

  lemma {:induction false} SubstArmsSize(arms: seq<Arm>, v: Var, n: int)
    ensures SizeArms(SubstArms(arms, v, n)) == SizeArms(arms)
    decreases arms
  {
    if arms != [] {
      assert SubstArms(arms, v, n)[1..] == SubstArms(arms[1..], v, n);
      SubstBlkSize(arms[0].body, v, n);
      SubstArmsSize(arms[1..], v, n);
    }
  }

  lemma {:induction false} SubstStmtSize(p: Stmt, v: Var, n: int)
    ensures SizeStmt(SubstStmt(p, v, n)) == SizeStmt(p)
    decreases p
  {
    match p
    case Block(b) => SubstBlkSize(b, v, n);
    case Case(_, arms) => SubstArmsSize(arms, v, n);
    case Loop(_, _, body) => SubstBlkSize(body, v, n);
    case _ =>
  }

  // ---------- the unroller ----------

  // The values a for loop visits, and the value at which its condition fails.
  datatype Indices = Indices(visited: seq<int>, last: int)

  // The condition and the step are folded to constants with the variable at n; n itself is
  // never truncated to the width of the variable. At most limit iterations are unrolled.
  function ForIndices(h: Head, n: int, limit: nat): Option<Indices>
    requires h.For?
    decreases limit
  {
    var c, st := SubstExpr(h.cond, h.v, n), SubstExpr(h.step, h.v, n);
    if !IsConst(c) then None
    else if Value(c) == 0 then Some(Indices([], n))
    else if limit == 0 || !IsConst(st) then None
    else
      match ForIndices(h, Value(st), limit - 1)
      case None => None
      case Some(rest) => Some(Indices([n] + rest.visited, rest.last))
  }

  function UnrollStmts(ss: seq<Stmt>, limit: nat): Option<seq<Stmt>>
    decreases Size(ss), 0, 0
  {
    if ss == [] then Some([])
    else
      match (UnrollStmt(ss[0], limit), UnrollStmts(ss[1..], limit))
      case (Some(p), Some(rest)) => Some([p] + rest)
      case _ => None
  }

  function UnrollBlk(b: Blk, limit: nat): Option<Blk>
    decreases SizeBlk(b), 0, 0
  {
    match UnrollStmts(b.stmts, limit)
    case Some(ss) => Some(Blk(b.decls, ss))
    case None => None
  }

  function UnrollArms(arms: seq<Arm>, limit: nat): Option<seq<Arm>>
    decreases SizeArms(arms), 0, 0
  {
    if arms == [] then Some([])
    else
      match (UnrollBlk(arms[0].body, limit), UnrollArms(arms[1..], limit))
      case (Some(b), Some(rest)) => Some([Arm(arms[0].kind, arms[0].labels, b)] + rest)
      case _ => None
  }

  // Loops become blocks; while loops, loops whose control does not fold to constants, and
  // bodies that assign the loop variable are refused.
  function UnrollStmt(p: Stmt, limit: nat): Option<Stmt>
    decreases SizeStmt(p), 1, 0
  {
    match p
    case Assign(_, _) => Some(p)
    case Block(b) =>
      (match UnrollBlk(b, limit)
       case Some(b') => Some(Block(b'))
       case None => None)
    case Case(sel, arms) =>
      (match UnrollArms(arms, limit)
       case Some(arms') => Some(Case(sel, arms'))
       case None => None)
    case Loop(decls, head, body) =>
      (match UnrollLoop(head, body, limit)
       case Some(ss) => Some(Block(Blk(decls, ss)))
       case None => None)
    case _ => None
  }

  function UnrollLoop(head: Head, body: Blk, limit: nat): Option<seq<Stmt>>
    decreases SizeBlk(body), 2, 0
  {
    match head
    case While(_) => None
    case Repeat(count) => if IsConst(count) then RepeatCopies(Value(count), body, limit) else None
    case For(v, init, cond, step) =>
      if !IsConst(init) || !KeepsBlk(body, v) then None
      else
        match ForIndices(head, Value(init), limit)
        case None => None
        case Some(ix) =>
          match ForCopies(ix.visited, v, body, limit)
          case None => None
          case Some(copies) => Some(copies + [Assign(v, Const(ix.last))])
  }

  function RepeatCopies(n: int, body: Blk, limit: nat): Option<seq<Stmt>>
    decreases SizeBlk(body), 1, n
  {
    if n <= 0 then Some([])
    else
      match (UnrollBlk(body, limit), RepeatCopies(n - 1, body, limit))
      case (Some(b), Some(rest)) => Some([Block(b)] + rest)
      case _ => None
  }

  function ForCopies(visited: seq<int>, v: Var, body: Blk, limit: nat): Option<seq<Stmt>>
    decreases SizeBlk(body), 1, |visited|
  {
    if visited == [] then Some([])
    else
      SubstBlkSize(body, v, visited[0]);
      match (UnrollBlk(SubstBlk(body, v, visited[0]), limit), ForCopies(visited[1..], v, body, limit))
      case (Some(b), Some(rest)) => Some([Block(b)] + rest)
      case _ => None
  }

  // ---------- substitution keeps the meaning ----------

  lemma {:induction false} SubstEval(e: Expr, v: Var, n: int, s: State)
    requires Get(s, v) == n
    ensures Eval(SubstExpr(e, v, n), s) == Eval(e, s)
  {
    match e
    case LogicNot(e1) => SubstEval(e1, v, n, s);
    case Binary(_, l, r) => SubstEval(l, v, n, s); SubstEval(r, v, n, s);
    case _ =>
  }

  lemma {:induction false} ConstEval(e: Expr, s: State)
    requires IsConst(e)
    ensures Eval(e, s) == Value(e)
  {
    match e
    case LogicNot(e1) => ConstEval(e1, s);
    case Binary(_, l, r) => ConstEval(l, s); ConstEval(r, s);
    case _ =>
  }

  lemma {:induction false} SubstChoice(arms: seq<Arm>, v: Var, n: int, x: int, s: State)
    requires Get(s, v) == n
    ensures |SubstArms(arms, v, n)| == |arms|
    ensures FirstMatch(SubstArms(arms, v, n), x, s) == FirstMatch(arms, x, s)
    ensures FirstDefault(SubstArms(arms, v, n)) == FirstDefault(arms)
    ensures forall i | 0 <= i < |arms| :: SubstArms(arms, v, n)[i].body == SubstBlk(arms[i].body, v, n)
    decreases arms
  {
    if arms != [] {
      SubstChoice(arms[1..], v, n, x, s);
      var l := SubstArms(arms, v, n);
      assert l[1..] == SubstArms(arms[1..], v, n);
      forall i | 0 <= i < |arms[0].labels|
        ensures LabelMatches(l[0].kind, l[0].labels[i], x, s) == LabelMatches(arms[0].kind, arms[0].labels[i], x, s)
      {
        SubstEval(arms[0].labels[i].value, v, n, s);
      }
      assert ArmMatches(l[0], x, s) == ArmMatches(arms[0], x, s);
      assert l[0].labels == [] <==> arms[0].labels == [];
    }
  }

  lemma {:induction false} KeepsArmAt(arms: seq<Arm>, v: Var, i: nat)
    requires KeepsArms(arms, v) && i < |arms|
    ensures KeepsBlk(arms[i].body, v)
  {
    if i > 0 { KeepsArmAt(arms[1..], v, i - 1); }
  }

  // Replacing the variable by the value it holds changes nothing in code that does not
  // assign it, and such code leaves the value in place.
  lemma {:induction false} SubstMeans(ss: seq<Stmt>, v: Var, n: int, s: State, fuel: nat)
    requires Keeps(ss, v) && Get(s, v) == n
    ensures ExecStmts(SubstStmts(ss, v, n), s, fuel) == ExecStmts(ss, s, fuel)
    ensures Get(ExecStmts(ss, s, fuel).state, v) == n
    decreases fuel, ss
  {
    if ss != [] {
      assert SubstStmts(ss, v, n)[1..] == SubstStmts(ss[1..], v, n);
      SubstStmtMeans(ss[0], v, n, s, fuel);
      SubstMeans(ss[1..], v, n, Exec(ss[0], s, fuel).state, fuel);
    }
  }

  lemma {:induction false} SubstBlkMeans(b: Blk, v: Var, n: int, s: State, fuel: nat)
    requires KeepsBlk(b, v) && Get(s, v) == n
    ensures ExecBlk(SubstBlk(b, v, n), s, fuel) == ExecBlk(b, s, fuel)
    ensures Get(ExecBlk(b, s, fuel).state, v) == n
    decreases fuel, b, 0, 0
  {
    if v !in b.decls { SubstMeans(b.stmts, v, n, Enter(s, b.decls), fuel); }
  }

  lemma {:induction false} SubstStmtMeans(p: Stmt, v: Var, n: int, s: State, fuel: nat)
    requires KeepsStmt(p, v) && Get(s, v) == n
    ensures Exec(SubstStmt(p, v, n), s, fuel) == Exec(p, s, fuel)
    ensures Get(Exec(p, s, fuel).state, v) == n
    decreases fuel, p
  {
    match p
    case Assign(_, e) => SubstEval(e, v, n, s);
    case Block(b) => SubstBlkMeans(b, v, n, s, fuel);
    case Case(sel, arms) =>
      SubstEval(sel, v, n, s);
      SubstChoice(arms, v, n, Eval(sel, s), s);
      var i := Choose(arms, Eval(sel, s), s);
      if i < |arms| {
        KeepsArmAt(arms, v, i);
        SubstBlkMeans(arms[i].body, v, n, s, fuel);
      }
    case Loop(decls, head, body) =>
      if v !in decls { SubstLoopMeans(head, body, v, n, Enter(s, decls), fuel); }
    case _ =>
  }

  lemma {:induction false} SubstLoopMeans(head: Head, body: Blk, v: Var, n: int, s: State, fuel: nat)
    requires KeepsHead(head, v) && KeepsBlk(body, v) && Get(s, v) == n
    ensures ExecLoop(SubstHead(head, v, n), SubstBlk(body, v, n), s, fuel) == ExecLoop(head, body, s, fuel)
    ensures Get(ExecLoop(head, body, s, fuel).state, v) == n
    decreases fuel, body, 2, 0
  {
    match head
    case While(cond) => SubstWhileMeans(cond, body, v, n, s, fuel);
    case Repeat(count) =>
      SubstEval(count, v, n, s);
      SubstRepeatMeans(Eval(count, s), body, v, n, s, fuel);
    case For(w, init, cond, step) =>
      SubstEval(init, v, n, s);
      SubstForMeans(head, body, v, n, Store(s, w, Eval(init, s)), fuel);
  }

  lemma {:induction false} SubstWhileMeans(cond: Expr, body: Blk, v: Var, n: int, s: State, fuel: nat)
    requires KeepsBlk(body, v) && Get(s, v) == n
    ensures ExecWhile(SubstExpr(cond, v, n), SubstBlk(body, v, n), s, fuel) == ExecWhile(cond, body, s, fuel)
    ensures Get(ExecWhile(cond, body, s, fuel).state, v) == n
    decreases fuel, body, 1, 0
  {
    SubstEval(cond, v, n, s);
    if Eval(cond, s) != 0 && fuel > 0 {
      SubstBlkMeans(body, v, n, s, fuel - 1);
      SubstWhileMeans(cond, body, v, n, ExecBlk(body, s, fuel - 1).state, fuel - 1);
    }
  }

  lemma {:induction false} SubstRepeatMeans(m: int, body: Blk, v: Var, n: int, s: State, fuel: nat)
    requires KeepsBlk(body, v) && Get(s, v) == n
    ensures ExecRepeat(m, SubstBlk(body, v, n), s, fuel) == ExecRepeat(m, body, s, fuel)
    ensures Get(ExecRepeat(m, body, s, fuel).state, v) == n
    decreases fuel, body, 1, m
  {
    if m > 0 {
      SubstBlkMeans(body, v, n, s, fuel);
      SubstRepeatMeans(m - 1, body, v, n, ExecBlk(body, s, fuel).state, fuel);
    }
  }

  lemma {:induction false} SubstForMeans(h: Head, body: Blk, v: Var, n: int, s: State, fuel: nat)
    requires h.For? && h.v != v && KeepsBlk(body, v) && Get(s, v) == n
    ensures ExecFor(h.v, SubstExpr(h.cond, v, n), SubstExpr(h.step, v, n), SubstBlk(body, v, n), s, fuel)
            == ExecFor(h.v, h.cond, h.step, body, s, fuel)
    ensures Get(ExecFor(h.v, h.cond, h.step, body, s, fuel).state, v) == n
    decreases fuel, body, 1, 0
  {
    SubstEval(h.cond, v, n, s);
    if Eval(h.cond, s) != 0 && fuel > 0 {
      SubstBlkMeans(body, v, n, s, fuel - 1);
      var r := ExecBlk(body, s, fuel - 1);
      SubstEval(h.step, v, n, r.state);
      SubstForMeans(h, body, v, n, Store(r.state, h.v, Eval(h.step, r.state)), fuel - 1);
    }
  }

  // ---------- a copy no longer mentions the variable ----------

  lemma {:induction false} SubstExprAvoids(e: Expr, v: Var, n: int)
    ensures AvoidsExpr(SubstExpr(e, v, n), {v})
  {
    match e
    case LogicNot(e1) => SubstExprAvoids(e1, v, n);
    case Binary(_, l, r) => SubstExprAvoids(l, v, n); SubstExprAvoids(r, v, n);
    case _ =>
  }

  lemma {:induction false} SubstAvoids(ss: seq<Stmt>, v: Var, n: int)
    requires Keeps(ss, v)
    ensures AvoidsStmts(SubstStmts(ss, v, n), {v})
    decreases ss
  {
    if ss != [] {
      assert SubstStmts(ss, v, n)[1..] == SubstStmts(ss[1..], v, n);
      SubstStmtAvoids(ss[0], v, n);
      SubstAvoids(ss[1..], v, n);
    }
  }

  lemma {:induction false} SubstBlkAvoids(b: Blk, v: Var, n: int)
    requires KeepsBlk(b, v)
    ensures AvoidsBlk(SubstBlk(b, v, n), {v})
    decreases b
  {
    if v in b.decls {
      assert {v} - b.decls == {};
      AvoidsNothing(b.stmts);
    } else {
      assert {v} - b.decls == {v};
      SubstAvoids(b.stmts, v, n);
    }
  }

  lemma {:induction false} SubstArmsAvoids(arms: seq<Arm>, v: Var, n: int)
    requires KeepsArms(arms, v)
    ensures AvoidsArms(SubstArms(arms, v, n), {v})
    decreases arms
  {
    if arms != [] {
      assert SubstArms(arms, v, n)[1..] == SubstArms(arms[1..], v, n);
      forall e { SubstExprAvoids(e, v, n); }
      SubstBlkAvoids(arms[0].body, v, n);
      SubstArmsAvoids(arms[1..], v, n);
    }
  }

  lemma {:induction false} SubstStmtAvoids(p: Stmt, v: Var, n: int)
    requires KeepsStmt(p, v)
    ensures AvoidsStmt(SubstStmt(p, v, n), {v})
    decreases p
  {
    forall e { SubstExprAvoids(e, v, n); }
    match p
    case Block(b) => SubstBlkAvoids(b, v, n);
    case Case(_, arms) => SubstArmsAvoids(arms, v, n);
    case Loop(decls, head, body) =>
      if v in decls {
        assert {v} - decls == {};
        AvoidsNothingHead(head);
        AvoidsNothingBlk(body);
      } else {
        assert {v} - decls == {v};
        SubstBlkAvoids(body, v, n);
      }
    case _ =>
  }
}
