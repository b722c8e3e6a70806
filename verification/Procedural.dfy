// Procedural SystemVerilog code as the front end builds it: blocks with local
// declarations, case statements, loops and jumps, with a big-step semantics.
// Loops and jumps mean what sections 12.7 and 12.8 of IEEE 1800-2017 say.
module Procedural {
  import opened Arithmetic

  // A variable carries its declared width and signedness, so that a store can truncate.
  datatype Var = Var(id: string, width: nat, signed: bool)

  datatype Op = Add | Sub | Mul | Less | Equal | LogicAnd

  datatype Expr =
    | Const(n: int)
    | Ref(v: Var)
    | LogicNot(e: Expr)
    | Binary(op: Op, l: Expr, r: Expr)

  // The label of a case arm; the bits in dontCare are ignored by casex and casez.
  datatype Label = Label(value: Expr, dontCare: set<nat>)

  datatype ArmKind = Exact | Wild

  // One arm of a case statement. An arm without labels is the default arm.
  datatype Arm = Arm(kind: ArmKind, labels: seq<Label>, body: Blk)

  datatype Blk = Blk(decls: set<Var>, stmts: seq<Stmt>)

  datatype Head =
    | While(cond: Expr)
    | Repeat(count: Expr)
    | For(v: Var, init: Expr, cond: Expr, step: Expr)

  // A loop owns the declaration block the front end puts around it; decls are the
  // variables declared there, as in "for (int i = 0; ...)".
  datatype Stmt =
    | Assign(v: Var, e: Expr)
    | Block(b: Blk)
    | Case(sel: Expr, arms: seq<Arm>)
    | Loop(decls: set<Var>, head: Head, body: Blk)
    | Break
    | Continue

  // ---------- values and states ----------

  type State = map<Var, int>

  function Get(s: State, v: Var): int {
    if v in s then s[v] else 0
  }

  // The value a variable holds after n is stored in it.
  function Fit(v: Var, n: int): int {
    var m := Pow2(v.width);
    var u := n % m;
    if v.signed && 2 * u >= m then u - m else u
  }

  function Store(s: State, v: Var, n: int): State {
    s[v := Fit(v, n)]
  }

  function Truth(b: bool): int {
    if b then 1 else 0
  }

  function Apply(op: Op, x: int, y: int): int {
    match op
    case Add => x + y
    case Sub => x - y
    case Mul => x * y
    case Less => Truth(x < y)
    case Equal => Truth(x == y)
    case LogicAnd => Truth(x != 0 && y != 0)
  }

  function Eval(e: Expr, s: State): int {
    match e
    case Const(n) => n
    case Ref(v) => Get(s, v)
    case LogicNot(e1) => Truth(Eval(e1, s) == 0)
    case Binary(op, l, r) => Apply(op, Eval(l, s), Eval(r, s))
  }

  // Entering a scope hides the outer variables it redeclares; leaving it restores them.
  function Enter(s: State, decls: set<Var>): State {
    s - decls
  }

  function Leave(t: State, s: State, decls: set<Var>): State {
    (t - decls) + (map v | v in decls && v in s :: s[v])
  }

  // ---------- choosing a case arm ----------

  predicate SameBits(x: int, y: int, dontCare: set<nat>) {
    forall i: nat | i < 32 && i !in dontCare :: (x / Pow2(i)) % 2 == (y / Pow2(i)) % 2
  }

  predicate LabelMatches(kind: ArmKind, l: Label, x: int, s: State) {
    match kind
    case Exact => Eval(l.value, s) == x
    case Wild => SameBits(Eval(l.value, s), x, l.dontCare)
  }

  predicate ArmMatches(a: Arm, x: int, s: State) {
    exists i | 0 <= i < |a.labels| :: LabelMatches(a.kind, a.labels[i], x, s)
  }

  function FirstMatch(arms: seq<Arm>, x: int, s: State): (i: nat)
    ensures i <= |arms|
  {
    if arms == [] || ArmMatches(arms[0], x, s) then 0 else 1 + FirstMatch(arms[1..], x, s)
  }

  function FirstDefault(arms: seq<Arm>): (i: nat)
    ensures i <= |arms|
  {
    if arms == [] || arms[0].labels == [] then 0 else 1 + FirstDefault(arms[1..])
  }

  // The index of the arm that is taken: the first that matches, or else the default
  // arm wherever it stands; |arms| when there is neither.
  function Choose(arms: seq<Arm>, x: int, s: State): (i: nat)
    ensures i <= |arms|
  {
    var i := FirstMatch(arms, x, s);
    if i < |arms| then i else FirstDefault(arms)
  }

  // ---------- execution ----------

  datatype Outcome = Normal | Broke | Continued | OutOfFuel

  datatype Result = Result(state: State, out: Outcome)

  // Fuel bounds the iterations of while and for loops along one nest; a run that ends
  // with any outcome but OutOfFuel is a complete run of the program.
  function ExecStmts(ss: seq<Stmt>, s: State, fuel: nat): Result
    decreases fuel, ss
  {
    if ss == [] then Result(s, Normal)
    else
      var r := Exec(ss[0], s, fuel);
      if r.out.Normal? then ExecStmts(ss[1..], r.state, fuel) else r
  }

  function ExecBlk(b: Blk, s: State, fuel: nat): Result
    decreases fuel, b, 0, 0
  {
    var r := ExecStmts(b.stmts, Enter(s, b.decls), fuel);
    Result(Leave(r.state, s, b.decls), r.out)
  }

  function Exec(p: Stmt, s: State, fuel: nat): Result
    decreases fuel, p
  {
    match p
    case Assign(v, e) => Result(Store(s, v, Eval(e, s)), Normal)
    case Block(b) => ExecBlk(b, s, fuel)
    case Case(sel, arms) =>
      var i := Choose(arms, Eval(sel, s), s);
      if i < |arms| then ExecBlk(arms[i].body, s, fuel) else Result(s, Normal)
    case Loop(decls, head, body) =>
      var r := ExecLoop(head, body, Enter(s, decls), fuel);
      Result(Leave(r.state, s, decls), r.out)
    case Break => Result(s, Broke)
    case Continue => Result(s, Continued)
  }

  function ExecLoop(head: Head, body: Blk, s: State, fuel: nat): Result
    decreases fuel, body, 2, 0
  {
    match head
    case While(cond) => ExecWhile(cond, body, s, fuel)
    case Repeat(count) => ExecRepeat(Eval(count, s), body, s, fuel)
    case For(v, init, cond, step) => ExecFor(v, cond, step, body, Store(s, v, Eval(init, s)), fuel)
  }

  function ExecWhile(cond: Expr, body: Blk, s: State, fuel: nat): Result
    decreases fuel, body, 1, 0
  {
    if Eval(cond, s) == 0 then Result(s, Normal)
    else if fuel == 0 then Result(s, OutOfFuel)
    else
      var r := ExecBlk(body, s, fuel - 1);
      match r.out
      case Broke => Result(r.state, Normal)
      case OutOfFuel => r
      case _ => ExecWhile(cond, body, r.state, fuel - 1)
  }

  function ExecRepeat(n: int, body: Blk, s: State, fuel: nat): Result
    decreases fuel, body, 1, n
  {
    if n <= 0 then Result(s, Normal)
    else
      var r := ExecBlk(body, s, fuel);
      match r.out
      case Broke => Result(r.state, Normal)
      case OutOfFuel => r
      case _ => ExecRepeat(n - 1, body, r.state, fuel)
  }

  function ExecFor(v: Var, cond: Expr, step: Expr, body: Blk, s: State, fuel: nat): Result
    decreases fuel, body, 1, 0
  {
    if Eval(cond, s) == 0 then Result(s, Normal)
    else if fuel == 0 then Result(s, OutOfFuel)
    else
      var r := ExecBlk(body, s, fuel - 1);
      match r.out
      case Broke => Result(r.state, Normal)
      case OutOfFuel => r
      case _ => ExecFor(v, cond, step, body, Store(r.state, v, Eval(step, r.state)), fuel - 1)
  }

  // ---------- the size of code ----------

  function Size(ss: seq<Stmt>): nat
    decreases ss
  {
    if ss == [] then 0 else 1 + SizeStmt(ss[0]) + Size(ss[1..])
  }

  function SizeBlk(b: Blk): nat
    decreases b
  {
    1 + Size(b.stmts)
  }

  function SizeArms(arms: seq<Arm>): nat
    decreases arms
  {
    if arms == [] then 0 else 1 + SizeBlk(arms[0].body) + SizeArms(arms[1..])
  }

  function SizeStmt(p: Stmt): nat
    decreases p
  {
    match p
    case Block(b) => 1 + SizeBlk(b)
    case Case(_, arms) => 1 + SizeArms(arms)
    case Loop(_, _, body) => 1 + SizeBlk(body)
    case _ => 0
  }

  lemma {:induction false} SizeAt(ss: seq<Stmt>, i: nat)
    requires i < |ss|
    ensures Size(ss) > SizeStmt(ss[i]) + Size(ss[i + 1..])
  {
    if i > 0 {
      SizeAt(ss[1..], i - 1);
      assert ss[1..][i..] == ss[i + 1..];
    }
  }

  lemma {:induction false} SizeArmAt(arms: seq<Arm>, i: nat)
    requires i < |arms|
    ensures SizeArms(arms) > SizeBlk(arms[i].body)
  {
    if i > 0 { SizeArmAt(arms[1..], i - 1); }
  }

  // ---------- comparing states ----------

  // The two states hold the same value in every variable outside xs.
  ghost predicate Same(s: State, t: State, xs: set<Var>) {
    forall v | v !in xs :: Get(s, v) == Get(t, v)
  }

  // ---------- variables that occur free ----------

  predicate AvoidsExpr(e: Expr, xs: set<Var>) {
    match e
    case Const(_) => true
    case Ref(v) => v !in xs
    case LogicNot(e1) => AvoidsExpr(e1, xs)
    case Binary(_, l, r) => AvoidsExpr(l, xs) && AvoidsExpr(r, xs)
  }

  predicate AvoidsLabels(labels: seq<Label>, xs: set<Var>) {
    forall i | 0 <= i < |labels| :: AvoidsExpr(labels[i].value, xs)
  }

  predicate AvoidsHead(h: Head, xs: set<Var>) {
    match h
    case While(c) => AvoidsExpr(c, xs)
    case Repeat(c) => AvoidsExpr(c, xs)
    case For(v, i, c, st) => v !in xs && AvoidsExpr(i, xs) && AvoidsExpr(c, xs) && AvoidsExpr(st, xs)
  }

  // No variable of xs occurs free in the code; a declaration binds its variable.
  predicate AvoidsStmts(ss: seq<Stmt>, xs: set<Var>)
    decreases ss
  {
    ss == [] || (AvoidsStmt(ss[0], xs) && AvoidsStmts(ss[1..], xs))
  }

  predicate AvoidsBlk(b: Blk, xs: set<Var>)
    decreases b
  {
    AvoidsStmts(b.stmts, xs - b.decls)
  }

  predicate AvoidsArms(arms: seq<Arm>, xs: set<Var>)
    decreases arms
  {
    arms == [] ||
    (AvoidsLabels(arms[0].labels, xs) && AvoidsBlk(arms[0].body, xs) && AvoidsArms(arms[1..], xs))
  }

  predicate AvoidsStmt(p: Stmt, xs: set<Var>)
    decreases p
  {
    match p
    case Assign(v, e) => v !in xs && AvoidsExpr(e, xs)
    case Block(b) => AvoidsBlk(b, xs)
    case Case(sel, arms) => AvoidsExpr(sel, xs) && AvoidsArms(arms, xs)
    case Loop(decls, head, body) => AvoidsHead(head, xs - decls) && AvoidsBlk(body, xs - decls)
    case Break => true
    case Continue => true
  }

  // ---------- what code that avoids xs can see and touch ----------

  lemma {:induction false} EvalAvoids(e: Expr, xs: set<Var>, s: State, t: State)
    requires AvoidsExpr(e, xs) && Same(s, t, xs)
    ensures Eval(e, s) == Eval(e, t)
  {
    match e
    case Const(_) =>
    case Ref(_) =>
    case LogicNot(e1) => EvalAvoids(e1, xs, s, t);
    case Binary(_, l, r) => EvalAvoids(l, xs, s, t); EvalAvoids(r, xs, s, t);
  }

  lemma {:induction false} ArmAvoids(a: Arm, xs: set<Var>, x: int, s: State, t: State)
    requires AvoidsLabels(a.labels, xs) && Same(s, t, xs)
    ensures ArmMatches(a, x, s) == ArmMatches(a, x, t)
  {
    forall i | 0 <= i < |a.labels|
      ensures LabelMatches(a.kind, a.labels[i], x, s) == LabelMatches(a.kind, a.labels[i], x, t)
    {
      EvalAvoids(a.labels[i].value, xs, s, t);
    }
  }

  lemma {:induction false} FirstMatchAvoids(arms: seq<Arm>, xs: set<Var>, x: int, s: State, t: State)
    requires AvoidsArms(arms, xs) && Same(s, t, xs)
    ensures FirstMatch(arms, x, s) == FirstMatch(arms, x, t)
  {
    if arms != [] {
      ArmAvoids(arms[0], xs, x, s, t);
      FirstMatchAvoids(arms[1..], xs, x, s, t);
    }
  }

  lemma {:induction false} AvoidsArmAt(arms: seq<Arm>, xs: set<Var>, i: nat)
    requires AvoidsArms(arms, xs) && i < |arms|
    ensures AvoidsLabels(arms[i].labels, xs) && AvoidsBlk(arms[i].body, xs)
  {
    if i > 0 {
      AvoidsArmAt(arms[1..], xs, i - 1);
      assert arms[1..][i - 1] == arms[i];
    }
  }

  // Running from u ends like running from t, outside xs, and leaves xs alone.
  ghost predicate Blind(xs: set<Var>, u: State, ru: Result, rt: Result) {
    ru.out == rt.out && Same(ru.state, rt.state, xs) && (forall v | v in xs :: Get(ru.state, v) == Get(u, v))
  }

  lemma {:induction false} EnterLeaveSame(xs: set<Var>, decls: set<Var>, u: State, t: State)
    requires Same(u, t, xs)
    ensures Same(Enter(u, decls), Enter(t, decls), xs - decls)
  {
  }

  lemma {:induction false} LeaveBlind(xs: set<Var>, decls: set<Var>, u: State, t: State, ru: Result, rt: Result)
    requires Same(u, t, xs) && Blind(xs - decls, Enter(u, decls), ru, rt)
    ensures Blind(xs, u, Result(Leave(ru.state, u, decls), ru.out), Result(Leave(rt.state, t, decls), rt.out))
  {
    forall v | v in xs
      ensures Get(Leave(ru.state, u, decls), v) == Get(u, v)
    {
      if v !in decls {
        assert v in xs - decls;
        assert Get(ru.state, v) == Get(Enter(u, decls), v);
      }
    }
    forall v | v !in xs
      ensures Get(Leave(ru.state, u, decls), v) == Get(Leave(rt.state, t, decls), v)
    {
      assert Get(u, v) == Get(t, v);
      if v !in decls {
        assert Get(ru.state, v) == Get(rt.state, v);
      }
    }
  }

  lemma {:induction false} StmtsBlind(ss: seq<Stmt>, xs: set<Var>, u: State, t: State, fuel: nat)
    requires AvoidsStmts(ss, xs) && Same(u, t, xs)
    ensures Blind(xs, u, ExecStmts(ss, u, fuel), ExecStmts(ss, t, fuel))
    decreases fuel, ss
  {
    if ss != [] {
      StmtBlind(ss[0], xs, u, t, fuel);
      var ru, rt := Exec(ss[0], u, fuel), Exec(ss[0], t, fuel);
      if ru.out.Normal? {
        StmtsBlind(ss[1..], xs, ru.state, rt.state, fuel);
      }
    }
  }

  lemma {:induction false} BlkBlind(b: Blk, xs: set<Var>, u: State, t: State, fuel: nat)
    requires AvoidsBlk(b, xs) && Same(u, t, xs)
    ensures Blind(xs, u, ExecBlk(b, u, fuel), ExecBlk(b, t, fuel))
    decreases fuel, b, 0, 0
  {
    EnterLeaveSame(xs, b.decls, u, t);
    StmtsBlind(b.stmts, xs - b.decls, Enter(u, b.decls), Enter(t, b.decls), fuel);
    LeaveBlind(xs, b.decls, u, t, ExecStmts(b.stmts, Enter(u, b.decls), fuel), ExecStmts(b.stmts, Enter(t, b.decls), fuel));
  }

  // Code in which no variable of xs occurs free behaves the same whatever those
  // variables hold, and does not change them.
  lemma {:induction false} StmtBlind(p: Stmt, xs: set<Var>, u: State, t: State, fuel: nat)
    requires AvoidsStmt(p, xs) && Same(u, t, xs)
    ensures Blind(xs, u, Exec(p, u, fuel), Exec(p, t, fuel))
    decreases fuel, p
  {
    match p
    case Assign(v, e) => EvalAvoids(e, xs, u, t);
    case Block(b) => BlkBlind(b, xs, u, t, fuel);
    case Case(sel, arms) =>
      EvalAvoids(sel, xs, u, t);
      FirstMatchAvoids(arms, xs, Eval(sel, u), u, t);
      var i := Choose(arms, Eval(sel, u), u);
      if i < |arms| {
        AvoidsArmAt(arms, xs, i);
        BlkBlind(arms[i].body, xs, u, t, fuel);
      }
    case Loop(decls, head, body) =>
      EnterLeaveSame(xs, decls, u, t);
      LoopBlind(head, body, xs - decls, Enter(u, decls), Enter(t, decls), fuel);
      LeaveBlind(xs, decls, u, t, ExecLoop(head, body, Enter(u, decls), fuel), ExecLoop(head, body, Enter(t, decls), fuel));
    case Break =>
    case Continue =>
  }

  lemma {:induction false} LoopBlind(head: Head, body: Blk, xs: set<Var>, u: State, t: State, fuel: nat)
    requires AvoidsHead(head, xs) && AvoidsBlk(body, xs) && Same(u, t, xs)
    ensures Blind(xs, u, ExecLoop(head, body, u, fuel), ExecLoop(head, body, t, fuel))
    decreases fuel, body, 2, 0
  {
    match head
    case While(cond) => WhileBlind(cond, body, xs, u, t, fuel);
    case Repeat(count) =>
      EvalAvoids(count, xs, u, t);
      RepeatBlind(Eval(count, u), body, xs, u, t, fuel);
    case For(v, init, cond, step) =>
      EvalAvoids(init, xs, u, t);
      ForBlind(v, cond, step, body, xs, Store(u, v, Eval(init, u)), Store(t, v, Eval(init, t)), fuel);
  }

  lemma {:induction false} WhileBlind(cond: Expr, body: Blk, xs: set<Var>, u: State, t: State, fuel: nat)
    requires AvoidsExpr(cond, xs) && AvoidsBlk(body, xs) && Same(u, t, xs)
    ensures Blind(xs, u, ExecWhile(cond, body, u, fuel), ExecWhile(cond, body, t, fuel))
    decreases fuel, body, 1, 0
  {
    EvalAvoids(cond, xs, u, t);
    if Eval(cond, u) != 0 && fuel > 0 {
      BlkBlind(body, xs, u, t, fuel - 1);
      var ru, rt := ExecBlk(body, u, fuel - 1), ExecBlk(body, t, fuel - 1);
      if !ru.out.Broke? && !ru.out.OutOfFuel? {
        WhileBlind(cond, body, xs, ru.state, rt.state, fuel - 1);
      }
    }
  }

  lemma {:induction false} RepeatBlind(n: int, body: Blk, xs: set<Var>, u: State, t: State, fuel: nat)
    requires AvoidsBlk(body, xs) && Same(u, t, xs)
    ensures Blind(xs, u, ExecRepeat(n, body, u, fuel), ExecRepeat(n, body, t, fuel))
    decreases fuel, body, 1, n
  {
    if n > 0 {
      BlkBlind(body, xs, u, t, fuel);
      var ru, rt := ExecBlk(body, u, fuel), ExecBlk(body, t, fuel);
      if !ru.out.Broke? && !ru.out.OutOfFuel? {
        RepeatBlind(n - 1, body, xs, ru.state, rt.state, fuel);
      }
    }
  }

  lemma {:induction false} ForBlind(v: Var, cond: Expr, step: Expr, body: Blk, xs: set<Var>, u: State, t: State,
      fuel: nat)
    requires v !in xs && AvoidsExpr(cond, xs) && AvoidsExpr(step, xs) && AvoidsBlk(body, xs) && Same(u, t, xs)
    ensures Blind(xs, u, ExecFor(v, cond, step, body, u, fuel), ExecFor(v, cond, step, body, t, fuel))
    decreases fuel, body, 1, 0
  {
    EvalAvoids(cond, xs, u, t);
    if Eval(cond, u) != 0 && fuel > 0 {
      BlkBlind(body, xs, u, t, fuel - 1);
      var ru, rt := ExecBlk(body, u, fuel - 1), ExecBlk(body, t, fuel - 1);
      if !ru.out.Broke? && !ru.out.OutOfFuel? {
        EvalAvoids(step, xs, ru.state, rt.state);
        ForBlind(v, cond, step, body, xs, Store(ru.state, v, Eval(step, ru.state)), Store(rt.state, v, Eval(step, rt.state)), fuel - 1);
      }
    }
  }

  // ---------- every piece of code avoids the empty set ----------

  lemma {:induction false} AvoidsNothing(ss: seq<Stmt>)
    ensures AvoidsStmts(ss, {})
    decreases ss
  {
    if ss != [] {
      AvoidsNothingStmt(ss[0]);
      AvoidsNothing(ss[1..]);
    }
  }

  lemma {:induction false} AvoidsNothingExpr(e: Expr)
    ensures AvoidsExpr(e, {})
  {
    match e
    case LogicNot(e1) => AvoidsNothingExpr(e1);
    case Binary(_, l, r) => AvoidsNothingExpr(l); AvoidsNothingExpr(r);
    case _ =>
  }

  lemma {:induction false} AvoidsNothingHead(head: Head)
    ensures AvoidsHead(head, {})
  {
    forall e { AvoidsNothingExpr(e); }
  }

  lemma {:induction false} AvoidsNothingBlk(b: Blk)
    ensures AvoidsBlk(b, {})
    decreases b
  {
    assert {} - b.decls == {};
    AvoidsNothing(b.stmts);
  }

  lemma {:induction false} AvoidsNothingArms(arms: seq<Arm>)
    ensures AvoidsArms(arms, {})
    decreases arms
  {
    if arms != [] {
      forall e { AvoidsNothingExpr(e); }
      AvoidsNothingBlk(arms[0].body);
      AvoidsNothingArms(arms[1..]);
    }
  }

  lemma {:induction false} AvoidsNothingStmt(p: Stmt)
    ensures AvoidsStmt(p, {})
    decreases p
  {
    forall e { AvoidsNothingExpr(e); }
    match p
    case Block(b) => AvoidsNothingBlk(b);
    case Case(_, arms) => AvoidsNothingArms(arms);
    case Loop(decls, head, body) =>
      assert {} - decls == {};
      AvoidsNothingHead(head);
      AvoidsNothingBlk(body);
    case _ =>
  }

  lemma {:induction false} NoDecls(s: State, t: State)
    ensures Enter(s, {}) == s && Leave(t, s, {}) == t
  {
  }

  lemma {:induction false} OneStmt(p: Stmt, s: State, fuel: nat)
    ensures ExecStmts([p], s, fuel) == Exec(p, s, fuel)
  {
    assert [p][1..] == [];
  }

  lemma {:induction false} ConsStmts(p: Stmt, ss: seq<Stmt>, s: State, fuel: nat)
    ensures ExecStmts([p] + ss, s, fuel) ==
            var r := Exec(p, s, fuel); if r.out.Normal? then ExecStmts(ss, r.state, fuel) else r
  {
    assert ([p] + ss)[1..] == ss;
  }

  lemma {:induction false} LeaveSame(decls: set<Var>, xs: set<Var>, u: State, t: State, u': State, t': State,
      skip: bool)
    requires Same(u, t, xs) && (skip || Same(u', t', xs))
    ensures skip || Same(Leave(u', u, decls), Leave(t', t, decls), xs)
    ensures forall v | v !in decls :: Get(Leave(u', u, decls), v) == Get(u', v)
  {
    if !skip {
      forall v | v !in xs
        ensures Get(Leave(u', u, decls), v) == Get(Leave(t', t, decls), v)
      {
        assert Get(u, v) == Get(t, v) && Get(u', v) == Get(t', v);
      }
    }
  }
}
