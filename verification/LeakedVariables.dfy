// Which variables may end a lowered program with another value: the variables of for loops
// with a break that are declared outside the loop, until they are assigned again.
module LeakedVariables {
  import opened Procedural
  import opened JumpLowering
  import opened JumpLoweringMeaning

  // ---------- all variables that code can leak ----------

  function Leaks(ss: seq<Stmt>): set<Var>
    decreases ss
  {
    if ss == [] then {} else LeaksStmt(ss[0]) + Leaks(ss[1..])
  }

  function LeaksBlk(b: Blk): set<Var>
    decreases b
  {
    Leaks(b.stmts) - b.decls
  }

  function LeaksArms(arms: seq<Arm>): set<Var>
    decreases arms
  {
    if arms == [] then {} else LeaksBlk(arms[0].body) + LeaksArms(arms[1..])
  }

  function LeaksStmt(p: Stmt): set<Var>
    decreases p
  {
    match p
    case Block(b) => LeaksBlk(b)
    case Case(_, arms) => LeaksArms(arms)
    case Loop(decls, head, body) => (LeaksBlk(body) - decls) + Leaked(decls, head, LowerBlk(body).broke)
    case _ => {}
  }

  // ---------- the variables that differ at a point ----------

  // The variables that may differ after the code if those of xs do before it; an
  // assignment makes its variable agree again.
  function After(ss: seq<Stmt>, xs: set<Var>): set<Var>
    decreases ss
  {
    if ss == [] then xs else After(ss[1..], AfterStmt(ss[0], xs))
  }

  function AfterBlk(b: Blk, xs: set<Var>): set<Var>
    decreases b
  {
    Outside(b.decls, xs, After(b.stmts, xs - b.decls))
  }

  function AfterArms(arms: seq<Arm>, xs: set<Var>): set<Var>
    decreases arms
  {
    if arms == [] then xs else AfterBlk(arms[0].body, xs) + AfterArms(arms[1..], xs)
  }

  function AfterStmt(p: Stmt, xs: set<Var>): set<Var>
    decreases p
  {
    match p
    case Assign(v, _) => xs - {v}
    case Block(b) => AfterBlk(b, xs)
    case Case(_, arms) => AfterArms(arms, xs)
    case Loop(decls, head, body) =>
      Outside(decls, xs, Around(head, body, xs - decls)) + Leaked(decls, head, LowerBlk(body).broke)
    case _ => xs
  }

  // Leaving a scope brings the outer variables back that it hid.
  function Outside(decls: set<Var>, xs: set<Var>, inner: set<Var>): set<Var> {
    (inner - decls) + xs * decls
  }

  // The variables that may differ before any iteration of a loop and after it.
  function Around(head: Head, body: Blk, xs: set<Var>): set<Var> {
    (if head.For? then xs - {head.v} else xs) + LeaksBlk(body)
  }

  // ---------- programs that read no such variable ----------

  predicate Unread(ss: seq<Stmt>, xs: set<Var>)
    decreases ss
  {
    ss == [] || (UnreadStmt(ss[0], xs) && Unread(ss[1..], AfterStmt(ss[0], xs)))
  }

  predicate UnreadBlk(b: Blk, xs: set<Var>)
    decreases b
  {
    Unread(b.stmts, xs - b.decls)
  }

  predicate UnreadArms(arms: seq<Arm>, xs: set<Var>)
    decreases arms
  {
    arms == [] || (AvoidsLabels(arms[0].labels, xs) && UnreadBlk(arms[0].body, xs) && UnreadArms(arms[1..], xs))
  }

  predicate UnreadStmt(p: Stmt, xs: set<Var>)
    decreases p
  {
    match p
    case Assign(_, e) => AvoidsExpr(e, xs)
    case Block(b) => UnreadBlk(b, xs)
    case Case(sel, arms) => AvoidsExpr(sel, xs) && UnreadArms(arms, xs)
    case Loop(decls, head, body) =>
      UnreadHead(head, xs - decls, Around(head, body, xs - decls)) && UnreadBlk(body, Around(head, body, xs - decls))
    case _ => true
  }

  // The head of a loop reads the state before the loop and the one around its iterations.
  predicate UnreadHead(h: Head, before: set<Var>, around: set<Var>) {
    match h
    case While(c) => AvoidsExpr(c, around)
    case Repeat(c) => AvoidsExpr(c, before)
    case For(_, i, c, st) => AvoidsExpr(i, before) && AvoidsExpr(c, around) && AvoidsExpr(st, around)
  }

  // ---------- bounds ----------

  lemma {:induction false} AfterBound(ss: seq<Stmt>, xs: set<Var>)
    ensures After(ss, xs) <= xs + Leaks(ss)
    decreases ss
  {
    if ss != [] {
      AfterStmtBound(ss[0], xs);
      AfterBound(ss[1..], AfterStmt(ss[0], xs));
    }
  }

  lemma {:induction false} AfterBlkBound(b: Blk, xs: set<Var>)
    ensures AfterBlk(b, xs) <= xs + LeaksBlk(b)
    decreases b
  {
    AfterBound(b.stmts, xs - b.decls);
  }

  lemma {:induction false} AfterArmsBound(arms: seq<Arm>, xs: set<Var>)
    ensures AfterArms(arms, xs) <= xs + LeaksArms(arms)
    decreases arms
  {
    if arms != [] {
      AfterBlkBound(arms[0].body, xs);
      AfterArmsBound(arms[1..], xs);
    }
  }

  lemma {:induction false} AfterStmtBound(p: Stmt, xs: set<Var>)
    ensures AfterStmt(p, xs) <= xs + LeaksStmt(p)
    decreases p
  {
    match p
    case Block(b) => AfterBlkBound(b, xs);
    case Case(_, arms) => AfterArmsBound(arms, xs);
    case _ =>
  }

  // Code whose for loops with a break all declare their variable leaks nothing and reads
  // nothing that differs.
  lemma {:induction false} NothingLeaks(ss: seq<Stmt>)
    requires LeakFree(ss)
    ensures Leaks(ss) == {} && After(ss, {}) == {} && Unread(ss, {})
    decreases ss
  {
    if ss != [] {
      NothingLeaksStmt(ss[0]);
      NothingLeaks(ss[1..]);
    }
  }

  lemma {:induction false} NothingLeaksBlk(b: Blk)
    requires LeakFree(b.stmts)
    ensures LeaksBlk(b) == {} && AfterBlk(b, {}) == {} && UnreadBlk(b, {})
    decreases b
  {
    assert {} - b.decls == {};
    NothingLeaks(b.stmts);
  }

  lemma {:induction false} NothingLeaksArms(arms: seq<Arm>)
    requires LeakFreeArms(arms)
    ensures LeaksArms(arms) == {} && AfterArms(arms, {}) == {} && UnreadArms(arms, {})
    decreases arms
  {
    if arms != [] {
      AvoidsNothingArms(arms);
      NothingLeaksBlk(arms[0].body);
      NothingLeaksArms(arms[1..]);
    }
  }

  lemma {:induction false} NothingLeaksStmt(p: Stmt)
    requires LeakFreeStmt(p)
    ensures LeaksStmt(p) == {} && AfterStmt(p, {}) == {} && UnreadStmt(p, {})
    decreases p
  {
    match p
    case Assign(_, e) => AvoidsNothingExpr(e);
    case Block(b) => NothingLeaksBlk(b);
    case Case(sel, arms) =>
      AvoidsNothingExpr(sel);
      NothingLeaksArms(arms);
    case Loop(decls, head, body) =>
      NothingLeaksBlk(body);
      AvoidsNothingHead(head);
      assert {} - decls == {} && Around(head, body, {}) == {};
    case _ =>
  }

  predicate LeakFree(ss: seq<Stmt>)
    decreases ss
  {
    ss == [] || (LeakFreeStmt(ss[0]) && LeakFree(ss[1..]))
  }

  predicate LeakFreeArms(arms: seq<Arm>)
    decreases arms
  {
    arms == [] || (LeakFree(arms[0].body.stmts) && LeakFreeArms(arms[1..]))
  }

  predicate LeakFreeStmt(p: Stmt)
    decreases p
  {
    match p
    case Block(b) => LeakFree(b.stmts)
    case Case(_, arms) => LeakFreeArms(arms)
    case Loop(decls, head, body) => Leaked(decls, head, LowerBlk(body).broke) == {} && LeakFree(body.stmts)
    case _ => true
  }

  // ---------- scopes and choices in states that differ ----------

  lemma {:induction false} SameMore(s: State, t: State, xs: set<Var>, ys: set<Var>)
    requires Same(s, t, xs) && xs <= ys
    ensures Same(s, t, ys)
  {
  }

  lemma {:induction false} LeaveOutside(decls: set<Var>, xs: set<Var>, ys: set<Var>, u: State, t: State, u': State,
      t': State)
    requires Same(u, t, xs) && Same(u', t', ys)
    ensures Same(Leave(u', u, decls), Leave(t', t, decls), Outside(decls, xs, ys))
  {
    forall v | v !in Outside(decls, xs, ys)
      ensures Get(Leave(u', u, decls), v) == Get(Leave(t', t, decls), v)
    {
      if v in decls { assert Get(u, v) == Get(t, v); } else { assert Get(u', v) == Get(t', v); }
    }
  }

  lemma {:induction false} FirstMatchUnread(arms: seq<Arm>, xs: set<Var>, x: int, u: State, t: State)
    requires UnreadArms(arms, xs) && Same(u, t, xs)
    ensures FirstMatch(arms, x, u) == FirstMatch(arms, x, t)
  {
    if arms != [] {
      ArmAvoids(arms[0], xs, x, u, t);
      FirstMatchUnread(arms[1..], xs, x, u, t);
    }
  }

  lemma {:induction false} UnreadArmAt(arms: seq<Arm>, xs: set<Var>, i: nat)
    requires UnreadArms(arms, xs) && i < |arms|
    ensures UnreadBlk(arms[i].body, xs)
    ensures AfterBlk(arms[i].body, xs) <= AfterArms(arms, xs) && LeaksBlk(arms[i].body) <= LeaksArms(arms)
  {
    if i > 0 {
      UnreadArmAt(arms[1..], xs, i - 1);
      assert arms[1..][i - 1] == arms[i];
    }
  }

  lemma {:induction false} BeforeInAfterArms(arms: seq<Arm>, xs: set<Var>)
    ensures xs <= AfterArms(arms, xs)
  {
    if arms != [] { BeforeInAfterArms(arms[1..], xs); }
  }
}
