// Both stages of loop lowering together: from code with jumps to straight-line code.
module LoopCompilation {
  import opened Wrappers
  import opened Procedural
  import opened JumpLowering
  import opened JumpLoweringMeaning
  import opened LeakedVariables
  import opened ProgramLowering
  import opened Unrolling
  import opened UnrollingMeaning

  // ---------- no jump is left behind ----------

  // No break or continue occurs at any depth.
  predicate Jumpless(ss: seq<Stmt>)
    decreases ss
  {
    ss == [] || (JumplessStmt(ss[0]) && Jumpless(ss[1..]))
  }

  predicate JumplessBlk(b: Blk)
    decreases b
  {
    Jumpless(b.stmts)
  }

  predicate JumplessArms(arms: seq<Arm>)
    decreases arms
  {
    arms == [] || (JumplessBlk(arms[0].body) && JumplessArms(arms[1..]))
  }

  predicate JumplessStmt(p: Stmt)
    decreases p
  {
    match p
    case Assign(_, _) => true
    case Block(b) => JumplessBlk(b)
    case Case(_, arms) => JumplessArms(arms)
    case Loop(_, _, body) => JumplessBlk(body)
    case _ => false
  }

  // Every nested loop is free of jumps, though this code may jump itself.
  predicate InnerJumpless(ss: seq<Stmt>)
    decreases ss
  {
    ss == [] || (InnerJumplessStmt(ss[0]) && InnerJumpless(ss[1..]))
  }

  predicate InnerJumplessBlk(b: Blk)
    decreases b
  {
    InnerJumpless(b.stmts)
  }

  predicate InnerJumplessArms(arms: seq<Arm>)
    decreases arms
  {
    arms == [] || (InnerJumplessBlk(arms[0].body) && InnerJumplessArms(arms[1..]))
  }

  predicate InnerJumplessStmt(p: Stmt)
    decreases p
  {
    match p
    case Block(b) => InnerJumplessBlk(b)
    case Case(_, arms) => InnerJumplessArms(arms)
    case Loop(_, _, body) => JumplessBlk(body)
    case _ => true
  }

  lemma {:induction false} JumplessSplits(ss: seq<Stmt>)
    ensures Jumpless(ss) <==> !HasJump(ss) && InnerJumpless(ss)
    decreases ss
  {
    if ss != [] {
      JumplessStmtSplits(ss[0]);
      JumplessSplits(ss[1..]);
    }
  }

  lemma {:induction false} JumplessStmtSplits(p: Stmt)
    ensures JumplessStmt(p) <==> !JumpsIn(p) && InnerJumplessStmt(p)
    decreases p
  {
    match p
    case Block(b) => JumplessBlkSplits(b);
    case Case(_, arms) => JumplessArmsSplits(arms);
    case _ =>
  }

  lemma {:induction false} JumplessBlkSplits(b: Blk)
    ensures JumplessBlk(b) <==> !HasJump(b.stmts) && InnerJumplessBlk(b)
    decreases b
  {
    JumplessSplits(b.stmts);
  }

  lemma {:induction false} JumplessArmsSplits(arms: seq<Arm>)
    ensures JumplessArms(arms) <==> !JumpsInArms(arms) && InnerJumplessArms(arms)
    decreases arms
  {
    if arms != [] {
      JumplessBlkSplits(arms[0].body);
      JumplessArmsSplits(arms[1..]);
    }
  }

  lemma {:induction false} LowerKeepsInner(ss: seq<Stmt>)
    requires InnerJumpless(ss)
    ensures InnerJumpless(LowerStmts(ss).code)
    decreases ss
  {
    if ss != [] {
      var c := LowerStmts(ss).code;
      if ss[0].Break? || ss[0].Continue? {
        assert forall i | 0 <= i < |c| :: c[i].Assign?;
        AssignsAreInnerJumpless(c);
      } else {
        LowerStmtKeepsInner(ss[0]);
        LowerKeepsInner(ss[1..]);
        var rest := LowerStmts(ss[1..]).code;
        if LowerStmt(ss[0]).jumped {
          var b := Blk({}, rest);
          var g := Guard(CONTINUE, b);
          assert InnerJumplessBlk(b);
          assert g.arms[1..] == [] && InnerJumplessArms(g.arms);
          assert c[1..] == [g] && [g][1..] == [] && InnerJumpless([g]);
        } else {
          assert c[1..] == rest;
        }
      }
    }
  }

  lemma {:induction false} AssignsAreInnerJumpless(ss: seq<Stmt>)
    requires forall i | 0 <= i < |ss| :: ss[i].Assign?
    ensures InnerJumpless(ss)
  {
    if ss != [] { AssignsAreInnerJumpless(ss[1..]); }
  }

  lemma {:induction false} LowerStmtKeepsInner(p: Stmt)
    requires InnerJumplessStmt(p)
    ensures InnerJumplessStmt(LowerStmt(p).code)
    decreases p
  {
    match p
    case Block(b) => LowerBlkKeepsInner(b);
    case Case(_, arms) => LowerArmsKeepsInner(arms);
    case _ =>
  }

  lemma {:induction false} LowerBlkKeepsInner(b: Blk)
    requires InnerJumplessBlk(b)
    ensures InnerJumplessBlk(LowerBlk(b).code)
    decreases b
  {
    LowerKeepsInner(b.stmts);
  }

  lemma {:induction false} LowerArmsKeepsInner(arms: seq<Arm>)
    requires InnerJumplessArms(arms)
    ensures InnerJumplessArms(LowerArms(arms).code)
    decreases arms
  {
    if arms != [] {
      LowerBlkKeepsInner(arms[0].body);
      LowerArmsKeepsInner(arms[1..]);
      var l := LowerArms(arms).code;
      assert l[1..] == arms[1..] || l[1..] == LowerArms(arms[1..]).code;
    }
  }

  lemma {:induction false} OneJumpless(p: Stmt)
    ensures Jumpless([p]) == JumplessStmt(p)
  {
    assert [p][1..] == [];
  }

  // The declaration block of a supported loop whose inner loops are free of jumps is
  // itself free of jumps.
  lemma {:induction false} LowerLoopJumpless(decls: set<Var>, head: Head, body: Blk)
    requires Supported(body.stmts) && InnerJumplessBlk(body)
    ensures JumplessBlk(LowerLoop(decls, head, body))
  {
    var low := LowerLoop(decls, head, body);
    JumpFreeIffSupported(body.stmts);
    LowerKeepsInner(body.stmts);
    JumplessSplits(LowerStmts(body.stmts).code);
    if !LowerBlk(body).jumped {
      NoJumpUnchanged(body.stmts);
      assert JumplessBlk(body);
      OneJumpless(Loop({}, head, body));
    } else {
      var lb, b := LoopBody(body), LoweredBody(head, body);
      assert lb.stmts[1..] == LowerStmts(body.stmts).code;
      assert JumplessBlk(lb);
      var g := Guard(BREAK, lb);
      assert g.arms[1..] == [] && JumplessArms(g.arms);
      OneJumpless(g);
      assert JumplessBlk(b);
      var loop := Loop({}, LoweredHead(head, body), b);
      OneJumpless(loop);
      if LowerBlk(body).broke { assert low.stmts[1..] == [loop]; }
    }
  }

  lemma {:induction false} LowerAllStmtsJumpless(ss: seq<Stmt>)
    requires Lowerable(ss)
    ensures InnerJumpless(LowerAllStmts(ss))
    decreases ss
  {
    if ss != [] {
      LowerAllInnerJumpless(ss[0]);
      LowerAllStmtsJumpless(ss[1..]);
      assert LowerAllStmts(ss)[1..] == LowerAllStmts(ss[1..]);
    }
  }

  lemma {:induction false} LowerAllBlkJumpless(b: Blk)
    requires LowerableBlk(b)
    ensures InnerJumplessBlk(LowerAllBlk(b))
    decreases b
  {
    LowerAllStmtsJumpless(b.stmts);
  }

  lemma {:induction false} LowerAllArmsJumpless(arms: seq<Arm>)
    requires LowerableArms(arms)
    ensures InnerJumplessArms(LowerAllArms(arms))
    decreases arms
  {
    if arms != [] {
      LowerAllBlkJumpless(arms[0].body);
      LowerAllArmsJumpless(arms[1..]);
      assert LowerAllArms(arms)[1..] == LowerAllArms(arms[1..]);
    }
  }

  lemma {:induction false} LowerAllInnerJumpless(p: Stmt)
    requires LowerableStmt(p)
    ensures InnerJumplessStmt(LowerAll(p))
    decreases p
  {
    match p
    case Block(b) => LowerAllBlkJumpless(b);
    case Case(_, arms) => LowerAllArmsJumpless(arms);
    case Loop(decls, head, body) =>
      var b := LowerAllBlk(body);
      LowerAllBlkJumpless(body);
      LowerAllBlkJumps(body);
      LowerLoopJumpless(decls, head, b);
      JumplessBlkSplits(LowerLoop(decls, head, b));
    case _ =>
  }

  // A program whose jumps all belong to its loops is lowered to one without any jump.
  lemma {:induction false} LoweringRemovesAllJumps(p: Stmt)
    requires LowerableStmt(p) && !JumpsIn(p)
    ensures JumplessStmt(LowerAll(p))
  {
    LowerAllStmtJumps(p);
    LowerAllInnerJumpless(p);
    JumplessStmtSplits(LowerAll(p));
  }

  // ---------- from jumps to straight-line code ----------

  // The code that synthesis gets: every loop lowered, then everything unrolled.
  function Compile(p: Stmt, limit: nat): Option<Stmt> {
    UnrollStmt(LowerAll(p), limit)
  }

  // End to end: compiled code has neither loops nor jumps, and from every state it ends
  // in the state in which the program with its loops and jumps ends, but for the loop
  // variables that a break leaked.
  lemma {:induction false} CompileCorrect(p: Stmt, limit: nat, s: State, m: nat, fuel: nat)
    requires NoFlagsStmt(p) && LowerableStmt(p) && UnreadStmt(p, {})
    requires Compile(p, limit).Some? && FitsStmt(LowerAll(p), limit)
    requires fuel >= limit * SizeStmt(LowerAll(p))
    ensures StraightStmt(Compile(p, limit).value)
    ensures BothEnd(AfterStmt(p, {}), Exec(Compile(p, limit).value, s, m), Exec(p, s, fuel))
  {
    UnrollStraight(LowerAll(p), limit);
    UnrollSim(LowerAll(p), limit, s, s, m, fuel);
    LowerAllSim(p, {}, false, s, s, fuel);
  }

  // Nothing differs if every for loop with a break declares its variable.
  lemma {:induction false} CompileExact(p: Stmt, limit: nat, s: State, m: nat, fuel: nat)
    requires NoFlagsStmt(p) && LowerableStmt(p) && LeakFreeStmt(p)
    requires Compile(p, limit).Some? && FitsStmt(LowerAll(p), limit)
    requires fuel >= limit * SizeStmt(LowerAll(p))
    ensures BothEnd({}, Exec(Compile(p, limit).value, s, m), Exec(p, s, fuel))
  {
    NothingLeaksStmt(p);
    CompileCorrect(p, limit, s, m, fuel);
  }
}
