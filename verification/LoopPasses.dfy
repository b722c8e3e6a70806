// The two loop passes as the source runs them: in place over child vectors, with the
// flag variables created on first use.
module LoopPasses {
  import opened Wrappers
  import opened Procedural
  import opened JumpLowering
  import opened Unrolling
  import opened UnrollingSuccess

  // The statements before it have been passed over without finding a jump.
  ghost predicate Passed(block: seq<Stmt>, it: nat)
    requires it <= |block|
  {
    var l, rest := LowerStmts(block), LowerStmts(block[it..]);
    l.code == block[..it] + rest.code && l.jumped == rest.jumped && l.broke == rest.broke
  }

  lemma {:induction false} PassOver(block: seq<Stmt>, it: nat)
    requires it < |block| && Passed(block, it) && !block[it].Break? && !block[it].Continue?
    requires !LowerStmt(block[it]).jumped && LowerStmt(block[it]).code == block[it]
    ensures Passed(block, it + 1)
  {
    assert block[it..][1..] == block[it + 1..];
    assert block[..it + 1] == block[..it] + [block[it]];
  }

  // The arms before i have been passed over without finding a jump.
  ghost predicate PassedArms(arms: seq<Arm>, i: nat)
    requires i <= |arms|
  {
    var l, rest := LowerArms(arms), LowerArms(arms[i..]);
    l.code == arms[..i] + rest.code && l.jumped == rest.jumped && l.broke == rest.broke
  }

  lemma {:induction false} ArmStep(arms: seq<Arm>, i: nat)
    requires i < |arms|
    ensures var a, l, rest := arms[i], LowerArms(arms[i..]), LowerArms(arms[i + 1..]);
            if a.kind.Exact? && LowerBlk(a.body).jumped
            then l == Lowered([Arm(a.kind, a.labels, LowerBlk(a.body).code)] + arms[i + 1..], true, LowerBlk(a.body).broke)
            else l == Lowered([a] + rest.code, rest.jumped, rest.broke)
  {
    assert arms[i..][0] == arms[i] && arms[i..][1..] == arms[i + 1..];
  }

  lemma {:induction false} PassArm(arms: seq<Arm>, i: nat)
    requires i < |arms| && PassedArms(arms, i)
    requires !(arms[i].kind.Exact? && LowerBlk(arms[i].body).jumped)
    ensures PassedArms(arms, i + 1)
  {
    ArmStep(arms, i);
    var a, after := arms[i], LowerArms(arms[i + 1..]).code;
    assert arms[..i] + ([a] + after) == arms[..i + 1] + after;
  }

  // The first jumping arm is the last one that is replaced.
  lemma {:induction false} JumpingArm(arms: seq<Arm>, i: nat)
    requires i < |arms| && PassedArms(arms, i)
    requires arms[i].kind.Exact? && LowerBlk(arms[i].body).jumped
    ensures var a, l, body := arms[i], LowerArms(arms), LowerBlk(arms[i].body);
            l == Lowered(arms[i := Arm(a.kind, a.labels, body.code)], true, body.broke)
  {
    ArmStep(arms, i);
    var a, body := arms[i], LowerBlk(arms[i].body);
    var b := Arm(a.kind, a.labels, body.code);
    assert arms[i := b] == arms[..i] + ([b] + arms[i + 1..]);
  }

  // The state transform_breaks_continues shares with its local functions: whether the
  // wires $break and $continue have been made.
  class JumpPass {
    var breakWire: bool
    var continueWire: bool

    constructor ()
      ensures !breakWire && !continueWire
    {
      breakWire, continueWire := false, false;
    }

    twostate predicate Recorded(jumped: bool, broke: bool)
      reads this
    {
      continueWire == (old(continueWire) || jumped) && breakWire == (old(breakWire) || broke)
    }

    // Transforms the children of a block and reports whether a jump was found.
    method TransformBlock(block: seq<Stmt>) returns (children: seq<Stmt>, jumped: bool)
      modifies this
      ensures children == LowerStmts(block).code && jumped == LowerStmts(block).jumped
      ensures Recorded(jumped, LowerStmts(block).broke)
      decreases Size(block), 0
    {
      children := block;
      var it := 0;
      while it < |children|
        invariant 0 <= it <= |block| && children == block && Recorded(false, false)
        invariant Passed(block, it)
        decreases |block| - it
      {
        SizeAt(block, it);
        assert block[it..][1..] == block[it + 1..];
        if children[it].Break? {
          continueWire, breakWire := true, true;
          return children[..it] + [SetFlag(CONTINUE, 1), SetFlag(BREAK, 1)], true;
        } else if children[it].Continue? {
          continueWire := true;
          return children[..it] + [SetFlag(CONTINUE, 1)], true;
        } else {
          var child, j := TransformChild(children[it]);
          if j {
            var guard := WrapAndTransform(children[it + 1..]);
            return children[..it] + [child, guard], true;
          }
          NoJumpStmtUnchanged(block[it]);
          PassOver(block, it);
          it := it + 1;
        }
      }
      jumped := false;
    }

    // The two kinds of statement the transformation looks into.
    method TransformChild(p: Stmt) returns (child: Stmt, jumped: bool)
      modifies this
      ensures child == LowerStmt(p).code && jumped == LowerStmt(p).jumped
      ensures Recorded(jumped, LowerStmt(p).broke)
      decreases SizeStmt(p), 1
    {
      match p
      case Block(b) =>
        assert SizeStmt(p) == 2 + Size(b.stmts);
        var inner, j := TransformBlock(b.stmts);
        return Block(Blk(b.decls, inner)), j;
      case Case(sel, arms) =>
        var inner, j := TransformArms(arms);
        return Case(sel, inner), j;
      case _ => return p, false;
    }

    // Moves statements into a new block under the guard of $continue.
    method WrapAndTransform(rest: seq<Stmt>) returns (guard: Stmt)
      modifies this
      ensures guard == Guard(CONTINUE, Blk({}, LowerStmts(rest).code))
      ensures Recorded(LowerStmts(rest).jumped, LowerStmts(rest).broke)
      decreases Size(rest), 1
    {
      var children, _ := TransformBlock(rest);
      guard := Guard(CONTINUE, Blk({}, children));
    }

    // Visits the arms of a case in order, until one of them jumps.
    method TransformArms(arms: seq<Arm>) returns (children: seq<Arm>, hasJump: bool)
      modifies this
      ensures children == LowerArms(arms).code && hasJump == LowerArms(arms).jumped
      ensures Recorded(hasJump, LowerArms(arms).broke)
      decreases SizeArms(arms), 0
    {
      children, hasJump := arms, false;
      for i := 0 to |arms|
        invariant |children| == |arms|
        invariant !hasJump ==> (children == arms && Recorded(false, false) && PassedArms(arms, i))
        invariant hasJump ==> (children == LowerArms(arms).code && LowerArms(arms).jumped)
        invariant hasJump ==> Recorded(true, LowerArms(arms).broke)
      {
        var a := arms[i];
        if a.kind.Exact? && !hasJump {
          SizeArmAt(arms, i);
          NoJumpUnchanged(a.body.stmts);
          var inner;
          inner, hasJump := TransformBlock(a.body.stmts);
          if hasJump { JumpingArm(arms, i); }
          children := children[i := Arm(a.kind, a.labels, Blk(a.body.decls, inner))];
        }
        if !hasJump { PassArm(arms, i); }
      }
      assert arms[..|arms|] + [] == arms;
    }

    // The whole transformation of a loop in its declaration block.
    method TransformBreaksContinues(decls: set<Var>, head: Head, body: Blk) returns (declBlock: Blk)
      requires !breakWire && !continueWire
      modifies this
      ensures declBlock == LowerLoop(decls, head, body)
    {
      NoJumpUnchanged(body.stmts);
      BrokeJumps(body.stmts);
      var children, jumped := TransformBlock(body.stmts);
      var loopHead, loopBody := head, Blk(body.decls, children);
      var wires, resets: seq<Stmt> := decls, [];
      if continueWire {
        wires := wires + {CONTINUE};
        loopBody := Blk(loopBody.decls, [SetFlag(CONTINUE, 0)] + loopBody.stmts);
      }
      if breakWire {
        wires := wires + {BREAK};
        resets := [SetFlag(BREAK, 0)];
        if head.While? {
          loopHead := While(Binary(LogicAnd, LogicNot(Ref(BREAK)), head.cond));
        } else {
          loopBody := Blk({}, [Guard(BREAK, loopBody)]);
        }
        assert wires == decls + FLAGS;
      }
      declBlock := Blk(wires, resets + [Loop({}, loopHead, loopBody)]);
    }
  }

  lemma {:induction false} BrokeJumps(ss: seq<Stmt>)
    ensures LowerStmts(ss).broke ==> LowerStmts(ss).jumped
  {
    NoJumpUnchanged(ss);
  }

  // The copies for more visited values are the copies for the first and those for the rest.
  lemma {:induction false} CopiesAppend(a: seq<int>, b: seq<int>, v: Var, body: Blk, limit: nat)
    ensures ForCopies(a + b, v, body, limit) ==
            match (ForCopies(a, v, body, limit), ForCopies(b, v, body, limit))
            case (Some(x), Some(y)) => Some(x + y)
            case _ => None
    decreases |a|
  {
    if a == [] {
      assert a + b == b;
      if ForCopies(b, v, body, limit).Some? {
        assert [] + ForCopies(b, v, body, limit).value == ForCopies(b, v, body, limit).value;
      }
    } else {
      assert (a + b)[1..] == a[1..] + b;
      CopiesAppend(a[1..], b, v, body, limit);
      if ForCopies(a, v, body, limit).Some? && ForCopies(b, v, body, limit).Some? {
        var head := [Block(UnrollBlk(SubstBlk(body, v, a[0]), limit).value)];
        var x, y := ForCopies(a[1..], v, body, limit).value, ForCopies(b, v, body, limit).value;
        assert head + (x + y) == (head + x) + y;
      }
    }
  }

  // After the iterations in done the loop variable has the value n.
  predicate Reached(head: Head, limit: nat, done: seq<int>, n: int, left: nat)
    requires head.For?
  {
    ForIndices(head, Value(head.init), limit) ==
    match ForIndices(head, n, left)
    case Some(rest) => Some(Indices(done + rest.visited, rest.last))
    case None => None
  }

  lemma {:induction false} ReachedNext(head: Head, limit: nat, done: seq<int>, n: int, left: nat)
    requires head.For? && Reached(head, limit, done, n, left) && left > 0
    requires IsConst(SubstExpr(head.cond, head.v, n)) && Value(SubstExpr(head.cond, head.v, n)) != 0
    requires IsConst(SubstExpr(head.step, head.v, n))
    ensures Reached(head, limit, done + [n], Value(SubstExpr(head.step, head.v, n)), left - 1)
  {
    var rest := ForIndices(head, Value(SubstExpr(head.step, head.v, n)), left - 1);
    if rest.Some? {
      assert done + ([n] + rest.value.visited) == (done + [n]) + rest.value.visited;
    }
  }

  // One copy more.
  lemma {:induction false} CopyNext(done: seq<int>, x: int, v: Var, body: Blk, limit: nat, block: seq<Stmt>)
    requires ForCopies(done, v, body, limit) == Some(block)
    ensures ForCopies(done + [x], v, body, limit) ==
            match UnrollBlk(SubstBlk(body, v, x), limit)
            case Some(copy) => Some(block + [Block(copy)])
            case None => None
  {
    CopiesAppend(done, [x], v, body, limit);
    assert [x][1..] == [] && ForCopies([], v, body, limit) == Some([]);
    match UnrollBlk(SubstBlk(body, v, x), limit)
    case Some(copy) => assert [Block(copy)] + [] == [Block(copy)];
    case None =>
  }

  // What is left when the loop has ended, or a copy or the control has failed.
  lemma {:induction false} Finished(head: Head, body: Blk, limit: nat, done: seq<int>, n: int, left: nat)
    requires head.For? && IsConst(head.init) && KeepsBlk(body, head.v) && Reached(head, limit, done, n, left)
    ensures ForCopies(done, head.v, body, limit).None? || ForIndices(head, n, left).None? ==>
              UnrollLoop(head, body, limit) == None
    ensures ForCopies(done, head.v, body, limit).Some? && ForIndices(head, n, left) == Some(Indices([], n)) ==>
              UnrollLoop(head, body, limit) ==
              Some(ForCopies(done, head.v, body, limit).value + [Assign(head.v, Const(n))])
  {
    match ForIndices(head, n, left)
    case None =>
    case Some(rest) =>
      CopiesAppend(done, rest.visited, head.v, body, limit);
      if rest.visited == [] { assert done + rest.visited == done; }
  }

  // The unroller has made block from the iterations in done, and n is next.
  predicate Going(head: Head, body: Blk, limit: nat, done: seq<int>, n: int, left: nat, block: seq<Stmt>) {
    && head.For? && IsConst(head.init) && KeepsBlk(body, head.v)
    && Reached(head, limit, done, n, left) && ForCopies(done, head.v, body, limit) == Some(block)
  }

  // What the loop does next: fail, end, or go on with one copy more.
  function Round(head: Head, body: Blk, limit: nat, n: int, left: nat): Option<Option<Blk>>
    requires head.For?
  {
    var cond, step := SubstExpr(head.cond, head.v, n), SubstExpr(head.step, head.v, n);
    if !IsConst(cond) then None
    else if Value(cond) == 0 then Some(None)
    else if left == 0 || !IsConst(step) then None
    else match UnrollBlk(SubstBlk(body, head.v, n), limit)
      case None => None
      case Some(copy) => Some(Some(copy))
  }

  lemma {:induction false} RoundMeans(head: Head, body: Blk, limit: nat, done: seq<int>, n: int, left: nat,
      block: seq<Stmt>)
    requires Going(head, body, limit, done, n, left, block)
    ensures match Round(head, body, limit, n, left)
            case None => UnrollLoop(head, body, limit) == None
            case Some(None) => UnrollLoop(head, body, limit) == Some(block + [Assign(head.v, Const(n))])
            case Some(Some(copy)) =>
              var next := Value(SubstExpr(head.step, head.v, n));
              left > 0 && Going(head, body, limit, done + [n], next, left - 1, block + [Block(copy)])
  {
    var cond, step := SubstExpr(head.cond, head.v, n), SubstExpr(head.step, head.v, n);
    Finished(head, body, limit, done, n, left);
    if IsConst(cond) && Value(cond) != 0 && left > 0 && IsConst(step) {
      ReachedNext(head, limit, done, n, left);
      CopyNext(done, n, head.v, body, limit, block);
      Finished(head, body, limit, done + [n], Value(step), left - 1);
    }
  }

  // Unrolls a for loop: copies of the body, one per iteration, are appended to the
  // block, and a final assignment gives the loop variable its last value. None stands
  // for the errors the source reports.
  method UnrollFor(head: Head, body: Blk, limit: nat) returns (code: Option<seq<Stmt>>)
    requires head.For?
    ensures code == UnrollLoop(head, body, limit)
    ensures code.Some? <==> LoopExpands(head, body, limit)
  {
    LoopSucceedsIff(head, body, limit);
    if !IsConst(head.init) || !KeepsBlk(body, head.v) {
      return None;
    }
    var block: seq<Stmt> := [];
    var varbuf, steps := Value(head.init), 0;
    ghost var done: seq<int> := [];
    GoingAtStart(head, body, limit);
    while true
      invariant 0 <= steps <= limit && Going(head, body, limit, done, varbuf, limit - steps, block)
      decreases limit - steps
    {
      RoundMeans(head, body, limit, done, varbuf, limit - steps, block);
      var cond := SubstExpr(head.cond, head.v, varbuf);
      if !IsConst(cond) {
        return None;
      }
      if Value(cond) == 0 {
        break;
      }
      var step := SubstExpr(head.step, head.v, varbuf);
      if steps == limit || !IsConst(step) {
        return None;
      }
      var copy := UnrollBlk(SubstBlk(body, head.v, varbuf), limit);
      if copy.None? {
        return None;
      }
      block := block + [Block(copy.value)];
      done := done + [varbuf];
      varbuf, steps := Value(step), steps + 1;
    }
    code := Some(block + [Assign(head.v, Const(varbuf))]);
  }

  lemma {:induction false} GoingAtStart(head: Head, body: Blk, limit: nat)
    requires head.For? && IsConst(head.init) && KeepsBlk(body, head.v)
    ensures Going(head, body, limit, [], Value(head.init), limit, [])
  {
    var none: seq<int> := [];
    assert forall xs: seq<int> :: none + xs == xs;
  }
}
