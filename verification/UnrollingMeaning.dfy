// Straight-line code from the unroller ends in the state of the loops it replaces,
// provided no loop index outgrows its variable.
module UnrollingMeaning {
  import opened Wrappers
  import opened Arithmetic
  import opened Procedural
  import opened Unrolling

  // ---------- straight-line code ----------

  predicate Straight(ss: seq<Stmt>)
    decreases ss
  {
    ss == [] || (StraightStmt(ss[0]) && Straight(ss[1..]))
  }

  predicate StraightBlk(b: Blk)
    decreases b
  {
    Straight(b.stmts)
  }

  predicate StraightArms(arms: seq<Arm>)
    decreases arms
  {
    arms == [] || (StraightBlk(arms[0].body) && StraightArms(arms[1..]))
  }

  predicate StraightStmt(p: Stmt)
    decreases p
  {
    match p
    case Assign(_, _) => true
    case Block(b) => StraightBlk(b)
    case Case(_, arms) => StraightArms(arms)
    case _ => false
  }

  lemma {:induction false} StraightAppend(a: seq<Stmt>, b: seq<Stmt>)
    requires Straight(a) && Straight(b)
    ensures Straight(a + b)
  {
    if a == [] {
      assert a + b == b;
    } else {
      assert (a + b)[1..] == a[1..] + b;
      StraightAppend(a[1..], b);
    }
  }

  lemma {:induction false} UnrollStmtsStraight(ss: seq<Stmt>, limit: nat)
    requires UnrollStmts(ss, limit).Some?
    ensures Straight(UnrollStmts(ss, limit).value)
    decreases Size(ss), 0, 0
  {
    if ss != [] {
      UnrollStraight(ss[0], limit);
      UnrollStmtsStraight(ss[1..], limit);
      assert UnrollStmts(ss, limit).value[1..] == UnrollStmts(ss[1..], limit).value;
    }
  }

  lemma {:induction false} UnrollBlkStraight(b: Blk, limit: nat)
    requires UnrollBlk(b, limit).Some?
    ensures StraightBlk(UnrollBlk(b, limit).value)
    decreases SizeBlk(b), 0, 0
  {
    UnrollStmtsStraight(b.stmts, limit);
  }

  lemma {:induction false} UnrollArmsStraight(arms: seq<Arm>, limit: nat)
    requires UnrollArms(arms, limit).Some?
    ensures StraightArms(UnrollArms(arms, limit).value)
    decreases SizeArms(arms), 0, 0
  {
    if arms != [] {
      UnrollBlkStraight(arms[0].body, limit);
      UnrollArmsStraight(arms[1..], limit);
      assert UnrollArms(arms, limit).value[1..] == UnrollArms(arms[1..], limit).value;
    }
  }

  // The unroller leaves neither a loop nor a jump.
  lemma {:induction false} UnrollStraight(p: Stmt, limit: nat)
    requires UnrollStmt(p, limit).Some?
    ensures StraightStmt(UnrollStmt(p, limit).value)
    decreases SizeStmt(p), 1, 0
  {
    match p
    case Assign(_, _) =>
    case Block(b) => UnrollBlkStraight(b, limit);
    case Case(_, arms) => UnrollArmsStraight(arms, limit);
    case Loop(_, head, body) =>
      match head {
        case Repeat(count) => RepeatCopiesStraight(Value(count), body, limit);
        case For(v, init, _, _) =>
          var ix := ForIndices(head, Value(init), limit).value;
          ForCopiesStraight(ix.visited, v, body, limit);
          var final := [Assign(v, Const(ix.last))];
          assert final[1..] == [] && Straight(final[1..]) && StraightStmt(final[0]);
          StraightAppend(ForCopies(ix.visited, v, body, limit).value, final);
      }
  }

  lemma {:induction false} RepeatCopiesStraight(n: int, body: Blk, limit: nat)
    requires RepeatCopies(n, body, limit).Some?
    ensures Straight(RepeatCopies(n, body, limit).value)
    decreases SizeBlk(body), 1, n
  {
    if n > 0 {
      UnrollBlkStraight(body, limit);
      RepeatCopiesStraight(n - 1, body, limit);
      assert RepeatCopies(n, body, limit).value[1..] == RepeatCopies(n - 1, body, limit).value;
    }
  }

  lemma {:induction false} ForCopiesStraight(visited: seq<int>, v: Var, body: Blk, limit: nat)
    requires ForCopies(visited, v, body, limit).Some?
    ensures Straight(ForCopies(visited, v, body, limit).value)
    decreases SizeBlk(body), 1, |visited|
  {
    if visited != [] {
      SubstBlkSize(body, v, visited[0]);
      UnrollBlkStraight(SubstBlk(body, v, visited[0]), limit);
      ForCopiesStraight(visited[1..], v, body, limit);
      assert ForCopies(visited, v, body, limit).value[1..] == ForCopies(visited[1..], v, body, limit).value;
    }
  }

  // ---------- indices that fit their variable ----------

  // Every visited index fits the loop variable, and the last one, once stored, still
  // ends the loop.
  predicate IndicesFit(h: Head, ix: Indices)
    requires h.For?
  {
    && (forall i | 0 <= i < |ix.visited| :: Fit(h.v, ix.visited[i]) == ix.visited[i])
    && Value(SubstExpr(h.cond, h.v, Fit(h.v, ix.last))) == 0
  }

  // The values the loop variable takes when every store truncates, as it does in the loop.
  function StoredIndices(h: Head, n: int, limit: nat): Option<Indices>
    requires h.For?
    decreases limit
  {
    var x := Fit(h.v, n);
    if Value(SubstExpr(h.cond, h.v, x)) == 0 then Some(Indices([], x))
    else if limit == 0 then None
    else
      match StoredIndices(h, Value(SubstExpr(h.step, h.v, x)), limit - 1)
      case None => None
      case Some(rest) => Some(Indices([x] + rest.visited, rest.last))
  }

  // The unroller visits the values the loop variable really takes, and leaves the value
  // the loop leaves, exactly when the indices fit.
  lemma {:induction false} IndicesAgreeIffFit(h: Head, n: int, limit: nat)
    requires h.For? && ForIndices(h, n, limit).Some?
    ensures var ix := ForIndices(h, n, limit).value;
            StoredIndices(h, n, limit) == Some(Indices(ix.visited, Fit(h.v, ix.last))) <==> IndicesFit(h, ix)
    decreases limit
  {
    var ix := ForIndices(h, n, limit).value;
    if ix.visited != [] {
      var next := Value(SubstExpr(h.step, h.v, n));
      var rest := ForIndices(h, next, limit - 1).value;
      assert ix.visited[1..] == rest.visited;
      IndicesAgreeIffFit(h, next, limit - 1);
      if Fit(h.v, n) == n {
        assert IndicesFit(h, ix) <==> IndicesFit(h, rest) by {
          assert forall i | 0 <= i < |rest.visited| :: rest.visited[i] == ix.visited[i + 1];
        }
        var stored := StoredIndices(h, next, limit - 1);
        assert stored.Some? ==> ([n] + stored.value.visited)[1..] == stored.value.visited;
      } else {
        assert ix.visited[0] == n;
      }
    }
  }

  // ---------- counting loops ----------

  // The values that a variable can hold are Lowest .. Limit - 1.
  function Lowest(v: Var): int {
    if v.signed && v.width > 0 then 0 - Pow2(v.width - 1) else 0
  }

  function Limit(v: Var): int {
    Lowest(v) + Pow2(v.width)
  }

  lemma {:induction false} FitInRange(v: Var, x: int)
    ensures Lowest(v) <= x < Limit(v) ==> Fit(v, x) == x
    ensures Lowest(v) <= Fit(v, x) < Limit(v)
    ensures Limit(v) <= x < Limit(v) + Pow2(v.width) ==> Fit(v, x) == x - Pow2(v.width)
  {
    var m := Pow2(v.width);
    if v.width > 0 { assert m == 2 * Pow2(v.width - 1); }
    if Lowest(v) <= x < Limit(v) {
      DivUnique(x, m, if x < 0 then -1 else 0, if x < 0 then x + m else x);
    } else if Limit(v) <= x < Limit(v) + m {
      DivUnique(x, m, if x < m then 0 else 1, if x < m then x else x - m);
    }
    DivBounds(0, m);
    assert 0 <= x % m < m;
  }

  // for (v = a; v < b; v = v + c)
  function Counting(v: Var, a: int, b: int, c: int): Head {
    For(v, Const(a), Binary(Less, Ref(v), Const(b)), Binary(Add, Ref(v), Const(c)))
  }

  lemma {:induction false} CountingValues(v: Var, a: int, b: int, c: int, n: int)
    ensures var h := Counting(v, a, b, c);
            && IsConst(SubstExpr(h.cond, v, n)) && Value(SubstExpr(h.cond, v, n)) == Truth(n < b)
            && IsConst(SubstExpr(h.step, v, n)) && Value(SubstExpr(h.step, v, n)) == n + c
  {
    assert SubstExpr(Ref(v), v, n) == Const(n);
    assert Eval(Const(n), map[]) == n && Eval(Const(b), map[]) == b && Eval(Const(c), map[]) == c;
  }

  // Before unrolling: the loop is unrolled if the limit allows the iterations, and its
  // indices fit exactly when the variable can hold its first value a and the first value
  // from b on that it reaches.
  lemma {:induction false} CountingFitsIff(v: Var, a: int, b: int, c: int, n: int, limit: nat)
    requires 0 < c <= Pow2(v.width)
    ensures var h := Counting(v, a, b, c);
            var ix := ForIndices(h, n, limit);
            && (ix.Some? <==> limit * c >= b - n)
            && (ix.Some? ==> (IndicesFit(h, ix.value) <==>
                              if n < b then Lowest(v) <= n && b + (n - b) % c < Limit(v) else Fit(v, n) >= b))
    decreases limit
  {
    var h := Counting(v, a, b, c);
    CountingValues(v, a, b, c, n);
    if n >= b {
      CountingEnds(v, a, b, c, n, limit);
    } else if limit > 0 {
      CountingFitsIff(v, a, b, c, n + c, limit - 1);
      assert limit * c == (limit - 1) * c + c;
      if ForIndices(h, n, limit).Some? {
        CountingTurn(h, n, n + c, limit);
        StepsAlike(n - b, c);
        FitInRange(v, n);
        FitInRange(v, n + c);
        if n + c >= b { DivUnique(n - b, c, -1, n + c - b); }
      }
    }
  }

  lemma {:induction false} CountingEnds(v: Var, a: int, b: int, c: int, n: int, limit: nat)
    requires n >= b
    ensures var h := Counting(v, a, b, c);
            ForIndices(h, n, limit) == Some(Indices([], n)) && (IndicesFit(h, Indices([], n)) <==> Fit(v, n) >= b)
  {
    CountingValues(v, a, b, c, n);
    CountingValues(v, a, b, c, Fit(v, n));
  }

  lemma {:induction false} CountingTurn(h: Head, n: int, next: int, limit: nat)
    requires h.For? && limit > 0 && ForIndices(h, n, limit).Some? && Value(SubstExpr(h.cond, h.v, n)) != 0
    requires Value(SubstExpr(h.step, h.v, n)) == next
    ensures ForIndices(h, next, limit - 1).Some?
    ensures IndicesFit(h, ForIndices(h, n, limit).value) <==> Fit(h.v, n) == n && IndicesFit(h, ForIndices(h, next, limit - 1).value)
  {
    var ix, rest := ForIndices(h, n, limit).value, ForIndices(h, next, limit - 1).value;
    assert ix.visited[0] == n;
    assert forall i | 0 <= i < |rest.visited| :: rest.visited[i] == ix.visited[i + 1];
  }

  lemma {:induction false} StepsAlike(d: int, c: int)
    requires c > 0
    ensures (d + c) % c == d % c
  {
    DivUnique(d + c, c, d / c + 1, d % c);
  }

  // Every loop in the code, as the unroller meets it, has indices that fit.
  predicate FitsStmts(ss: seq<Stmt>, limit: nat)
    decreases Size(ss), 0, 0
  {
    ss == [] || (FitsStmt(ss[0], limit) && FitsStmts(ss[1..], limit))
  }

  predicate FitsBlk(b: Blk, limit: nat)
    decreases SizeBlk(b), 0, 0
  {
    FitsStmts(b.stmts, limit)
  }

  predicate FitsArms(arms: seq<Arm>, limit: nat)
    decreases SizeArms(arms), 0, 0
  {
    arms == [] || (FitsBlk(arms[0].body, limit) && FitsArms(arms[1..], limit))
  }

  predicate FitsStmt(p: Stmt, limit: nat)
    decreases SizeStmt(p), 1, 0
  {
    match p
    case Block(b) => FitsBlk(b, limit)
    case Case(_, arms) => FitsArms(arms, limit)
    case Loop(_, head, body) =>
      (match head
       case For(v, init, _, _) =>
         (match ForIndices(head, Value(init), limit)
          case Some(ix) => IndicesFit(head, ix) && FitsCopies(ix.visited, v, body, limit)
          case None => true)
       case Repeat(count) => Value(count) > 0 ==> FitsBlk(body, limit)
       case While(_) => FitsBlk(body, limit))
    case _ => true
  }

  predicate FitsCopies(visited: seq<int>, v: Var, body: Blk, limit: nat)
    decreases SizeBlk(body), 1, |visited|
  {
    visited == [] ||
    (SubstBlkSize(body, v, visited[0]);
     FitsBlk(SubstBlk(body, v, visited[0]), limit) && FitsCopies(visited[1..], v, body, limit))
  }

  // ---------- the meaning of unrolled code ----------

  ghost predicate BothEnd(xs: set<Var>, r': Result, r: Result) {
    r'.out.Normal? && r.out.Normal? && Same(r'.state, r.state, xs)
  }

  lemma {:induction false} MulSucc(a: nat, limit: nat)
    ensures limit * (1 + a) == limit + limit * a
  {
  }

  lemma {:induction false} UnrollStmtsSim(ss: seq<Stmt>, limit: nat, u: State, t: State, m: nat, n: nat)
    requires UnrollStmts(ss, limit).Some? && FitsStmts(ss, limit) && Same(u, t, {}) && n >= limit * Size(ss)
    ensures BothEnd({}, ExecStmts(UnrollStmts(ss, limit).value, u, m), ExecStmts(ss, t, n))
    decreases Size(ss), 0, 0
  {
    if ss != [] {
      MulMono(limit, SizeStmt(ss[0]), Size(ss));
      MulMono(limit, Size(ss[1..]), Size(ss));
      UnrollSim(ss[0], limit, u, t, m, n);
      var p := UnrollStmt(ss[0], limit).value;
      ConsStmts(p, UnrollStmts(ss[1..], limit).value, u, m);
      UnrollStmtsSim(ss[1..], limit, Exec(p, u, m).state, Exec(ss[0], t, n).state, m, n);
    }
  }

  lemma {:induction false} UnrollBlkSim(b: Blk, limit: nat, u: State, t: State, m: nat, n: nat)
    requires UnrollBlk(b, limit).Some? && FitsBlk(b, limit) && Same(u, t, {}) && n >= limit * SizeBlk(b)
    ensures BothEnd({}, ExecBlk(UnrollBlk(b, limit).value, u, m), ExecBlk(b, t, n))
    decreases SizeBlk(b), 0, 0
  {
    MulMono(limit, Size(b.stmts), SizeBlk(b));
    var u1, t1 := Enter(u, b.decls), Enter(t, b.decls);
    UnrollStmtsSim(b.stmts, limit, u1, t1, m, n);
    var b' := UnrollBlk(b, limit).value;
    LeaveSame(b.decls, {}, u, t, ExecStmts(b'.stmts, u1, m).state, ExecStmts(b.stmts, t1, n).state, false);
  }

  lemma {:induction false} UnrollChoice(arms: seq<Arm>, limit: nat, x: int, s: State)
    requires UnrollArms(arms, limit).Some?
    ensures var arms' := UnrollArms(arms, limit).value;
            |arms'| == |arms| && FirstMatch(arms', x, s) == FirstMatch(arms, x, s) && FirstDefault(arms') == FirstDefault(arms)
    decreases SizeArms(arms), 0, 0
  {
    if arms != [] {
      UnrollChoice(arms[1..], limit, x, s);
      var l := UnrollArms(arms, limit).value;
      assert l[1..] == UnrollArms(arms[1..], limit).value;
      assert ArmMatches(l[0], x, s) == ArmMatches(arms[0], x, s);
    }
  }

  lemma {:induction false} UnrollArmSim(arms: seq<Arm>, i: nat, limit: nat, u: State, t: State, m: nat, n: nat)
    requires UnrollArms(arms, limit).Some? && FitsArms(arms, limit) && Same(u, t, {}) && n >= limit * SizeArms(arms)
    requires i < |arms| == |UnrollArms(arms, limit).value|
    ensures BothEnd({}, ExecBlk(UnrollArms(arms, limit).value[i].body, u, m), ExecBlk(arms[i].body, t, n))
    decreases SizeArms(arms), 0, 0
  {
    MulMono(limit, SizeBlk(arms[0].body), SizeArms(arms));
    MulMono(limit, SizeArms(arms[1..]), SizeArms(arms));
    if i == 0 {
      UnrollBlkSim(arms[0].body, limit, u, t, m, n);
    } else {
      UnrollChoice(arms[1..], limit, 0, u);
      UnrollArmSim(arms[1..], i - 1, limit, u, t, m, n);
    }
  }

  // With enough fuel the loops complete, and the straight-line code, which needs no fuel,
  // ends in the same state.
  lemma {:induction false} UnrollSim(p: Stmt, limit: nat, u: State, t: State, m: nat, n: nat)
    requires UnrollStmt(p, limit).Some? && FitsStmt(p, limit) && Same(u, t, {}) && n >= limit * SizeStmt(p)
    ensures BothEnd({}, Exec(UnrollStmt(p, limit).value, u, m), Exec(p, t, n))
    decreases SizeStmt(p), 1, 0
  {
    match p
    case Assign(v, e) =>
      AvoidsNothingExpr(e);
      EvalAvoids(e, {}, u, t);
    case Block(b) =>
      MulMono(limit, SizeBlk(b), SizeStmt(p));
      UnrollBlkSim(b, limit, u, t, m, n);
    case Case(sel, arms) =>
      AvoidsNothingExpr(sel);
      EvalAvoids(sel, {}, u, t);
      var x := Eval(sel, t);
      AvoidsNothingArms(arms);
      FirstMatchAvoids(arms, {}, x, u, t);
      UnrollChoice(arms, limit, x, u);
      var i := Choose(arms, x, t);
      if i < |arms| {
        MulMono(limit, SizeArms(arms), SizeStmt(p));
        UnrollArmSim(arms, i, limit, u, t, m, n);
      }
    case Loop(decls, head, body) =>
      var u1, t1 := Enter(u, decls), Enter(t, decls);
      MulSucc(SizeBlk(body), limit);
      UnrollLoopSim(head, body, limit, u1, t1, m, n);
      var code := UnrollLoop(head, body, limit).value;
      LeaveSame(decls, {}, u, t, ExecStmts(code, u1, m).state, ExecLoop(head, body, t1, n).state, false);
  }

  lemma {:induction false} UnrollLoopSim(head: Head, body: Blk, limit: nat, u: State, t: State, m: nat, n: nat)
    requires UnrollLoop(head, body, limit).Some? && FitsStmt(Loop({}, head, body), limit)
    requires Same(u, t, {}) && n >= limit + limit * SizeBlk(body)
    ensures BothEnd({}, ExecStmts(UnrollLoop(head, body, limit).value, u, m), ExecLoop(head, body, t, n))
    decreases SizeBlk(body), 3, 0
  {
    match head
    case Repeat(count) =>
      ConstEval(count, t);
      RepeatCopiesSim(Value(count), body, limit, u, t, m, n);
    case For(v, init, cond, step) =>
      ConstEval(init, t);
      var x := Value(init);
      var ix := ForIndices(head, x, limit).value;
      var copies := ForCopies(ix.visited, v, body, limit).value;
      var t0 := Store(t, v, x);
      ForCopiesSim(head, body, x, limit, limit, u, t0, m, n);
      var u1 := ExecStmts(copies, u, m).state;
      AppendStmts(copies, [Assign(v, Const(ix.last))], u, m);
      OneStmt(Assign(v, Const(ix.last)), u1, m);
  }

  lemma {:induction false} AppendStmts(a: seq<Stmt>, b: seq<Stmt>, s: State, m: nat)
    requires ExecStmts(a, s, m).out.Normal?
    ensures ExecStmts(a + b, s, m) == ExecStmts(b, ExecStmts(a, s, m).state, m)
    decreases a
  {
    if a == [] {
      assert a + b == b;
    } else {
      assert (a + b)[1..] == a[1..] + b;
      AppendStmts(a[1..], b, Exec(a[0], s, m).state, m);
    }
  }

  lemma {:induction false} RepeatCopiesSim(k: int, body: Blk, limit: nat, u: State, t: State, m: nat, n: nat)
    requires RepeatCopies(k, body, limit).Some? && (k > 0 ==> FitsBlk(body, limit))
    requires Same(u, t, {}) && n >= limit * SizeBlk(body)
    ensures BothEnd({}, ExecStmts(RepeatCopies(k, body, limit).value, u, m), ExecRepeat(k, body, t, n))
    decreases SizeBlk(body), 1, k
  {
    if k > 0 {
      UnrollBlkSim(body, limit, u, t, m, n);
      var b := UnrollBlk(body, limit).value;
      ConsStmts(Block(b), RepeatCopies(k - 1, body, limit).value, u, m);
      RepeatCopiesSim(k - 1, body, limit, ExecBlk(b, u, m).state, ExecBlk(body, t, n).state, m, n);
    }
  }

  // One copy of a body against the body with x in the loop variable.
  lemma {:induction false} CopySim(body: Blk, v: Var, x: int, limit: nat, u: State, t: State, m: nat, n: nat)
    requires KeepsBlk(body, v) && UnrollBlk(SubstBlk(body, v, x), limit).Some? && FitsBlk(SubstBlk(body, v, x), limit)
    requires Get(t, v) == x && Same(u, t, {v}) && n >= limit * SizeBlk(body)
    ensures BothEnd({v}, ExecBlk(UnrollBlk(SubstBlk(body, v, x), limit).value, u, m), ExecBlk(body, t, n))
    ensures Get(ExecBlk(body, t, n).state, v) == x
    decreases SizeBlk(body), 1, 0
  {
    var bx := SubstBlk(body, v, x);
    SubstBlkSize(body, v, x);
    UnrollBlkSim(bx, limit, u, u, m, n);
    SubstBlkAvoids(body, v, x);
    BlkBlind(bx, {v}, u, t, n);
    SubstBlkMeans(body, v, x, t, n);
  }

  // The loop from the point where its variable holds x, against the remaining copies. The
  // copies do not mention the variable, so that it may differ until the final assignment.
  lemma {:induction false} ForCopiesSim(h: Head, body: Blk, x: int, k: nat, limit: nat, u: State, t: State, m: nat,
      n: nat)
    requires h.For? && KeepsBlk(body, h.v) && ForIndices(h, x, k).Some?
    requires var ix := ForIndices(h, x, k).value;
             IndicesFit(h, ix) && ForCopies(ix.visited, h.v, body, limit).Some? && FitsCopies(ix.visited, h.v, body, limit)
    requires Get(t, h.v) == Fit(h.v, x) && Same(u, t, {h.v}) && n >= k + limit * SizeBlk(body)
    ensures var ix := ForIndices(h, x, k).value;
            var r := ExecFor(h.v, h.cond, h.step, body, t, n);
            BothEnd({h.v}, ExecStmts(ForCopies(ix.visited, h.v, body, limit).value, u, m), r) &&
            Get(r.state, h.v) == Fit(h.v, ix.last)
    decreases SizeBlk(body), 2, k
  {
    var v, ix := h.v, ForIndices(h, x, k).value;
    SubstEval(h.cond, v, Get(t, v), t);
    SameConst(h.cond, v, x, Get(t, v));
    ConstEval(SubstExpr(h.cond, v, Get(t, v)), t);
    if ix.visited != [] {
      var next := Value(SubstExpr(h.step, v, x));
      var rest := ForIndices(h, next, k - 1).value;
      assert ix.visited[0] == x && ix.visited[1..] == rest.visited;
      assert IndicesFit(h, rest) by {
        assert forall i | 0 <= i < |rest.visited| :: rest.visited[i] == ix.visited[i + 1];
      }
      CopySim(body, v, x, limit, u, t, m, n - 1);
      var b := UnrollBlk(SubstBlk(body, v, x), limit).value;
      var ru, rt := ExecBlk(b, u, m), ExecBlk(body, t, n - 1);
      SubstEval(h.step, v, x, rt.state);
      ConstEval(SubstExpr(h.step, v, x), rt.state);
      ConsStmts(Block(b), ForCopies(rest.visited, v, body, limit).value, u, m);
      ForCopiesSim(h, body, next, k - 1, limit, ru.state, Store(rt.state, v, next), m, n - 1);
    }
  }

  lemma {:induction false} SameConst(e: Expr, v: Var, x: int, y: int)
    ensures IsConst(SubstExpr(e, v, x)) == IsConst(SubstExpr(e, v, y))
  {
    match e
    case LogicNot(e1) => SameConst(e1, v, x, y);
    case Binary(_, l, r) => SameConst(l, v, x, y); SameConst(r, v, x, y);
    case _ =>
  }

  // ---------- an index that outgrows its variable ----------

  // "for (i = 0; i < 4; i = i + 1);" with a two-bit i: the unroller makes four copies,
  // but the loop never ends, because i wraps around to 0.
  const TWO_BIT := Var("i", 2, false)
  const WRAPPING := For(TWO_BIT, Const(0), Binary(Less, Ref(TWO_BIT), Const(4)), Binary(Add, Ref(TWO_BIT), Const(1)))

  lemma {:induction false} WrappingControl(n: int)
    ensures var c, st := SubstExpr(WRAPPING.cond, TWO_BIT, n), SubstExpr(WRAPPING.step, TWO_BIT, n);
            IsConst(c) && Value(c) == Truth(n < 4) && IsConst(st) && Value(st) == n + 1
  {
    assert SubstExpr(Ref(TWO_BIT), TWO_BIT, n) == Const(n);
    assert Eval(Const(n), map[]) == n && Eval(Const(4), map[]) == 4 && Eval(Const(1), map[]) == 1;
    assert Eval(Binary(Less, Const(n), Const(4)), map[]) == Truth(n < 4);
    assert Eval(Binary(Add, Const(n), Const(1)), map[]) == n + 1;
  }

  lemma {:induction false} WrappingLoopIsUnrolled(limit: nat)
    requires limit >= 4
    ensures ForIndices(WRAPPING, 0, limit) == Some(Indices([0, 1, 2, 3], 4))
    ensures !IndicesFit(WRAPPING, Indices([0, 1, 2, 3], 4))
  {
    forall n { WrappingControl(n); }
    var i4 := ForIndices(WRAPPING, 4, limit - 4);
    var i3 := ForIndices(WRAPPING, 3, limit - 3);
    assert i3.value == Indices([3] + i4.value.visited, i4.value.last);
    var i2 := ForIndices(WRAPPING, 2, limit - 2);
    assert i2.value == Indices([2] + i3.value.visited, i3.value.last);
    var i1 := ForIndices(WRAPPING, 1, limit - 1);
    assert i1.value == Indices([1] + i2.value.visited, i2.value.last);
    var i0 := ForIndices(WRAPPING, 0, limit);
    assert i0.value == Indices([0] + i1.value.visited, i1.value.last);
    assert i3.value.visited == [3] && i2.value.visited == [2, 3] && i1.value.visited == [1, 2, 3];
    assert i0.value.visited == [0, 1, 2, 3];
    assert Pow2(2) == 4 && Fit(TWO_BIT, 4) == 0;
  }

  lemma {:induction false} WrappingLoopNeverEnds(s: State, fuel: nat)
    requires 0 <= Get(s, TWO_BIT) < 4
    ensures ExecFor(TWO_BIT, WRAPPING.cond, WRAPPING.step, Blk({}, []), s, fuel).out.OutOfFuel?
    decreases fuel
  {
    var n := Get(s, TWO_BIT);
    WrappingControl(n);
    SubstEval(WRAPPING.cond, TWO_BIT, n, s);
    SubstEval(WRAPPING.step, TWO_BIT, n, s);
    ConstEval(SubstExpr(WRAPPING.cond, TWO_BIT, n), s);
    ConstEval(SubstExpr(WRAPPING.step, TWO_BIT, n), s);
    if fuel > 0 {
      NoDecls(s, s);
      assert ExecBlk(Blk({}, []), s, fuel - 1) == Result(s, Normal);
      assert Pow2(2) == 4;
      WrappingLoopNeverEnds(Store(s, TWO_BIT, n + 1), fuel - 1);
    }
  }
}
