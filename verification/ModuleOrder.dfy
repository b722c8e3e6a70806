// The order in which the EDIF backend writes modules: a module comes after the modules it
// instantiates. Cyclic instantiation is an error.
module ModuleOrder {

  type Deps<T> = map<T, set<T>>

  // Dependencies are modules of the design.
  predicate Closed<T>(deps: Deps<T>) {
    forall m | m in deps :: deps[m] <= deps.Keys
  }

  predicate AllDifferent<T(==)>(s: seq<T>) {
    forall i, j | 0 <= i < j < |s| :: s[i] != s[j]
  }

  // The modules of the design in the order of the dependency map.
  predicate Lists<T(==)>(deps: Deps<T>, modules: seq<T>) {
    AllDifferent(modules) && (forall m | m in deps :: m in modules) && forall m | m in modules :: m in deps
  }

  // ---------- cycles ----------

  // A chain of modules, each of which instantiates the next.
  ghost predicate IsPath<T>(deps: Deps<T>, p: seq<T>) {
    && |p| >= 1 && (forall i | 0 <= i < |p| :: p[i] in deps)
    && forall i | 0 <= i < |p| - 1 :: p[i + 1] in deps[p[i]]
  }

  ghost predicate IsCycle<T>(deps: Deps<T>, p: seq<T>) {
    IsPath(deps, p) && |p| >= 2 && p[0] == p[|p| - 1]
  }

  ghost predicate Cyclic<T(!new)>(deps: Deps<T>) {
    exists p: seq<T> :: IsCycle(deps, p)
  }

  ghost predicate OnCycle<T(!new)>(deps: Deps<T>, m: T) {
    exists p: seq<T> :: IsCycle(deps, p) && p[0] == m
  }

  // A chain of instances from the module leads into a cycle.
  ghost predicate LeadsIntoCycle<T(!new)>(deps: Deps<T>, m: T) {
    exists p: seq<T>, i | 0 <= i < |p| :: IsPath(deps, p) && p[0] == m && IsCycle(deps, p[i..])
  }

  lemma {:induction false} OnCycleLeads<T(!new)>(deps: Deps<T>, m: T)
    requires OnCycle(deps, m)
    ensures LeadsIntoCycle(deps, m) && m in deps
  {
    var p: seq<T> :| IsCycle(deps, p) && p[0] == m;
    assert p[0..] == p;
    assert IsCycle(deps, p[0..]);
  }

  // ---------- what a good order is ----------

  // No module twice, and each after all the modules it instantiates.
  ghost predicate Prefix<T>(deps: Deps<T>, order: seq<T>) {
    && AllDifferent(order)
    && forall i | 0 <= i < |order| :: order[i] in deps && forall d | d in deps[order[i]] :: d in order[..i]
  }

  // Every module once, after all the modules it instantiates.
  ghost predicate Sorted<T>(deps: Deps<T>, order: seq<T>) {
    Prefix(deps, order) && forall m | m in deps :: m in order
  }

  lemma {:induction false} PathDescends<T>(deps: Deps<T>, order: seq<T>, p: seq<T>, k: nat)
    requires Prefix(deps, order) && IsPath(deps, p) && k < |p| && p[0] in order
    ensures exists i, j :: 0 <= j <= i < |order| && order[i] == p[0] && order[j] == p[k] && i - j >= k
    decreases k
  {
    if k == 0 {
      var i :| 0 <= i < |order| && order[i] == p[0];
      assert 0 <= i <= i;
    } else {
      PathDescends(deps, order, p, k - 1);
      var i, j :| 0 <= j <= i < |order| && order[i] == p[0] && order[j] == p[k - 1] && i - j >= k - 1;
      assert p[k - 1 + 1] in deps[p[k - 1]];
      var j' :| 0 <= j' < j && order[j'] == p[k];
    }
  }

  lemma {:induction false} NoCycleInPrefix<T>(deps: Deps<T>, order: seq<T>, p: seq<T>)
    requires Prefix(deps, order) && IsPath(deps, p) && p[0] in order
    ensures !IsCycle(deps, p)
  {
    if |p| >= 2 {
      PathDescends(deps, order, p, |p| - 1);
      var i, j :| 0 <= j <= i < |order| && order[i] == p[0] && order[j] == p[|p| - 1] && i - j >= |p| - 1;
      assert order[j] != order[i];
    }
  }

  // A module that can be ordered does not lead into a cycle.
  lemma {:induction false} PrefixLeadsNowhere<T(!new)>(deps: Deps<T>, order: seq<T>, m: T)
    requires Prefix(deps, order) && m in order
    ensures !LeadsIntoCycle(deps, m)
  {
    forall p: seq<T>, i | 0 <= i < |p| && IsPath(deps, p) && p[0] == m ensures !IsCycle(deps, p[i..]) {
      PathDescends(deps, order, p, i);
      if IsPath(deps, p[i..]) { NoCycleInPrefix(deps, order, p[i..]); }
    }
  }

  // Where there is an order there is no cycle.
  lemma {:induction false} SortedIsAcyclic<T(!new)>(deps: Deps<T>, order: seq<T>)
    requires Sorted(deps, order)
    ensures !Cyclic(deps)
  {
    forall p: seq<T> ensures !IsCycle(deps, p) {
      if IsPath(deps, p) { NoCycleInPrefix(deps, order, p); }
    }
  }

  // ---------- stuck modules ----------

  ghost predicate WaitsFor<T>(deps: Deps<T>, m: T, s: set<T>)
    requires m in deps
  {
    exists d :: d in deps[m] && d in s
  }

  // Every one of these modules waits for another of them.
  ghost predicate Stuck<T>(deps: Deps<T>, s: set<T>) {
    s <= deps.Keys && forall m {:trigger WaitsFor(deps, m, s)} | m in s :: WaitsFor(deps, m, s)
  }

  lemma {:induction false} WalkInStuck<T>(deps: Deps<T>, s: set<T>, m: T, n: nat) returns (p: seq<T>)
    requires Stuck(deps, s) && m in s
    ensures IsPath(deps, p) && |p| == n + 1 && p[0] == m && forall i | 0 <= i < |p| :: p[i] in s
    decreases n
  {
    if n == 0 { p := [m]; }
    else {
      assert WaitsFor(deps, m, s);
      var d :| d in deps[m] && d in s;
      var q := WalkInStuck(deps, s, d, n - 1);
      p := [m] + q;
    }
  }

  lemma {:induction false} Pigeonhole<T>(p: seq<T>, s: set<T>) returns (i: nat, j: nat)
    requires (forall i | 0 <= i < |p| :: p[i] in s) && |p| > |s|
    ensures i < j < |p| && p[i] == p[j]
    decreases |s|
  {
    var x := p[0];
    if k :| 1 <= k < |p| && p[k] == x {
      i, j := 0, k;
    } else {
      var a, b := Pigeonhole(p[1..], s - {x});
      i, j := a + 1, b + 1;
    }
  }

  // From every stuck module a chain of instances leads into a cycle.
  lemma {:induction false} StuckReachesCycle<T(!new)>(deps: Deps<T>, s: set<T>, m: T)
    requires Stuck(deps, s) && m in s
    ensures LeadsIntoCycle(deps, m) && Cyclic(deps)
  {
    var q := WalkInStuck(deps, s, m, |s|);
    var a, b := Pigeonhole(q, s);
    var p := q[..b + 1];
    assert IsPath(deps, p) && p[0] == m && IsCycle(deps, p[a..]);
  }

  // ---------- the remaining modules ----------

  // The modules that are not among the given ones, in their order.
  function Keep<T(==)>(modules: seq<T>, sorted: seq<T>): (r: seq<T>)
    ensures |r| <= |modules|
    ensures forall m | m in r :: m in modules && m !in sorted
    ensures forall m | m in modules && m !in sorted :: m in r
  {
    if modules == [] then []
    else
      var rest := Keep(modules[1..], sorted);
      if modules[0] in sorted then rest else [modules[0]] + rest
  }

  lemma {:induction false} KeepAll<T>(modules: seq<T>)
    ensures Keep(modules, []) == modules
  {
    if modules != [] { KeepAll(modules[1..]); }
  }

  lemma {:induction false} KeepTwice<T>(modules: seq<T>, a: seq<T>, b: seq<T>)
    ensures Keep(Keep(modules, a), b) == Keep(modules, a + b)
  {
    if modules != [] {
      var rest := Keep(modules[1..], a);
      KeepTwice(modules[1..], a, b);
      assert ([modules[0]] + rest)[1..] == rest;
    }
  }

  lemma {:induction false} KeepShrinks<T>(modules: seq<T>, sorted: seq<T>, m: T)
    requires m in modules && m in sorted
    ensures |Keep(modules, sorted)| < |modules|
  {
    if modules[0] !in sorted { KeepShrinks(modules[1..], sorted, m); }
  }

  lemma {:induction false} KeepDifferent<T>(modules: seq<T>, sorted: seq<T>)
    requires AllDifferent(modules)
    ensures AllDifferent(Keep(modules, sorted))
  {
    if modules != [] {
      assert forall i | 0 <= i < |modules[1..]| :: modules[1..][i] == modules[i + 1];
      KeepDifferent(modules[1..], sorted);
    }
  }

  // The first remaining module comes after sorted ones only.
  lemma {:induction false} KeepFirst<T>(modules: seq<T>, sorted: seq<T>) returns (k: nat)
    requires Keep(modules, sorted) != []
    ensures k < |modules| && modules[k] == Keep(modules, sorted)[0] && forall j | 0 <= j < k :: modules[j] in sorted
  {
    if modules[0] in sorted {
      k := KeepFirst(modules[1..], sorted);
      k := k + 1;
      assert forall j | 1 <= j < k :: modules[j] == modules[1..][j - 1];
    } else {
      k := 0;
    }
  }

  // ---------- the sort ----------

  datatype Order<T> = Ok(order: seq<T>) | Cycle(reported: T)

  // Everything the module instantiates has been removed from the map.
  predicate Waitless<T(==)>(deps: Deps<T>, rest: seq<T>, m: T)
    requires m in deps
  {
    forall d | d in deps[m] :: d !in rest
  }

  // The remaining modules that wait for no remaining module, each once.
  ghost predicate Ready<T>(deps: Deps<T>, rest: seq<T>, ready: seq<T>) {
    && (forall i | 0 <= i < |ready| :: ready[i] in rest && ready[i] in deps && Waitless(deps, rest, ready[i]))
    && (forall m | m in rest && m in deps && Waitless(deps, rest, m) :: m in ready)
    && AllDifferent(ready)
  }

  // When no remaining module is ready, the remaining modules are exactly those that lead
  // into a cycle.
  lemma {:induction false} StuckIffLeads<T(!new)>(deps: Deps<T>, modules: seq<T>, sorted: seq<T>, m: T)
    requires Lists(deps, modules) && Prefix(deps, sorted) && Ready(deps, Keep(modules, sorted), []) && m in deps
    ensures m in Keep(modules, sorted) <==> LeadsIntoCycle(deps, m)
  {
    var rest := Keep(modules, sorted);
    var s := set x | x in rest;
    if m in rest {
      forall x | x in s ensures x in deps && WaitsFor(deps, x, s) {
        assert !Waitless(deps, rest, x);
      }
      StuckReachesCycle(deps, s, m);
    } else {
      PrefixLeadsNowhere(deps, sorted, m);
    }
  }

  // The first module in the order of the map that leads into a cycle.
  ghost predicate FirstLeading<T(!new)>(deps: Deps<T>, modules: seq<T>, k: nat) {
    k < |modules| && LeadsIntoCycle(deps, modules[k]) && forall j | 0 <= j < k :: !LeadsIntoCycle(deps, modules[j])
  }

  lemma {:induction false} FirstStuck<T(!new)>(deps: Deps<T>, modules: seq<T>, sorted: seq<T>) returns (k: nat)
    requires Lists(deps, modules) && Prefix(deps, sorted) && Keep(modules, sorted) != [] && Ready(deps, Keep(modules, sorted), [])
    ensures FirstLeading(deps, modules, k) && modules[k] == Keep(modules, sorted)[0] && Cyclic(deps)
  {
    k := KeepFirst(modules, sorted);
    StuckIffLeads(deps, modules, sorted, modules[k]);
    forall j | 0 <= j < k ensures !LeadsIntoCycle(deps, modules[j]) {
      StuckIffLeads(deps, modules, sorted, modules[j]);
    }
  }

  // Rounds over the map, in its order, of appending every module that waits for nothing;
  // modules are removed from the map only at the end of a round. The error names the first
  // module that is left.
  method Sort<T(!new)>(deps: Deps<T>, modules: seq<T>) returns (r: Order<T>)
    requires Closed(deps) && Lists(deps, modules)
    ensures r.Ok? ==> Sorted(deps, r.order)
    ensures r.Cycle? <==> Cyclic(deps)
    ensures r.Cycle? ==> exists k: nat :: FirstLeading(deps, modules, k) && r.reported == modules[k]
  {
    var sorted: seq<T> := [];
    var rest := modules;
    KeepAll(modules);
    while |rest| > 0
      invariant Prefix(deps, sorted) && rest == Keep(modules, sorted)
      decreases |rest|
    {
      var ready := ReadyModules(deps, rest, modules, sorted);
      if |ready| == 0 {
        ghost var k := FirstStuck(deps, modules, sorted);
        return Cycle(rest[0]);
      }
      AppendRound(deps, modules, sorted, ready);
      KeepShrinks(rest, ready, ready[0]);
      KeepTwice(modules, sorted, ready);
      rest := Erase(rest, ready);
      sorted := sorted + ready;
    }
    assert Sorted(deps, sorted);
    SortedIsAcyclic(deps, sorted);
    r := Ok(sorted);
  }

  method Erase<T(==)>(rest: seq<T>, ready: seq<T>) returns (erased: seq<T>)
    ensures erased == Keep(rest, ready)
  {
    erased := rest;
    KeepAll(rest);
    for k := 0 to |ready|
      invariant erased == Keep(rest, ready[..k])
    {
      KeepTwice(rest, ready[..k], [ready[k]]);
      assert ready[..k + 1] == ready[..k] + [ready[k]];
      erased := Keep(erased, [ready[k]]);
    }
    assert ready[..|ready|] == ready;
  }

  // One round over the map.
  method ReadyModules<T(==)>(deps: Deps<T>, rest: seq<T>, ghost modules: seq<T>,
      ghost sorted: seq<T>) returns (ready: seq<T>)
    requires Lists(deps, modules) && rest == Keep(modules, sorted)
    ensures Ready(deps, rest, ready)
  {
    KeepDifferent(modules, sorted);
    ready := [];
    for i := 0 to |rest|
      invariant forall j | 0 <= j < |ready| :: ready[j] in rest[..i] && ready[j] in deps && Waitless(deps, rest, ready[j])
      invariant forall j | 0 <= j < i && Waitless(deps, rest, rest[j]) :: rest[j] in ready
      invariant AllDifferent(ready)
    {
      assert rest[i] in rest;
      if Waitless(deps, rest, rest[i]) {
        assert rest[i] !in rest[..i];
        ready := ready + [rest[i]];
      }
    }
  }

  lemma {:induction false} AppendRound<T>(deps: Deps<T>, modules: seq<T>, sorted: seq<T>, ready: seq<T>)
    requires Closed(deps) && Lists(deps, modules) && Prefix(deps, sorted) && Ready(deps, Keep(modules, sorted), ready)
    ensures Prefix(deps, sorted + ready)
  {
    var all := sorted + ready;
    forall i | 0 <= i < |all|
      ensures all[i] in deps && forall d | d in deps[all[i]] :: d in all[..i]
    {
      if i < |sorted| {
        assert all[..i] == sorted[..i];
      } else {
        var m := ready[i - |sorted|];
        forall d | d in deps[m] ensures d in all[..i] {
          assert d in modules && d in sorted;
          var k :| 0 <= k < |sorted| && sorted[k] == d;
          assert all[..i][k] == d;
        }
      }
    }
    forall i, j | 0 <= i < j < |all| ensures all[i] != all[j] {
      if i < |sorted| <= j { assert all[j] in Keep(modules, sorted) && all[i] in sorted; }
    }
  }

  // ---------- when the error message is right ----------

  // The reported module lies on a cycle exactly when, in the order of the map, a module on
  // a cycle comes before all others that lead into one.
  lemma {:induction false} ReportIsOnCycleIff<T(!new)>(deps: Deps<T>, modules: seq<T>, k: nat)
    requires FirstLeading(deps, modules, k)
    ensures OnCycle(deps, modules[k]) <==>
            exists i :: 0 <= i < |modules| && OnCycle(deps, modules[i]) && forall j | 0 <= j < i :: !LeadsIntoCycle(deps, modules[j])
  {
    forall i | 0 <= i < |modules| && OnCycle(deps, modules[i]) && forall j | 0 <= j < i :: !LeadsIntoCycle(deps, modules[j])
      ensures i == k
    {
      OnCycleLeads(deps, modules[i]);
    }
  }

  // It lies on a cycle whatever the order of the map exactly when every module that leads
  // into a cycle lies on one.
  lemma {:induction false} ReportsAlwaysOnCycleIff<T(!new)>(deps: Deps<T>)
    ensures (forall modules, k | Lists(deps, modules) && FirstLeading(deps, modules, k) :: OnCycle(deps, modules[k]))
            <==> forall m | m in deps && LeadsIntoCycle(deps, m) :: OnCycle(deps, m)
  {
    forall m | m in deps && LeadsIntoCycle(deps, m) && !OnCycle(deps, m)
      ensures exists modules, k :: Lists(deps, modules) && FirstLeading(deps, modules, k) && !OnCycle(deps, modules[k])
    {
      var tail := Listing(deps.Keys - {m});
      var modules := [m] + tail;
      assert Lists(deps, modules) && FirstLeading(deps, modules, 0) && modules[0] == m;
    }
  }

  lemma {:induction false} Listing<T>(s: set<T>) returns (list: seq<T>)
    ensures AllDifferent(list) && (forall m | m in s :: m in list) && forall m | m in list :: m in s
    decreases |s|
  {
    list := [];
    if s != {} {
      var x :| x in s;
      var tail := Listing(s - {x});
      list := [x] + tail;
    }
  }

  // Module 0 instantiates module 1, which instantiates itself: the error names module 0,
  // which is on no cycle.
  method MisleadingReport() returns (r: Order<nat>)
    ensures r == Cycle(0) && !OnCycle(map[0 := {1}, 1 := {1}], 0)
  {
    var deps: Deps<nat> := map[0 := {1}, 1 := {1}];
    var modules := [0, 1];
    assert IsPath(deps, [0, 1, 1]) && IsCycle(deps, [0, 1, 1][1..]);
    assert LeadsIntoCycle(deps, 0) && Cyclic(deps);
    r := Sort(deps, modules);
    forall k: nat | FirstLeading(deps, modules, k) ensures k == 0 {
      assert modules[0] == 0;
    }
    forall p: seq<nat> | IsPath(deps, p) && |p| >= 2 ensures p[|p| - 1] == 1 {
      assert p[|p| - 2 + 1] in deps[p[|p| - 2]];
    }
  }
}
