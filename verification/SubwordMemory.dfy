// Sub-word writes through write ports: from assignments mem[a][hi:lo] = v in program order
// to the memory that the ports commit.
module SubwordMemory {
  import opened Arithmetic
  import opened BitVectors
  import opened LvalueShift
  import opened MemoryPorts
  import opened SubwordWrites

  // One executed assignment: its address, its lowest declared index and its value.
  datatype Assignment = Assignment(addr: int, idx: int, value: Bits)

  // The words of the memory are declared [base + width - 1 : base].
  datatype Shape = Shape(width: nat, base: int)

  predicate Selects(m: Shape, a: Assignment, bit: nat) {
    bit < m.width && a.idx <= m.base + bit < a.idx + |a.value|
  }

  // The bits that the assignment itself stores.
  function Stored(m: Shape, a: Assignment): map<nat, bool> {
    map b: nat | b < m.width && Selects(m, a, b) :: a.value[m.base + b - a.idx]
  }

  // The assignments in program order.
  function Assigned(m: Shape, mem: Memory, done: seq<Assignment>): Memory {
    if done == [] then mem
    else
      var a := done[|done| - 1];
      Assigned(m, mem, done[..|done| - 1]) + Cells(a.addr, Stored(m, a))
  }

  // ---------- what a port enables ----------

  function Enabled(data: Bits, en: Bits): map<nat, bool>
    requires |data| == |en|
  {
    map b: nat | b < |en| && en[b] :: data[b]
  }

  // The vectors update every word as the assignment does.
  ghost predicate Updates(m: Shape, data: Bits, en: Bits, a: Assignment) {
    && |data| == |en| == m.width
    && forall word: Bits | |word| == m.width ::
         Merged(word, data, en) == Updated(Word(m.width, m.base), word, a.idx, |a.value|, a.value)
  }

  // Vectors that update every word like an assignment enable its bits, with its values.
  lemma {:induction false} UpdatesExactly(m: Shape, data: Bits, en: Bits, a: Assignment)
    requires Updates(m, data, en, a)
    ensures Enabled(data, en) == Stored(m, a)
  {
    var zeros, ones := seq(m.width, i => false), seq(m.width, i => true);
    var w := Word(m.width, m.base);
    var z, o := Merged(zeros, data, en), Merged(ones, data, en);
    assert z == Updated(w, zeros, a.idx, |a.value|, a.value) && o == Updated(w, ones, a.idx, |a.value|, a.value);
    forall b: nat | b < m.width ensures (en[b] <==> Selects(m, a, b)) && (en[b] ==> data[b] == a.value[m.base + b - a.idx]) {
      assert z[b] == (if en[b] then data[b] else false) && o[b] == (if en[b] then data[b] else true);
    }
  }

  // The event of a port with vectors for the assignment.
  ghost predicate Emitted(m: Shape, e: Event, a: Assignment) {
    e.addr == a.addr && exists data, en :: Updates(m, data, en, a) && e.bits == Enabled(data, en)
  }

  method EmitConst(m: Shape, port: nat, addr: int, left: int, right: int, padding: Bits, rhs: Bits) returns (e: Event)
    requires left >= right >= m.base && |padding| == right - m.base
    ensures e.port == port && Emitted(m, e, Assignment(addr, right, Extend(rhs, left - right + 1, false)))
  {
    var data, en := ConstWrite(m.width, m.base, left, right, padding, rhs);
    assert Updates(m, data, en, Assignment(addr, right, Extend(rhs, left - right + 1, false)));
    e := Event(port, addr, Enabled(data, en));
  }

  method EmitDynamic(m: Shape, port: nat, addr: int, idx: int, bits: nat, n: nat, rhs: Bits,
      signed: bool) returns (e: Event)
    requires m.base <= idx < m.base + Pow2(bits)
    ensures e.port == port && Emitted(m, e, Assignment(addr, idx, Extend(rhs, n, signed)))
  {
    var data, en := DynamicWrite(m.width, m.base, idx, bits, n, rhs, signed);
    assert Updates(m, data, en, Assignment(addr, idx, Extend(rhs, n, signed)));
    e := Event(port, addr, Enabled(data, en));
  }

  // ---------- from assignments to the committed memory ----------

  lemma {:induction false} EmittedStores(m: Shape, e: Event, a: Assignment)
    requires Emitted(m, e, a)
    ensures e.addr == a.addr && e.bits == Stored(m, a)
  {
    var data, en :| Updates(m, data, en, a) && e.bits == Enabled(data, en);
    UpdatesExactly(m, data, en, a);
  }

  // Event by event, in program order.
  ghost predicate AllEmitted(m: Shape, es: seq<Event>, done: seq<Assignment>) {
    |es| == |done| && forall i | 0 <= i < |es| :: Emitted(m, es[i], done[i])
  }

  lemma {:induction false} SequentialIsAssigned(m: Shape, mem: Memory, es: seq<Event>, done: seq<Assignment>)
    requires AllEmitted(m, es, done)
    ensures Sequential(mem, es) == Assigned(m, mem, done)
    decreases |es|
  {
    if es != [] {
      var n := |es| - 1;
      PrefixEmitted(m, es, done, n);
      SequentialIsAssigned(m, mem, es[..n], done[..n]);
      EmittedStores(m, es[n], done[n]);
      SequentialLast(mem, es, n);
      assert Assigned(m, mem, done) == Assigned(m, mem, done[..n]) + Cells(done[n].addr, Stored(m, done[n]));
    }
  }

  lemma {:induction false} PrefixEmitted(m: Shape, es: seq<Event>, done: seq<Assignment>, n: nat)
    requires AllEmitted(m, es, done) && n < |es|
    ensures AllEmitted(m, es[..n], done[..n]) && Emitted(m, es[n], done[n])
  {
    forall i | 0 <= i < n ensures Emitted(m, es[..n][i], done[..n][i]) {
      assert Emitted(m, es[i], done[i]);
    }
  }

  // In every run of an always block whose ports carry sub-word assignments, the enabled
  // ports under their masks commit exactly the memory that the assignments leave in
  // program order.
  lemma {:induction false} SubwordPortsRefineAssignments(m: Shape, p: Stmt, name: string, mem: Memory, es: seq<Event>,
      done: seq<Assignment>, final: Memory)
    requires WellFormed(p) && Runs(p, name, 0, Ports(es)) && AllEmitted(m, es, done)
    ensures InOrder(Masks(p, name), es)
    ensures Commits(Masks(p, name), mem, (set e | e in es), final) <==> final == Assigned(m, mem, done)
  {
    PortsRefineWrites(p, name, mem, es, final);
    SequentialIsAssigned(m, mem, es, done);
  }
}
