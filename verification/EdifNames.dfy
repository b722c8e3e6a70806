// The table of EDIF names (EdifNames in the EDIF backend): ids that are not legal EDIF
// names, or clash with a generated name, are renamed to id00001, id00002, ...
module EdifNames {
  import opened Numerals

  function GenName(c: nat): string {
    "id" + Padded(c, 5)
  }

  lemma {:induction false} GenNameInjective(a: nat, b: nat)
    requires GenName(a) == GenName(b)
    ensures a == b
  {
    assert GenName(a)[2..] == Padded(a, 5) && GenName(b)[2..] == Padded(b, 5);
    PaddedInjective(a, b, 5);
  }

  // id, then the number with at least five digits.
  lemma {:induction false} GenNameText(c: nat)
    ensures var g := GenName(c);
            && g[..2] == "id" && (forall i | 2 <= i < |g| :: IsDigit(g[i])) && ValueOf(g[2..]) == c
            && |g| >= 7 && (|g| > 7 ==> g[2] != '0')
  {
    var g := GenName(c);
    assert g[..2] == "id" && g[2..] == Padded(c, 5);
    DecimalValue(c);
    LeadingZeros(Zeros(5, |Decimal(c)|), Decimal(c));
    ZerosLength(5, |Decimal(c)|);
    FirstDigit(c);
    if |g| > 7 { assert g[2] == Decimal(c)[0]; }
  }

  lemma {:induction false} ZerosLength(width: nat, taken: nat)
    ensures |Zeros(width, taken)| == if width <= taken then 0 else width - taken
    decreases width - taken
  {
    if width > taken { ZerosLength(width, taken + 1); }
  }

  lemma {:induction false} FirstDigit(n: nat)
    ensures n > 0 ==> Decimal(n)[0] != '0'
    ensures n == 0 ==> |Decimal(n)| == 1
  {
    if n >= 10 { FirstDigit(n / 10); }
  }

  predicate LegalChar(id: string, i: nat)
    requires i < |id|
  {
    || 'A' <= id[i] <= 'Z' || 'a' <= id[i] <= 'z'
    || (IsDigit(id[i]) && i > 0)
    || (id[i] == '_' && i > 0 && i != |id| - 1)
  }

  predicate Reserved(id: string) {
    id == "GND" || id == "VCC"
  }

  // The id can be used as it stands.
  predicate Legal(id: string) {
    !Reserved(id) && forall i | 0 <= i < |id| :: LegalChar(id, i)
  }

  // ---------- the table as a value ----------

  datatype Table = Table(counter: nat, generated: set<string>, used: set<string>, nameMap: map<string, string>)

  const EMPTY := Table(1, {}, {}, map[])

  // The taken names the counter can still run into.
  ghost function Ahead(taken: set<string>, c: nat): set<string> {
    set x | x in taken && exists k: nat :: k >= c && GenName(k) == x
  }

  lemma {:induction false} AheadShrinks(taken: set<string>, c: nat)
    requires GenName(c) in taken
    ensures |Ahead(taken, c + 1)| < |Ahead(taken, c)|
  {
    var a, b := Ahead(taken, c), Ahead(taken, c + 1);
    if GenName(c) in b {
      var k: nat :| k >= c + 1 && GenName(k) == GenName(c);
      GenNameInjective(k, c);
    }
    assert GenName(c) in a && b <= a - {GenName(c)};
    Cardinality(b, a - {GenName(c)});
  }

  lemma {:induction false} Cardinality(a: set<string>, b: set<string>)
    requires a <= b
    ensures |a| <= |b|
  {
    if a != {} {
      var x :| x in a;
      Cardinality(a - {x}, b - {x});
    }
  }

  // The first number from c on whose name is free. The search ends because only finitely
  // many names are taken and no number gives the same name twice.
  ghost function Fresh(taken: set<string>, c: nat): (k: nat)
    ensures k >= c && GenName(k) !in taken && forall j | c <= j < k :: GenName(j) in taken
    decreases |Ahead(taken, c)|
  {
    if GenName(c) in taken then AheadShrinks(taken, c); Fresh(taken, c + 1) else c
  }

  // The name of an id, and the table after the call.
  ghost function Refer(t: Table, id: string): (Table, string) {
    if id in t.nameMap then (t, t.nameMap[id])
    else if id !in t.generated && Legal(id) then (t.(used := t.used + {id}), id)
    else
      var k := Fresh(t.generated + t.used, t.counter);
      (Table(k + 1, t.generated + {GenName(k)}, t.used, t.nameMap[id := GenName(k)]), GenName(k))
  }

  // The name an id has been given, if it has been given one.
  predicate Given(t: Table, id: string) {
    id in t.nameMap || id in t.used
  }

  function NameOf(t: Table, id: string): string
    requires Given(t, id)
  {
    if id in t.nameMap then t.nameMap[id] else id
  }

  // What holds of the table after any calls.
  ghost predicate Ok(t: Table) {
    && t.generated !! t.used && t.used !! t.nameMap.Keys
    && (forall id | id in t.used :: Legal(id))
    && (forall id | id in t.nameMap :: t.nameMap[id] in t.generated)
    && (forall a, b | a in t.nameMap && b in t.nameMap && t.nameMap[a] == t.nameMap[b] :: a == b)
    && (forall g | g in t.generated :: exists k: nat :: g == GenName(k))
    && (forall id | id in t.nameMap :: t.nameMap[id] != id && (Legal(id) ==> id in t.generated))
  }

  // ---------- identifiers ----------

  predicate Letter(c: char) {
    'A' <= c <= 'Z' || 'a' <= c <= 'z'
  }

  // A letter, then letters, digits and underscores, the last of which is no underscore.
  predicate Identifier(s: string) {
    && s != "" && Letter(s[0]) && s[|s| - 1] != '_'
    && forall i | 0 <= i < |s| :: Letter(s[i]) || '0' <= s[i] <= '9' || s[i] == '_'
  }

  // The ids that can be used as they stand are the identifiers, and the empty text.
  lemma {:induction false} LegalIff(id: string)
    ensures Legal(id) <==> id != "GND" && id != "VCC" && (id == "" || Identifier(id))
  {
    if id != "" {
      if Identifier(id) {
        forall i | 0 <= i < |id| ensures LegalChar(id, i) {
        }
      }
      if Legal(id) {
        assert LegalChar(id, 0) && LegalChar(id, |id| - 1);
        forall i | 0 <= i < |id| ensures Letter(id[i]) || '0' <= id[i] <= '9' || id[i] == '_' {
          assert LegalChar(id, i);
        }
      }
    }
  }

  lemma {:induction false} GenNameIsLegal(k: nat)
    ensures Identifier(GenName(k)) && Legal(GenName(k))
  {
    var g, p := GenName(k), Padded(k, 5);
    assert g[0] == 'i' && forall i | 2 <= i < |g| :: g[i] == p[i - 2];
    forall i | 0 <= i < |g| ensures Letter(g[i]) || '0' <= g[i] <= '9' {
      if i >= 2 { assert IsDigit(p[i - 2]); }
    }
    LegalIff(g);
  }

  // One call keeps the table in order, gives the id its name for good, and changes no
  // name given before. No two ids share a name, and no id gets the name GND or VCC.
  lemma {:induction false} ReferKeeps(t: Table, id: string)
    requires Ok(t)
    ensures var t', name := Refer(t, id).0, Refer(t, id).1;
            && Ok(t') && Given(t', id) && NameOf(t', id) == name
            && (forall x | Given(t, x) :: Given(t', x) && NameOf(t', x) == NameOf(t, x))
            && (forall x | Given(t', x) :: Given(t, x) || x == id)
  {
    if id in t.nameMap || (id !in t.generated && Legal(id)) {
    } else {
      RenameKeeps(t, id, Fresh(t.generated + t.used, t.counter));
    }
  }

  lemma {:induction false} RenameKeeps(t: Table, id: string, k: nat)
    requires Ok(t) && id !in t.nameMap && (id in t.generated || !Legal(id)) && GenName(k) !in t.generated + t.used
    ensures id !in t.used
    ensures Ok(Table(k + 1, t.generated + {GenName(k)}, t.used, t.nameMap[id := GenName(k)]))
  {
    GenNameIsLegal(k);
  }

  // Every name is an identifier, but for the empty id, which is its own name; and an id is
  // its own name exactly when it can be used as it stands and was not generated before.
  lemma {:induction false} NamesAreIdentifiers(t: Table, id: string)
    requires Ok(t)
    ensures var name := Refer(t, id).1;
            && (Identifier(name) <==> id != "")
            && (name == id <==> id != "GND" && id != "VCC" && (id == "" || Identifier(id)) && id !in t.generated)
  {
    LegalIff(id);
    if id in t.nameMap {
      var k: nat :| t.nameMap[id] == GenName(k);
      GenNameIsLegal(k);
    } else if !(id !in t.generated && Legal(id)) {
      GenNameIsLegal(Fresh(t.generated + t.used, t.counter));
      if id in t.generated { var j: nat :| id == GenName(j); }
    }
  }

  lemma {:induction false} NamesAreDistinct(t: Table, a: string, b: string)
    requires Ok(t) && Given(t, a) && Given(t, b)
    ensures NameOf(t, a) == NameOf(t, b) <==> a == b
    ensures !Reserved(NameOf(t, a))
  {
    if a in t.nameMap {
      var k: nat :| t.nameMap[a] == GenName(k);
      assert GenName(k)[0] == 'i';
    }
  }

  // ---------- every sequence of calls ----------

  ghost function TableAfter(ids: seq<string>): Table {
    if ids == [] then EMPTY else Refer(TableAfter(ids[..|ids| - 1]), ids[|ids| - 1]).0
  }

  // The answer to the last of the calls.
  ghost function Answer(ids: seq<string>): string
    requires ids != []
  {
    Refer(TableAfter(ids[..|ids| - 1]), ids[|ids| - 1]).1
  }

  lemma {:induction false} AnswersStay(ids: seq<string>, i: nat)
    requires i < |ids|
    ensures Ok(TableAfter(ids)) && Given(TableAfter(ids), ids[i])
    ensures NameOf(TableAfter(ids), ids[i]) == Answer(ids[..i + 1])
    decreases |ids|
  {
    TableOk(ids);
    LastAnswer(ids);
    if i < |ids| - 1 {
      var before := ids[..|ids| - 1];
      assert before[i] == ids[i] && before[..i + 1] == ids[..i + 1];
      AnswersStay(before, i);
    } else {
      assert ids[..i + 1] == ids;
    }
  }

  lemma {:induction false} LastAnswer(ids: seq<string>)
    requires ids != []
    ensures var t, t' := TableAfter(ids[..|ids| - 1]), TableAfter(ids);
            && Given(t', ids[|ids| - 1]) && NameOf(t', ids[|ids| - 1]) == Answer(ids)
            && forall x | Given(t, x) :: Given(t', x) && NameOf(t', x) == NameOf(t, x)
  {
    TableOk(ids[..|ids| - 1]);
    ReferKeeps(TableAfter(ids[..|ids| - 1]), ids[|ids| - 1]);
  }

  lemma {:induction false} TableOk(ids: seq<string>)
    ensures Ok(TableAfter(ids))
    decreases |ids|
  {
    if ids != [] {
      var n := |ids| - 1;
      TableOk(ids[..n]);
      ReferKeeps(TableAfter(ids[..n]), ids[n]);
    }
  }

  // Over every sequence of calls: two calls get the same answer exactly when they ask for
  // the same id, and no call is answered with a reserved name.
  lemma {:induction false} AnswersIdentify(ids: seq<string>, i: nat, j: nat)
    requires i < |ids| && j < |ids|
    ensures Answer(ids[..i + 1]) == Answer(ids[..j + 1]) <==> ids[i] == ids[j]
    ensures !Reserved(Answer(ids[..i + 1]))
  {
    AnswersStay(ids, i);
    AnswersStay(ids, j);
    NamesAreDistinct(TableAfter(ids), ids[i], ids[j]);
  }

  // Over every sequence of calls.
  lemma {:induction false} AnswersAreIdentifiers(ids: seq<string>, i: nat)
    requires i < |ids|
    ensures Identifier(Answer(ids[..i + 1])) <==> ids[i] != ""
    ensures Answer(ids[..i + 1]) == ids[i] ==> ids[i] == "" || Identifier(ids[i])
  {
    TableOk(ids[..i]);
    assert ids[..i + 1][..i] == ids[..i] && ids[..i + 1][i] == ids[i];
    NamesAreIdentifiers(TableAfter(ids[..i]), ids[i]);
  }

  // Numbers are used in turn: every number below the counter names something.
  lemma {:induction false} NoNumberSkipped(ids: seq<string>, j: nat)
    requires 1 <= j < TableAfter(ids).counter
    ensures GenName(j) in TableAfter(ids).generated + TableAfter(ids).used
    decreases |ids|
  {
    var n := |ids| - 1;
    var t := TableAfter(ids[..n]);
    if j < t.counter { NoNumberSkipped(ids[..n], j); }
  }

  // ---------- the renamer object ----------

  // What is written where a name is defined: the plain id, or the name with the original text.
  datatype Definition = Plain(name: string) | Rename(name: string, original: string)

  class Names {
    var counter: nat
    var generated: set<string>
    var used: set<string>
    var nameMap: map<string, string>
    const delimLeft: char := '['
    const delimRight: char := ']'

    constructor ()
      ensures Contents() == EMPTY
    {
      counter, generated, used, nameMap := 1, {}, {}, map[];
    }

    function Contents(): Table
      reads this
    {
      Table(counter, generated, used, nameMap)
    }

    method Reference(id: string) returns (name: string)
      modifies this
      ensures (Contents(), name) == Refer(old(Contents()), id)
    {
      if id in nameMap {
        return nameMap[id];
      }
      if id !in generated && !Reserved(id) {
        var legal := true;
        for i := 0 to |id|
          invariant legal <==> forall k | 0 <= k < i :: LegalChar(id, k)
        {
          if !LegalChar(id, i) { legal := false; }
        }
        if legal {
          used := used + {id};
          return id;
        }
      }
      ghost var taken := generated + used;
      while true
        invariant counter >= old(counter) && generated == old(generated) && used == old(used) && nameMap == old(nameMap)
        invariant Fresh(taken, old(counter)) == Fresh(taken, counter)
        decreases |Ahead(taken, counter)|
      {
        name := GenName(counter);
        if name in taken { AheadShrinks(taken, counter); }
        counter := counter + 1;
        if name !in generated && name !in used { break; }
      }
      generated := generated + {name};
      nameMap := nameMap[id := name];
    }

    // The text of a definition. A port with a range is always written with a rename.
    method Define(id: string, range: string) returns (d: Definition)
      modifies this
      ensures Contents() == Refer(old(Contents()), id).0 && d.name == Refer(old(Contents()), id).1
      ensures d.Plain? <==> range == "" && d.name == id
      ensures d.Rename? ==> d.original == if range == "" then id else id + [delimLeft] + range + [delimRight]
    {
      var name := Reference(id);
      if range != "" {
        return Rename(name, id + [delimLeft] + range + [delimRight]);
      }
      d := if name != id then Rename(name, id) else Plain(id);
    }
  }
}
