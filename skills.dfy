/**
 * The skills section (generate_resume.py:39-45): skill rows grouped into a
 * dict from skill type to the list of that type's names.
 */
module Skills {
  import opened Dicts
  import opened Rows

  /** One row of the skills query: `SELECT skl.type, skl.name`. */
  datatype SkillRow = SkillRow(kind: Value, name: Value)

  /** The skills dict: skill type to the names of that type. */
  type Groups = Dict<Value, seq<Value>>

  /** The skill types of `rows`, in row order, repeats included. */
  function Kinds(rows: seq<SkillRow>): (kinds: seq<Value>)
    ensures |kinds| == |rows|
    ensures forall i :: 0 <= i < |rows| ==> kinds[i] == rows[i].kind
  {
    seq(|rows|, i requires 0 <= i < |rows| => rows[i].kind)
  }

  /** Reference definition: the names of the rows of type `kind`, in row order. */
  function NamesOf(rows: seq<SkillRow>, kind: Value): seq<Value> {
    if rows == [] then []
    else
      var last := rows[|rows| - 1];
      NamesOf(rows[..|rows| - 1], kind) + (if last.kind == kind then [last.name] else [])
  }

  /** One pass of the loop body: create the type's list when first seen, then append the name. */
  function AddSkill(g: Groups, row: SkillRow): Groups {
    var g' := if row.kind !in g.entries then g.Put(row.kind, []) else g;
    g'.Put(row.kind, g'.entries[row.kind] + [row.name])
  }

  /** The skills dict after the loop has handled `rows`. */
  function Grouped(rows: seq<SkillRow>): Groups {
    if rows == [] then Empty()
    else AddSkill(Grouped(rows[..|rows| - 1]), rows[|rows| - 1])
  }

  /** The grouping loop of generate_resume.py:39-45. */
  method GroupSkills(rows: seq<SkillRow>) returns (skills: Groups)
    ensures skills == Grouped(rows)
  {
    skills := Empty();
    for i := 0 to |rows|
      invariant skills == Grouped(rows[..i])
    {
      var row := rows[i];
      if row.kind !in skills.entries {
        skills := skills.Put(row.kind, []);
      }
      skills := skills.Put(row.kind, skills.entries[row.kind] + [row.name]);
      assert rows[..i + 1][..i] == rows[..i];
    }
    assert rows[..|rows|] == rows;
  }

  /** One loop pass keeps the dict valid, adds a new type last, and appends the name to its type's list. */
  lemma AddSkillEffect(g: Groups, row: SkillRow)
    requires g.Valid()
    ensures AddSkill(g, row).Valid()
    ensures AddSkill(g, row).keys == if row.kind in g.keys then g.keys else g.keys + [row.kind]
    ensures AddSkill(g, row).entries ==
      g.entries[row.kind := (if row.kind in g.entries then g.entries[row.kind] else []) + [row.name]]
  {
  }

  /** The skills dict keeps the dict invariant. */
  lemma {:induction false} GroupedValid(rows: seq<SkillRow>)
    ensures Grouped(rows).Valid()
  {
    if rows != [] {
      GroupedValid(rows[..|rows| - 1]);
      AddSkillEffect(Grouped(rows[..|rows| - 1]), rows[|rows| - 1]);
    }
  }

  /** The skill types are the keys, in the order of their first occurrence. */
  lemma {:induction false} GroupedKeys(rows: seq<SkillRow>)
    ensures Grouped(rows).Valid()
    ensures Grouped(rows).keys == Dedup(Kinds(rows))
  {
    if rows != [] {
      var p, r := rows[..|rows| - 1], rows[|rows| - 1];
      GroupedKeys(p);
      var g, ks := Grouped(p), Kinds(p);
      assert Grouped(rows) == AddSkill(g, r);
      AddSkillEffect(g, r);
      assert Kinds(rows) == ks + [r.kind];
      DedupSnoc(ks, r.kind);
    }
  }

  /**
   * The list stored for each skill type is exactly the names of that type's
   * rows, in row order.
   */
  lemma {:induction false} GroupedNames(rows: seq<SkillRow>)
    ensures forall k :: k in Grouped(rows).entries ==> Grouped(rows).entries[k] == NamesOf(rows, k)
  {
    if rows != [] {
      var p, r := rows[..|rows| - 1], rows[|rows| - 1];
      GroupedKeys(p);
      GroupedNames(p);
      AddSkillEffect(Grouped(p), r);
      forall k | k in Grouped(rows).entries
        ensures Grouped(rows).entries[k] == NamesOf(rows, k)
      {
        assert NamesOf(rows, k) == NamesOf(p, k) + (if r.kind == k then [r.name] else []);
        if k != r.kind {
          assert k in Grouped(p).entries;
        } else if r.kind !in Grouped(p).entries {
          assert r.kind !in Kinds(p);
          NamesOfAbsent(p, k);
        }
      }
    }
  }

  /** A type no row has collects no names. */
  lemma {:induction false} NamesOfAbsent(rows: seq<SkillRow>, kind: Value)
    requires kind !in Kinds(rows)
    ensures NamesOf(rows, kind) == []
  {
    if rows != [] {
      var p := rows[..|rows| - 1];
      assert Kinds(p) == Kinds(rows)[..|rows| - 1];
      NamesOfAbsent(p, kind);
    }
  }

  /** A skill type is a key of the skills dict exactly when some row has that type. */
  lemma SkillTypeIsKeyIffSomeRowHasIt(rows: seq<SkillRow>, kind: Value)
    ensures kind in Grouped(rows).entries <==> exists i :: 0 <= i < |rows| && rows[i].kind == kind
  {
    GroupedKeys(rows);
    if kind in Kinds(rows) {
      var i :| 0 <= i < |rows| && Kinds(rows)[i] == kind;
    }
  }

  /** The skill types appear in the order of each type's first row. */
  lemma SkillTypesInFirstOccurrenceOrder(rows: seq<SkillRow>)
    ensures forall k :: k in Grouped(rows).keys ==> k in Kinds(rows)
    ensures forall i, j :: 0 <= i < j < |Grouped(rows).keys| ==>
      FirstIndex(Kinds(rows), Grouped(rows).keys[i]) < FirstIndex(Kinds(rows), Grouped(rows).keys[j])
  {
    GroupedKeys(rows);
    DedupFirstOccurrenceOrder(Kinds(rows));
  }

  /** The skills dict is empty exactly when there are no skill rows. */
  lemma SkillsEmptyIffNoRows(rows: seq<SkillRow>)
    ensures Grouped(rows).keys == [] <==> rows == []
    ensures Grouped(rows).entries == map[] <==> rows == []
  {
    GroupedKeys(rows);
    if rows != [] {
      assert rows[0].kind in Kinds(rows);
    }
  }

  /**
   * A name is in the list of its own row's type, and a list holds only names
   * of rows of that type: `x` is in the list of `kind` exactly when some row
   * of type `kind` has name `x`.
   */
  lemma {:induction false} NamesOfMembers(rows: seq<SkillRow>, kind: Value, x: Value)
    ensures x in NamesOf(rows, kind) <==> exists i :: 0 <= i < |rows| && rows[i].kind == kind && rows[i].name == x
  {
    if rows != [] {
      var p := rows[..|rows| - 1];
      NamesOfMembers(p, kind, x);
      if exists i :: 0 <= i < |rows| && rows[i].kind == kind && rows[i].name == x {
        var i :| 0 <= i < |rows| && rows[i].kind == kind && rows[i].name == x;
        if i < |p| {
          assert p[i] == rows[i];
        }
      }
      if exists i :: 0 <= i < |p| && p[i].kind == kind && p[i].name == x {
        var i :| 0 <= i < |p| && p[i].kind == kind && p[i].name == x;
        assert rows[i] == p[i];
      }
    }
  }

  /** Every skill row's name lands in the list of that row's type. */
  lemma NameInOwnGroup(rows: seq<SkillRow>, i: nat)
    requires i < |rows|
    ensures rows[i].kind in Grouped(rows).entries
    ensures rows[i].name in Grouped(rows).entries[rows[i].kind]
  {
    SkillTypeIsKeyIffSomeRowHasIt(rows, rows[i].kind);
    GroupedNames(rows);
    NamesOfMembers(rows, rows[i].kind, rows[i].name);
  }

  /** The total length of the lists stored under `keys`. */
  function TotalNames(keys: seq<Value>, entries: map<Value, seq<Value>>): nat {
    if keys == [] then 0
    else
      var k := keys[|keys| - 1];
      TotalNames(keys[..|keys| - 1], entries) + (if k in entries then |entries[k]| else 0)
  }

  /** The total does not look at keys outside `keys`. */
  lemma {:induction false} TotalNamesIgnoresOtherKeys(keys: seq<Value>, entries: map<Value, seq<Value>>, k: Value, s: seq<Value>)
    requires k !in keys
    ensures TotalNames(keys, entries[k := s]) == TotalNames(keys, entries)
  {
    if keys != [] {
      TotalNamesIgnoresOtherKeys(keys[..|keys| - 1], entries, k, s);
    }
  }

  /** Appending one name to a present key's list adds one to the total. */
  lemma {:induction false} TotalNamesAppend(keys: seq<Value>, entries: map<Value, seq<Value>>, k: Value, x: Value)
    requires Distinct(keys) && k in keys && k in entries
    ensures TotalNames(keys, entries[k := entries[k] + [x]]) == TotalNames(keys, entries) + 1
  {
    var p, last := keys[..|keys| - 1], keys[|keys| - 1];
    if k == last {
      assert k !in p;
      TotalNamesIgnoresOtherKeys(p, entries, k, entries[k] + [x]);
    } else {
      assert k in p;
      TotalNamesAppend(p, entries, k, x);
    }
  }

  /** A key added last with list `s` adds the length of `s` to the total. */
  lemma TotalNamesNewKey(keys: seq<Value>, entries: map<Value, seq<Value>>, k: Value, s: seq<Value>)
    requires k !in keys
    ensures TotalNames(keys + [k], entries[k := s]) == TotalNames(keys, entries) + |s|
  {
    assert (keys + [k])[..|keys|] == keys;
    TotalNamesIgnoresOtherKeys(keys, entries, k, s);
  }

  /** The number of names across all skill groups equals the number of skill rows. */
  lemma {:induction false} SkillCountPreserved(rows: seq<SkillRow>)
    ensures TotalNames(Grouped(rows).keys, Grouped(rows).entries) == |rows|
  {
    if rows != [] {
      var p, r := rows[..|rows| - 1], rows[|rows| - 1];
      SkillCountPreserved(p);
      GroupedValid(p);
      var g := Grouped(p);
      AddSkillEffect(g, r);
      var h := AddSkill(g, r);
      assert Grouped(rows) == h;
      if r.kind in g.entries {
        TotalNamesAppend(g.keys, g.entries, r.kind, r.name);
      } else {
        assert [] + [r.name] == [r.name];
        TotalNamesNewKey(g.keys, g.entries, r.kind, [r.name]);
      }
    }
  }

  /**
   * A worked instance: a type seen again after another type joins its
   * existing group, and the groups keep first-seen order.
   */
  lemma GroupingExample(a: SkillRow, b: SkillRow, c: SkillRow)
    requires a.kind == c.kind && a.kind != b.kind
    ensures var g := Grouped([a, b, c]);
      && g.keys == [a.kind, b.kind]
      && a.kind in g.entries && g.entries[a.kind] == [a.name, c.name]
      && b.kind in g.entries && g.entries[b.kind] == [b.name]
  {
    GroupingExamplePrefix(a, b);
    var g2 := Grouped([a, b]);
    AddSkillEffect(g2, c);
    assert [a, b, c][..2] == [a, b];
    assert Grouped([a, b, c]) == AddSkill(g2, c);
  }

  /** The first two rows of GroupingExample: one type each, in row order. */
  lemma GroupingExamplePrefix(a: SkillRow, b: SkillRow)
    requires a.kind != b.kind
    ensures var g := Grouped([a, b]);
      && g.Valid()
      && g.keys == [a.kind, b.kind]
      && a.kind in g.entries && g.entries[a.kind] == [a.name]
      && b.kind in g.entries && g.entries[b.kind] == [b.name]
  {
    GroupingOneRow(a);
    var g1 := Grouped([a]);
    AddSkillEffect(g1, b);
    assert [a, b][..1] == [a];
    assert Grouped([a, b]) == AddSkill(g1, b);
  }

  /** A single row: its type is the one key, holding its name alone. */
  lemma GroupingOneRow(a: SkillRow)
    ensures var g := Grouped([a]);
      && g.Valid() && g.keys == [a.kind] && a.kind in g.entries && g.entries[a.kind] == [a.name]
  {
    var g0: Groups := Empty();
    assert [a][..0] == [];
    assert Grouped([a]) == AddSkill(g0, a);
    AddSkillEffect(g0, a);
  }
}
