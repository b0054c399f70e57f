/**
 * The values the database hands back, the rows that carry them, and the
 * column-by-column copy of a row into a dict (generate_resume.py, the
 * `for key in row.keys(): d[key] = row[key]` loops).
 */
module Rows {
  import opened Dicts

  /** One SQLite column value as Python receives it: None, int, str or bytes. */
  datatype Value = Null | Integer(i: int) | Text(s: string) | Blob(bytes: seq<bv8>)

  /** A value of the assembled document: a column value, a list, or a dict. */
  datatype Node = Leaf(value: Value) | List(items: seq<Node>) | Object(fields: Dict<Value, Node>)

  /** One column of a result row: its name in the cursor description and its value. */
  datatype Column = Column(name: string, value: Value)

  /** A `sqlite3.Row`: the columns of one result row, in SELECT order; names may repeat. */
  type Row = seq<Column>

  /** The dict keys a row's column names become, in column order. */
  function ColumnKeys(row: Row): (keys: seq<Value>)
    ensures |keys| == |row|
    ensures forall i :: 0 <= i < |row| ==> keys[i] == Text(row[i].name)
  {
    seq(|row|, i requires 0 <= i < |row| => Text(row[i].name))
  }

  /** Some column is named exactly `key`. */
  predicate HasColumn(row: Row, key: string) {
    exists i :: 0 <= i < |row| && row[i].name == key
  }

  function Lower(c: char): char {
    if 'A' <= c <= 'Z' then (c as int + 32) as char else c
  }

  /**
   * `a` and `b` are ASCII strings of equal length that differ at most in the
   * case of their letters.
   */
  predicate AsciiEqualIgnoringCase(a: string, b: string) {
    if a == [] || b == [] then a == b
    else a[0] as int < 128 && b[0] as int < 128 && Lower(a[0]) == Lower(b[0]) &&
         AsciiEqualIgnoringCase(a[1..], b[1..])
  }

  /**
   * How `sqlite3.Row` compares a requested key with a column name: equal
   * strings, or two ASCII strings equal up to the case of their letters.
   */
  predicate NameMatch(name: string, key: string) {
    name == key || AsciiEqualIgnoringCase(name, key)
  }

  /**
   * The column `row[key]` picks for a key taken from `row.keys()`: the first
   * one whose name matches the key.
   */
  function FirstMatch(row: Row, key: string): (j: nat)
    requires HasColumn(row, key)
    ensures j < |row| && NameMatch(row[j].name, key)
    ensures forall l :: 0 <= l < j ==> !NameMatch(row[l].name, key)
  {
    if NameMatch(row[0].name, key) then 0
    else
      var i :| 0 <= i < |row| && row[i].name == key;
      assert row[1..][i - 1] == row[i];
      1 + FirstMatch(row[1..], key)
  }

  /** `row[key]`: scans the columns for the first whose name matches `key`. */
  function ColumnValue(row: Row, key: string): Value
    requires HasColumn(row, key)
  {
    if NameMatch(row[0].name, key) then row[0].value
    else
      var i :| 0 <= i < |row| && row[i].name == key;
      assert row[1..][i - 1] == row[i];
      ColumnValue(row[1..], key)
  }

  /** `row[key]` returns the value of the column FirstMatch picks. */
  lemma {:induction false} ColumnValueIsFirstMatch(row: Row, key: string)
    requires HasColumn(row, key)
    ensures ColumnValue(row, key) == row[FirstMatch(row, key)].value
  {
    if !NameMatch(row[0].name, key) {
      var i :| 0 <= i < |row| && row[i].name == key;
      assert row[1..][i - 1] == row[i];
      ColumnValueIsFirstMatch(row[1..], key);
    }
  }

  /** The dict after the copy loop has handled the first `n` names of `row.keys()`. */
  function Copied(row: Row, n: nat): Dict<Value, Node>
    requires n <= |row|
  {
    if n == 0 then Empty()
    else
      var key := row[n - 1].name;
      Copied(row, n - 1).Put(Text(key), Leaf(ColumnValue(row, key)))
  }

  /** The dict a row is copied into: every name of `row.keys()` set to `row[name]`. */
  function RowEntry(row: Row): Dict<Value, Node> {
    Copied(row, |row|)
  }

  /**
   * Copies a row into a fresh dict, key by key
   * (generate_resume.py:27-28, 59-61, 77-78, 92-93).
   */
  method CopyRow(row: Row) returns (d: Dict<Value, Node>)
    ensures d == RowEntry(row)
  {
    d := Empty();
    for i := 0 to |row|
      invariant d == Copied(row, i)
    {
      var key := row[i].name;
      d := d.Put(Text(key), Leaf(ColumnValue(row, key)));
    }
  }

  lemma {:induction false} CopiedKeys(row: Row, n: nat)
    requires n <= |row|
    ensures Copied(row, n).Valid()
    ensures Copied(row, n).keys == Dedup(ColumnKeys(row)[..n])
  {
    if n > 0 {
      CopiedKeys(row, n - 1);
      var key := row[n - 1].name;
      assert ColumnKeys(row)[n - 1] == Text(key);
      Copied(row, n - 1).PutNextOfPrefix(ColumnKeys(row), n, Leaf(ColumnValue(row, key)));
    }
  }

  lemma {:induction false} CopiedValues(row: Row, n: nat)
    requires n <= |row|
    ensures forall i :: 0 <= i < n ==>
      HasColumn(row, row[i].name) && Text(row[i].name) in Copied(row, n).entries &&
      Copied(row, n).entries[Text(row[i].name)] == Leaf(ColumnValue(row, row[i].name))
  {
    if n > 0 {
      CopiedValues(row, n - 1);
      var key := row[n - 1].name;
      assert HasColumn(row, key);
      var prev, next := Copied(row, n - 1), Copied(row, n);
      var v := Leaf(ColumnValue(row, key));
      assert next.entries == prev.entries[Text(key) := v];
      forall i | 0 <= i < n
        ensures HasColumn(row, row[i].name) && Text(row[i].name) in next.entries
        ensures next.entries[Text(row[i].name)] == Leaf(ColumnValue(row, row[i].name))
      {
        if row[i].name == key {
          assert Text(row[i].name) == Text(key);
        } else {
          assert i < n - 1 && Text(row[i].name) != Text(key);
        }
      }
    }
  }

  /**
   * The copied row holds one key per distinct column name, in the order the
   * names first occur, each mapped to what `row[name]` returns; nothing else.
   */
  lemma RowEntryShape(row: Row)
    ensures RowEntry(row).Valid()
    ensures RowEntry(row).keys == Dedup(ColumnKeys(row))
    ensures forall k :: k in RowEntry(row).entries <==> k in ColumnKeys(row)
    ensures forall name :: Text(name) in RowEntry(row).entries <==> HasColumn(row, name)
    ensures forall i :: 0 <= i < |row| ==>
      HasColumn(row, row[i].name) &&
      RowEntry(row).entries[Text(row[i].name)] == Leaf(ColumnValue(row, row[i].name))
  {
    CopiedKeys(row, |row|);
    CopiedValues(row, |row|);
    assert ColumnKeys(row)[..|row|] == ColumnKeys(row);
  }

  /** The copy is a valid dict holding the distinct column names in the order they first occur. */
  lemma RowEntryKeys(row: Row)
    ensures RowEntry(row).Valid() && RowEntry(row).keys == Dedup(ColumnKeys(row))
  {
    CopiedKeys(row, |row|);
    assert ColumnKeys(row)[..|row|] == ColumnKeys(row);
  }

  /** Every column name of the row is a key of the copy, holding what `row[name]` returns. */
  lemma RowEntryValues(row: Row)
    ensures forall i :: 0 <= i < |row| ==>
      HasColumn(row, row[i].name) && Text(row[i].name) in RowEntry(row).entries &&
      RowEntry(row).entries[Text(row[i].name)] == Leaf(ColumnValue(row, row[i].name))
  {
    CopiedValues(row, |row|);
  }

  /**
   * Assigning one more key `k` after the copy: the keys become the distinct
   * column names followed by `k` if new, and every column not named `k` keeps
   * what `row[name]` returns.
   */
  lemma RowEntryThenPut(row: Row, k: string, v: Node)
    ensures RowEntry(row).Put(Text(k), v).Valid()
    ensures RowEntry(row).Put(Text(k), v).keys == Dedup(ColumnKeys(row) + [Text(k)])
    ensures forall i :: 0 <= i < |row| && row[i].name != k ==>
      HasColumn(row, row[i].name) && Text(row[i].name) in RowEntry(row).Put(Text(k), v).entries &&
      RowEntry(row).Put(Text(k), v).entries[Text(row[i].name)] == Leaf(ColumnValue(row, row[i].name))
  {
    RowEntryKeys(row);
    RowEntryValues(row);
    RowEntry(row).PutKeepsFirstOccurrence(ColumnKeys(row), Text(k), v);
  }

  /** The copy has the key `name` exactly when some column is named `name`. */
  lemma RowEntryHasKey(row: Row, name: string)
    ensures Text(name) in RowEntry(row).entries <==> HasColumn(row, name)
  {
    RowEntryShape(row);
  }

  /**
   * When no two column names match each other, the copy holds exactly the
   * row's columns: the keys in column order, each with its own column's value.
   */
  lemma RowEntryOfDistinctNames(row: Row)
    requires forall i, j :: 0 <= i < j < |row| ==> !NameMatch(row[i].name, row[j].name)
    ensures RowEntry(row).Valid() && RowEntry(row).keys == ColumnKeys(row)
    ensures forall i :: 0 <= i < |row| ==>
      Text(row[i].name) in RowEntry(row).entries && RowEntry(row).entries[Text(row[i].name)] == Leaf(row[i].value)
  {
    RowEntryKeys(row);
    RowEntryValues(row);
    var keys := ColumnKeys(row);
    forall i, j | 0 <= i < j < |row|
      ensures keys[i] != keys[j]
    {
      assert !NameMatch(row[i].name, row[j].name);
    }
    DedupOfDistinct(keys);
    forall i | 0 <= i < |row|
      ensures ColumnValue(row, row[i].name) == row[i].value
    {
      OwnColumnValue(row, i);
    }
  }

  /** A column whose name no earlier column matches is what `row[name]` returns. */
  lemma OwnColumnValue(row: Row, i: nat)
    requires i < |row|
    requires forall l :: 0 <= l < i ==> !NameMatch(row[l].name, row[i].name)
    ensures HasColumn(row, row[i].name) && ColumnValue(row, row[i].name) == row[i].value
  {
    assert HasColumn(row, row[i].name);
    ColumnValueIsFirstMatch(row, row[i].name);
  }

  /** An accomplishment row (columns `id` and `text`) becomes the dict {id: .., text: ..}. */
  lemma AccomplishmentEntry(id: Value, text: Value)
    ensures RowEntry([Column("id", id), Column("text", text)]) ==
      Dict([Text("id"), Text("text")], map[Text("id") := Leaf(id), Text("text") := Leaf(text)])
  {
    var row := [Column("id", id), Column("text", text)];
    RowEntryOfDistinctNames(row);
    var d := RowEntry(row);
    assert d.keys == [Text("id"), Text("text")];
    assert forall k :: k in d.entries <==> k in d.keys;
    assert d.entries.Keys == {Text("id"), Text("text")};
    assert d.entries[Text(row[0].name)] == Leaf(id);
    assert d.entries[Text(row[1].name)] == Leaf(text);
  }
}
