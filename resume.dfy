/**
 * `build_resume_details` (generate_resume.py:9-99): the five query results
 * folded into the nested resume document handed to the template.
 */
module Resume {
  import opened Wrappers
  import opened Dicts
  import opened Rows
  import opened Skills

  /**
   * Why assembly stops: the resume query returned no row (`None.keys()`
   * raises), or a dict lacks a key the code reads (`KeyError`).
   */
  datatype Error = NoResumeRow | MissingKey(key: string)

  /** The keys the assembly adds beside the resume row's own columns. */
  predicate IsContainerKey(name: string) {
    name == "skills" || name == "education" || name == "experience"
  }

  /** A list of names as the document holds it. */
  function Leaves(names: seq<Value>): (items: seq<Node>)
    ensures |items| == |names|
    ensures forall i :: 0 <= i < |names| ==> items[i] == Leaf(names[i])
  {
    seq(|names|, i requires 0 <= i < |names| => Leaf(names[i]))
  }

  /** The `skills` section: each type mapped to the list of its names. */
  function SkillsNode(g: Groups): Node {
    Object(g.MapValues(names => List(Leaves(names))))
  }

  /** One dict per row, in row order (education entries, accomplishments). */
  function Entries(rows: seq<Row>): (entries: seq<Node>)
    ensures |entries| == |rows|
    ensures forall i :: 0 <= i < |rows| ==> entries[i] == Object(RowEntry(rows[i]))
  {
    seq(|rows|, i requires 0 <= i < |rows| => Object(RowEntry(rows[i])))
  }

  /** One experience entry: the row's columns plus its accomplishments list. */
  function ExperienceEntry(row: Row, accomplishments: seq<Row>): Node {
    Object(RowEntry(row).Put(Text("accomplishments"), List(Entries(accomplishments))))
  }

  /** The `experience` section; `accomplishments[i]` belongs to `rows[i]`. */
  function Experiences(rows: seq<Row>, accomplishments: seq<seq<Row>>): (entries: seq<Node>)
    requires |accomplishments| == |rows|
    ensures |entries| == |rows|
    ensures forall i :: 0 <= i < |rows| ==> entries[i] == ExperienceEntry(rows[i], accomplishments[i])
  {
    seq(|rows|, i requires 0 <= i < |rows| => ExperienceEntry(rows[i], accomplishments[i]))
  }

  /** The top-level dict: the resume row's columns, then the three sections. */
  function Document(row: Row, skills: Node, education: Node, experience: Node): Dict<Value, Node> {
    RowEntry(row).Put(Text("skills"), skills).Put(Text("education"), education).Put(Text("experience"), experience)
  }

  /**
   * What `build_resume_details` returns or raises, given the rows of its
   * queries: `resumeRow` from the resume+objective query, `skillRows`,
   * `educationRows` and `experienceRows` from the next three, and
   * `accomplishmentRows[i]` from the accomplishments query run for the
   * i-th experience row.
   */
  function Assemble(resumeRow: Option<Row>, skillRows: seq<SkillRow>, educationRows: seq<Row>,
                    experienceRows: seq<Row>, accomplishmentRows: seq<seq<Row>>): Result<Node, Error>
    requires |accomplishmentRows| == |experienceRows|
  {
    if resumeRow.None? then Failure(NoResumeRow)
    else if !HasColumn(resumeRow.value, "id") then Failure(MissingKey("id"))
    else if !(forall i :: 0 <= i < |experienceRows| ==> HasColumn(experienceRows[i], "id")) then
      Failure(MissingKey("id"))
    else Success(Object(Document(resumeRow.value, SkillsNode(Grouped(skillRows)), List(Entries(educationRows)),
                                 List(Experiences(experienceRows, accomplishmentRows)))))
  }

  /**
   * Copies every row into its own dict and collects the dicts in row order
   * (generate_resume.py:57-62 for education, 90-94 for accomplishments).
   */
  method CopyRows(rows: seq<Row>) returns (entries: seq<Node>)
    ensures |entries| == |rows|
    ensures forall i :: 0 <= i < |rows| ==> entries[i] == Object(RowEntry(rows[i]))
  {
    entries := [];
    for i := 0 to |rows|
      invariant |entries| == i
      invariant forall j :: 0 <= j < i ==> entries[j] == Object(RowEntry(rows[j]))
    {
      var entry := CopyRow(rows[i]);
      entries := entries + [Object(entry)];
    }
  }

  /**
   * One pass of the experience loop (generate_resume.py:75-96): the row
   * copied, an empty `accomplishments` list stored, `company["id"]` read
   * (a `KeyError` when the row has no `id` column), then the list filled
   * with one copied dict per accomplishment row.
   */
  method BuildCompany(row: Row, accomplishments: seq<Row>) returns (r: Result<Node, Error>)
    ensures r.Success? <==> HasColumn(row, "id")
    ensures r.Failure? ==> r.error == MissingKey("id")
    ensures r.Success? ==> r.value == ExperienceEntry(row, accomplishments)
  {
    var copied := CopyRow(row);
    var company := copied.Put(Text("accomplishments"), List([]));
    RowEntryHasKey(row, "id");
    if Text("id") !in company.entries {
      return Failure(MissingKey("id"));
    }
    var items := CopyRows(accomplishments);
    company := company.Put(Text("accomplishments"), List(items));
    assert items == Entries(accomplishments);
    copied.PutTwice(Text("accomplishments"), List([]), List(items));
    return Success(Object(company));
  }

  /**
   * The experience loop (generate_resume.py:74-97): each row turned into its
   * entry and appended, in row order; the first row without an `id` column
   * stops the assembly.
   */
  method BuildExperience(rows: seq<Row>, accomplishments: seq<seq<Row>>) returns (r: Result<seq<Node>, Error>)
    requires |accomplishments| == |rows|
    ensures r.Success? <==> forall i :: 0 <= i < |rows| ==> HasColumn(rows[i], "id")
    ensures r.Failure? ==> r.error == MissingKey("id")
    ensures r.Success? ==> |r.value| == |rows|
    ensures r.Success? ==> forall i :: 0 <= i < |rows| ==> r.value[i] == ExperienceEntry(rows[i], accomplishments[i])
  {
    var entries := [];
    for i := 0 to |rows|
      invariant |entries| == i
      invariant forall j :: 0 <= j < i ==> HasColumn(rows[j], "id")
      invariant forall j :: 0 <= j < i ==> entries[j] == ExperienceEntry(rows[j], accomplishments[j])
    {
      var company := BuildCompany(rows[i], accomplishments[i]);
      if company.Failure? {
        return Failure(company.error);
      }
      entries := entries + [company.value];
    }
    return Success(entries);
  }

  /**
   * `build_resume_details`, with the query results as parameters. The
   * sections are stored when complete; Python stores each container first
   * and fills it in place, which leaves the key in the same position and
   * the same contents at the end.
   */
  method BuildResumeDetails(resumeRow: Option<Row>, skillRows: seq<SkillRow>, educationRows: seq<Row>,
                            experienceRows: seq<Row>, accomplishmentRows: seq<seq<Row>>)
    returns (r: Result<Node, Error>)
    requires |accomplishmentRows| == |experienceRows|
    ensures r == Assemble(resumeRow, skillRows, educationRows, experienceRows, accomplishmentRows)
    ensures resumeRow.None? ==> r == Failure(NoResumeRow)
    ensures r.Success? <==>
      resumeRow.Some? && HasColumn(resumeRow.value, "id") &&
      forall i :: 0 <= i < |experienceRows| ==> HasColumn(experienceRows[i], "id")
  {
    if resumeRow.None? {
      return Failure(NoResumeRow);
    }
    var resume := CopyRow(resumeRow.value);
    RowEntryHasKey(resumeRow.value, "id");
    if Text("id") !in resume.entries {
      return Failure(MissingKey("id"));
    }
    var skills := GroupSkills(skillRows);
    resume := resume.Put(Text("skills"), SkillsNode(skills));
    var education := CopyRows(educationRows);
    resume := resume.Put(Text("education"), List(education));
    var experience := BuildExperience(experienceRows, accomplishmentRows);
    if experience.Failure? {
      return Failure(experience.error);
    }
    resume := resume.Put(Text("experience"), List(experience.value));
    assert education == Entries(educationRows);
    assert experience.value == Experiences(experienceRows, accomplishmentRows);
    return Success(Object(resume));
  }

  /**
   * The document is a valid dict whose keys are the resume row's distinct
   * column names in column order, followed by `skills`, `education` and
   * `experience`; a section key that is also a column name keeps the
   * column's place.
   */
  lemma DocumentKeys(row: Row, skills: Node, education: Node, experience: Node)
    ensures Document(row, skills, education, experience).Valid()
    ensures Document(row, skills, education, experience).keys ==
      Dedup(ColumnKeys(row) + [Text("skills")] + [Text("education")] + [Text("experience")])
  {
    var cols := ColumnKeys(row);
    RowEntryThenPut(row, "skills", skills);
    var d1 := RowEntry(row).Put(Text("skills"), skills);
    d1.PutKeepsFirstOccurrence(cols + [Text("skills")], Text("education"), education);
    var d2 := d1.Put(Text("education"), education);
    d2.PutKeepsFirstOccurrence(cols + [Text("skills")] + [Text("education")], Text("experience"), experience);
  }

  /**
   * Every column of the resume row whose name is not a section key is a
   * top-level key of the document, holding what `row[name]` returns.
   */
  lemma DocumentColumns(row: Row, skills: Node, education: Node, experience: Node)
    ensures forall i :: 0 <= i < |row| && !IsContainerKey(row[i].name) ==>
      HasColumn(row, row[i].name) && Text(row[i].name) in Document(row, skills, education, experience).entries &&
      Document(row, skills, education, experience).entries[Text(row[i].name)] == Leaf(ColumnValue(row, row[i].name))
  {
    RowEntryValues(row);
    var d0 := RowEntry(row);
    var d1 := d0.Put(Text("skills"), skills);
    var d2 := d1.Put(Text("education"), education);
    var doc := d2.Put(Text("experience"), experience);
    forall i | 0 <= i < |row| && !IsContainerKey(row[i].name)
      ensures Text(row[i].name) in doc.entries && doc.entries[Text(row[i].name)] == d0.entries[Text(row[i].name)]
    {
      var k := Text(row[i].name);
      assert k != Text("skills") && k != Text("education") && k != Text("experience");
    }
  }

  /**
   * A successful assembly is a dict that always holds the three sections,
   * whatever rows the queries return: `skills` the grouped skills,
   * `education` one entry per education row, `experience` one entry per
   * experience row.
   */
  lemma AssembledSections(resumeRow: Option<Row>, skillRows: seq<SkillRow>, educationRows: seq<Row>,
                          experienceRows: seq<Row>, accomplishmentRows: seq<seq<Row>>)
    requires |accomplishmentRows| == |experienceRows|
    requires Assemble(resumeRow, skillRows, educationRows, experienceRows, accomplishmentRows).Success?
    ensures var doc := Assemble(resumeRow, skillRows, educationRows, experienceRows, accomplishmentRows).value;
      && doc.Object?
      && Text("skills") in doc.fields.entries
      && doc.fields.entries[Text("skills")] == SkillsNode(Grouped(skillRows))
      && Text("education") in doc.fields.entries
      && doc.fields.entries[Text("education")] == List(Entries(educationRows))
      && Text("experience") in doc.fields.entries
      && doc.fields.entries[Text("experience")] == List(Experiences(experienceRows, accomplishmentRows))
  {
  }

  /**
   * The `skills` section: a valid dict whose keys are exactly the skill types
   * of the rows, in the order of their first row; each type's list holds the
   * names of that type's rows in row order; empty exactly when there are no
   * skill rows.
   */
  lemma SkillsSection(rows: seq<SkillRow>)
    ensures SkillsNode(Grouped(rows)).Object?
    ensures var fields := SkillsNode(Grouped(rows)).fields;
      && fields.Valid()
      && fields.keys == Dedup(Kinds(rows))
      && (forall k :: k in fields.entries <==> k in Kinds(rows))
      && (forall k :: k in fields.entries ==> fields.entries[k] == List(Leaves(NamesOf(rows, k))))
      && (fields.keys == [] <==> rows == [])
  {
    GroupedKeys(rows);
    GroupedNames(rows);
    SkillsEmptyIffNoRows(rows);
    var g := Grouped(rows);
    var fields := SkillsNode(g).fields;
    assert forall k :: k in fields.entries <==> k in g.entries;
  }

  /**
   * One experience entry: a valid dict holding the row's distinct column
   * names in column order and then `accomplishments`, each column with what
   * `row[name]` returns, and `accomplishments` a list of one dict per
   * accomplishment row, in row order.
   */
  lemma ExperienceEntryShape(row: Row, accomplishments: seq<Row>)
    ensures ExperienceEntry(row, accomplishments).Object?
    ensures var fields := ExperienceEntry(row, accomplishments).fields;
      && fields.Valid()
      && fields.keys == Dedup(ColumnKeys(row) + [Text("accomplishments")])
      && Text("accomplishments") in fields.entries
      && fields.entries[Text("accomplishments")] == List(Entries(accomplishments))
      && (forall i :: 0 <= i < |row| && row[i].name != "accomplishments" ==>
            HasColumn(row, row[i].name) && Text(row[i].name) in fields.entries &&
            fields.entries[Text(row[i].name)] == Leaf(ColumnValue(row, row[i].name)))
  {
    RowEntryThenPut(row, "accomplishments", List(Entries(accomplishments)));
  }
}
