# Resume data assembly

This project models `build_resume_details` from `generate_resume.py`, the
routine that turns a résumé stored in SQLite into one nested dict for a
Jinja2 template. The routine runs five queries and folds their rows into
the dict:

- the resume row (with its objective), copied column by column into the
  top-level dict;
- the skill rows, grouped into an insertion-ordered dict that maps each
  skill type to the list of its names;
- the education rows, each copied into its own dict;
- the experience rows, each copied into its own dict with an
  `accomplishments` list of copied accomplishment rows.

The query results are the model's inputs:

- the resume row is an `Option<Row>` (`fetchone` returns `None` when there is no row);
- the other four queries are sequences of rows;
- `accomplishmentRows[i]` is what the accomplishments query returns for the i-th experience row.

The modules are:

- `Dicts`: Python's insertion-ordered `dict`. A key sequence plus a map;
  assigning an existing key keeps its position, and a new key goes last.
  `Dedup` and `FirstIndex` describe "distinct, in first-occurrence order".
- `Rows`: SQLite values and `sqlite3.Row`.
  - A row is a sequence of named columns, and names may repeat.
  - `row[key]` returns the first column whose name matches the key: equal
    strings, or ASCII strings equal up to letter case, as CPython's
    `sqlite3.Row` compares them.
  - `CopyRow` is the `for key in row.keys(): d[key] = row[key]` loop that
    occurs four times in the routine.
- `Skills`: the grouping loop, proved against the specification function
  `Grouped`, with lemmas about its keys, lists and counts.
- `Resume`: the whole routine.
  - `BuildResumeDetails` is the imperative model.
  - `Assemble` is its specification.
  - The lemmas describe the document's shape.
  - Errors: `NoResumeRow` is `None.keys()` raising `AttributeError`.
    `MissingKey("id")` is the `KeyError` of `resume["id"]` (line 37) or of
    `company["id"]` (line 89).

The queries have no `ORDER BY`, so every section keeps the order in which
its rows arrive.

## Model

| member | source | states |
|---|---|---|
| Dicts.Empty | generate_resume.py:12 | `{}` is a valid dict with no keys |
| Dicts.Dict.Put | generate_resume.py:43-45 | `d[k] = v` maps `k` to `v` and leaves every other entry alone; a new key goes after all present keys, and an existing key keeps its place |
| Dicts.Dict.PutKeepsFirstOccurrence | generate_resume.py:43-45 | when the keys are the distinct elements of `s` in first-occurrence order, assigning `k` keeps the dict valid and makes them those of `s + [k]` |
| Rows.CopyRow | generate_resume.py:27-28 | the loop's dict equals `RowEntry(row)`: each name of `row.keys()`, in column order, assigned `row[name]` |
| Rows.FirstMatch | generate_resume.py:28 | `row[key]` looks at the first column whose name matches `key`, exactly or ignoring ASCII case; no earlier column matches |
| Rows.ColumnValueIsFirstMatch | generate_resume.py:28 | the contract of `ColumnValue`, the `row[key]` lookup: it returns the value of the first column whose name matches `key`, the one `FirstMatch` picks |
| Rows.CopiedKeys | generate_resume.py:27-28 | after n loop passes the dict is valid and its keys are the first n column names without repeats, in first-occurrence order |
| Rows.CopiedValues | generate_resume.py:27-28 | after n loop passes each of the first n names is a key holding `row[name]` |
| Rows.RowEntryShape | generate_resume.py:27-28 | the copy has one key per distinct column name, in first-occurrence order; a name is a key iff some column has it; each holds `row[name]` |
| Rows.RowEntryKeys | generate_resume.py:27-28 | the copy is a valid dict whose keys are the distinct column names in first-occurrence order |
| Rows.RowEntryValues | generate_resume.py:27-28 | each column name of the row is a key of the copy holding `row[name]` |
| Rows.RowEntryHasKey | generate_resume.py:37 | `d[name]` on the copy succeeds iff the row has a column named exactly `name` |
| Rows.RowEntryThenPut | generate_resume.py:76-82 | one more assignment after the copy adds its key last unless a column already has that name; other columns keep their values |
| Rows.RowEntryOfDistinctNames | generate_resume.py:27-28 | when no two names match, the keys are exactly the column names in order, each with its own column's value |
| Rows.OwnColumnValue | generate_resume.py:28 | a column that no earlier column name matches is what `row[name]` returns |
| Rows.AccomplishmentEntry | generate_resume.py:84-93 | an `(id, text)` accomplishment row becomes exactly `{id: .., text: ..}` |
| Skills.GroupSkills | generate_resume.py:39-45 | the loop's dict equals `Grouped(rows)`, the fold of one loop pass over the rows |
| Skills.AddSkillEffect | generate_resume.py:42-45 | one pass keeps the dict valid, adds a new type last and leaves existing keys in place, and appends the name to its type's list |
| Skills.GroupedValid | generate_resume.py:39-45 | the skills dict always satisfies the dict invariant |
| Skills.GroupedKeys | generate_resume.py:39-45 | the keys are the skill types of the rows, each once, in first-occurrence order |
| Skills.GroupedNames | generate_resume.py:39-45 | each type's list is exactly the names of that type's rows, in row order |
| Skills.NamesOfAbsent | generate_resume.py:42-43 | a type that no row has collects no names |
| Skills.SkillTypeIsKeyIffSomeRowHasIt | generate_resume.py:42-43 | a type is a key iff some row has it |
| Skills.SkillTypesInFirstOccurrenceOrder | generate_resume.py:42-43 | every key is a row's type, and keys appear in the order of each type's first row |
| Skills.SkillsEmptyIffNoRows | generate_resume.py:39-45 | the skills dict is empty iff there are no skill rows |
| Skills.NamesOfMembers | generate_resume.py:45 | a name is in a type's list iff some row of that type has that name |
| Skills.NameInOwnGroup | generate_resume.py:45 | every row's name is in the list of its own type |
| Skills.TotalNamesIgnoresOtherKeys | generate_resume.py:45 | lists stored under keys outside the key sequence do not change the name count |
| Skills.TotalNamesAppend | generate_resume.py:45 | appending to an existing type's list adds exactly one to the name count |
| Skills.TotalNamesNewKey | generate_resume.py:43 | a new type added last adds the length of its list to the name count |
| Skills.SkillCountPreserved | generate_resume.py:40-45 | the lists hold as many names in total as there are skill rows |
| Skills.GroupingOneRow | generate_resume.py:39-45 | one row gives one key, its type, holding its name alone |
| Skills.GroupingExamplePrefix | generate_resume.py:39-45 | two rows of different types give two keys in row order, one name each |
| Skills.GroupingExample | generate_resume.py:39-45 | in rows of types A, B, A, the third name joins A's list after the first, and B stays second |
| Resume.CopyRows | generate_resume.py:57-62 | one copied dict per row, in row order, each the row's `RowEntry` |
| Resume.BuildCompany | generate_resume.py:75-97 | one experience row: fails with `MissingKey("id")` iff the row has no `id` column; otherwise its entry with `accomplishments` listing one copied dict per accomplishment row |
| Resume.BuildExperience | generate_resume.py:74-97 | succeeds iff every experience row has an `id` column; then one entry per row, in row order, each with that row's own accomplishments |
| Resume.BuildResumeDetails | generate_resume.py:9-99 | returns `Assemble(..)`: `NoResumeRow` when the resume query returns no row; succeeds iff the resume row and every experience row have an `id` column |
| Resume.DocumentKeys | generate_resume.py:27-74 | the top-level keys are the resume row's distinct column names in column order, then `skills`, `education`, `experience`, each only if not already a column name |
| Resume.DocumentColumns | generate_resume.py:27-74 | each resume column not named like a section is a top-level key holding `row[name]` |
| Resume.AssembledSections | generate_resume.py:39-97 | a successful result is a dict that always holds `skills`, `education` and `experience`, each built from its own rows |
| Resume.SkillsSection | generate_resume.py:39-45 | the `skills` section is a valid dict keyed by the skill types in first-occurrence order, each type's list its names in row order, empty iff there are no rows |
| Resume.ExperienceEntryShape | generate_resume.py:76-94 | an experience entry holds the row's columns in order, then `accomplishments`, a list of one dict per accomplishment row in row order |

## Left out

- The SQL itself is not modelled: the connection, the cursors, `closing`, the
  joins and the `WHERE` filters. The database does the joining and
  filtering, and each query's result is a parameter. Errors raised by
  SQLite (missing file, missing table) are not modelled.
- Parameter binding is not modelled. The query parameter
  `str(resume["id"])` is passed as the parameter sequence itself, so each
  character of the id is bound separately. An id of two or more digits
  would make the skills query (line 37) fail with a binding-count error,
  and the later queries would never run. The resume query pins
  `resume.id = 1` (line 24), so every row it can return has id 1, `str`
  gives `"1"`, and the error cannot occur. The model only requires the
  `id` key to exist.
- Template rendering with Jinja2, writing to a file or standard output,
  argument parsing and path handling are outside this routine and not
  modelled.
- Floating-point (REAL) column values are left out. Python dicts would
  merge a key `1` with a key `1.0`, and the model's values do not capture
  that.
- Containers are not modelled as being filled in place. Python stores each
  section container (`resume["skills"] = {}`, the lists, and
  `company['accomplishments'] = []`) first and then fills it. The model
  stores the finished container under the same key instead. Key order and
  final contents are the same, and a failure discards the whole dict in
  both cases.
- `.copy()` (lines 62, 94, 97) is shallow. The copied dicts are never
  changed afterwards, so no aliasing can be observed. The model works on
  values.
- The experience loop rebinds `rows` (line 84) and `row` (line 90) inside
  the loop over `rows`. Python's iteration holds on to the original list,
  and each `company` is complete before the rebinding. The model therefore
  iterates over the experience rows as given.
- Column names are matched the way current CPython `sqlite3.Row` matches
  them: exactly, or ignoring ASCII letter case. Older versions compare the UTF-8
  bytes of the names with bit 0x20 ignored. That differs only for rows
  with two column names that the older byte-wise comparison treats as
  equal and the current one does not.
