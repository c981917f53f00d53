/**
 * The two steps both scripts take before flattening a section: look the
 * section up with `find`, list its row elements with `findall`, and flatten
 * them. A section that `find` does not see is None, and the `findall` taken
 * on it raises AttributeError.
 */
module Sections {
  import opened Wrappers
  import opened PyExceptions
  import opened ElementTree
  import opened Flatten

  /**
   * `parent.find(section).findall(row)` followed by the repeated-row loop:
   * the table, None when no row element exists (the table variable is then
   * never bound), or the AttributeError of `findall` on a missing section.
   */
  function SectionRows(parent: Node, section: string, row: string): (r: Result<Option<Table>, Exception>)
    ensures r.Err? <==> Find(parent, section).None?
    ensures r.Err? ==> r.error == AttributeError("findall")
  {
    match Find(parent, section)
    case None => Err(AttributeError("findall"))
    case Some(s) => Ok(RowsTable(FindAll(s, row)))
  }

  /** The lookup and the flattening loop as the scripts run them, one section at a time. */
  method FlattenSection(parent: Node, section: string, row: string) returns (r: Result<Option<Table>, Exception>)
    ensures r == SectionRows(parent, section, row)
  {
    var found := Find(parent, section);
    if found.None? {
      return Err(AttributeError("findall"));
    }
    var rows := FindAll(found.value, row);
    var table := FlattenRows(rows);
    r := Ok(table);
  }

  /** Reading a table variable: its value, or the NameError of a variable no loop iteration bound. */
  function Bound(table: Option<Table>, name: string): (r: Result<Table, Exception>)
    ensures r.Ok? <==> table.Some?
    ensures r.Ok? ==> r.value == table.value
    ensures r.Err? ==> r.error == NameError(name)
  {
    match table
    case None => Err(NameError(name))
    case Some(t) => Ok(t)
  }

  /**
   * A repeated-row section read back after its loop: the table, the
   * AttributeError of a missing section, or the NameError of a table
   * variable that no row element bound.
   */
  function Repeated(parent: Node, section: string, row: string, name: string): Result<Table, Exception>
  {
    var rows :- SectionRows(parent, section, row);
    Bound(rows, name)
  }

  /** A repeated-row section's loop followed by the statement that reads its table variable. */
  method FlattenRepeated(parent: Node, section: string, row: string, name: string) returns (r: Result<Table, Exception>)
    ensures r == Repeated(parent, section, row, name)
  {
    var rows :- FlattenSection(parent, section, row);
    r := Bound(rows, name);
  }

  /** The section exists and holds at least one row element. */
  predicate HasRows(parent: Node, section: string, row: string)
  {
    Find(parent, section).Some? && FindAll(Find(parent, section).value, row) != []
  }

  /** A non-empty table whose every row has the row tag as column 0. */
  predicate RowTagged(t: Table, row: string)
  {
    |t| > 0 && forall i :: 0 <= i < |t| ==> |t[i]| > 0 && t[i][0].0 == row
  }

  /**
   * A repeated-row section reads back exactly when it exists and has a row
   * element; a missing section raises AttributeError and an empty one
   * NameError; the table has one row per row element, each led by the row tag.
   */
  lemma RepeatedSpec(parent: Node, section: string, row: string, name: string)
    ensures Repeated(parent, section, row, name).Ok? <==> HasRows(parent, section, row)
    ensures Find(parent, section).None? ==> Repeated(parent, section, row, name) == Err(AttributeError("findall"))
    ensures Find(parent, section).Some? && !HasRows(parent, section, row) ==>
      Repeated(parent, section, row, name) == Err(NameError(name))
    ensures Repeated(parent, section, row, name).Ok? ==>
      var t := Repeated(parent, section, row, name).value;
      |t| == |FindAll(Find(parent, section).value, row)| && RowTagged(t, row)
  {
    SectionRowsSpec(parent, section, row);
  }

  /** A `find` result that the script goes on to use: the element, or the exception using None raises. */
  function Required(found: Option<Node>, e: Exception): (r: Result<Node, Exception>)
    ensures r.Ok? <==> found.Some?
    ensures r.Ok? ==> r.value == found.value
    ensures r.Err? ==> r.error == e
  {
    match found
    case None => Err(e)
    case Some(n) => Ok(n)
  }

  /**
   * A section lookup fails exactly when the section is missing; the table is
   * unbound exactly when the section has no row element; otherwise it has one
   * row per row element, and column 0 of every row is the row tag itself.
   */
  lemma SectionRowsSpec(parent: Node, section: string, row: string)
    ensures SectionRows(parent, section, row).Err? <==> Find(parent, section).None?
    ensures SectionRows(parent, section, row).Err? ==>
      SectionRows(parent, section, row).error == AttributeError("findall")
    ensures SectionRows(parent, section, row) == Ok(None) <==>
      Find(parent, section).Some? && FindAll(Find(parent, section).value, row) == []
    ensures SectionRows(parent, section, row).Ok? && SectionRows(parent, section, row).value.Some? ==>
      var t := SectionRows(parent, section, row).value.value;
      |t| == |FindAll(Find(parent, section).value, row)| &&
      forall i :: 0 <= i < |t| ==> |t[i]| > 0 && t[i][0].0 == row
  {
    if Find(parent, section).Some? {
      var rows := FindAll(Find(parent, section).value, row);
      if rows != [] {
        assert rows[0] in rows;
        forall i | 0 <= i < |rows| ensures |RowsTable(rows).value[i]| > 0 && RowsTable(rows).value[i][0].0 == row {
          RowTagIsFirstColumn(rows, i);
        }
      }
    }
  }
}
