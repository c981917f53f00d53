/**
 * The section flattener that gelenParse.py and sonucParse.py repeat for every
 * section of a customs declaration: walk each row element, record the
 * visited tags of the first row as the column headers, record the visited
 * texts of every row, and append `dict(zip(headers, values))` to the table.
 */
module Flatten {
  import opened Wrappers
  import opened ElementTree
  import opened PyDict
  import opened Sequences

  /** One table row: the ordered mapping `dict(zip(headers, values))`. */
  type Row = seq<(string, Option<string>)>

  /** A table: its rows in the order they were appended. */
  type Table = seq<Row>

  /** `dict(zip(headers, values))`. */
  function RowOf(headers: seq<string>, values: seq<Option<string>>): Row
  {
    DictOf(Zip(headers, values))
  }

  /**
   * The table the repeated-row loop leaves behind: one row per row element,
   * each zipped against the headers taken from the first row's walk. With no
   * row element the table variable is never bound (None).
   */
  function RowsTable(rows: seq<Node>): (r: Option<Table>)
    ensures r.None? <==> rows == []
  {
    if rows == [] then None
    else
      var headers := Tags(Iter(rows[0]));
      Some(seq(|rows|, i requires 0 <= i < |rows| => RowOf(headers, Texts(Iter(rows[i])))))
  }

  /**
   * The loop of gelenParse.py and sonucParse.py over the row elements of one
   * section: the header list is filled from the first row's walk while the
   * header counter is 0, every row's walk fills a fresh value list, and the
   * zipped row creates the table (counter 0) or is appended to it.
   */
  method FlattenRows(rows: seq<Node>) returns (table: Option<Table>)
    ensures table == RowsTable(rows)
  {
    var headers: seq<string> := [];
    var headersCount := 0;
    var count := 0;
    table := None;
    for r := 0 to |rows|
      invariant headersCount == count == (if r == 0 then 0 else 1)
      invariant headers == if r == 0 then [] else Tags(Iter(rows[0]))
      invariant table == RowsTable(rows[..r])
    {
      var values: seq<Option<string>> := [];
      if headersCount == 0 {
        var walk := Iter(rows[r]);
        for j := 0 to |walk|
          invariant headers == Tags(walk[..j])
        {
          headers := headers + [walk[j].tag];
        }
        assert walk[..|walk|] == walk;
        headersCount := headersCount + 1;
      }
      var walk := Iter(rows[r]);
      for j := 0 to |walk|
        invariant values == Texts(walk[..j])
      {
        values := values + [walk[j].text];
      }
      assert walk[..|walk|] == walk;
      var row := RowOf(headers, values);
      RowsTableStep(rows, r);
      if count == 0 {
        table := Some([row]);
        count := 1;
      } else {
        table := Some(table.value + [row]);
      }
    }
    assert rows[..|rows|] == rows;
  }

  /** The table grows by the next row element's row, zipped against the first row's tags. */
  lemma RowsTableStep(rows: seq<Node>, r: nat)
    requires r < |rows|
    ensures var row := RowOf(Tags(Iter(rows[0])), Texts(Iter(rows[r])));
      RowsTable(rows[..r + 1]) == Some(if r == 0 then [row] else RowsTable(rows[..r]).value + [row])
  {
    var row := RowOf(Tags(Iter(rows[0])), Texts(Iter(rows[r])));
    var prefix := rows[..r + 1];
    assert prefix[0] == rows[0] && prefix[r] == rows[r];
    var done := RowsTable(prefix).value;
    assert |done| == r + 1 && done[r] == row;
    if r > 0 {
      assert rows[..r] + [rows[r]] == prefix;
      RowsTableAppend(rows[..r], [rows[r]]);
      assert done == done[..r] + [row];
    } else {
      assert done == [row];
    }
  }

  /**
   * What a zipped row holds: one column per distinct header among the first
   * `min(|headers|, |values|)`, in order of first occurrence, and under each
   * column the value of the last pair carrying that header.
   */
  lemma RowOfSpec(headers: seq<string>, values: seq<Option<string>>)
    ensures var m := if |headers| <= |values| then |headers| else |values|;
      Keys(RowOf(headers, values)) == Distinct(headers[..m])
    ensures NoDup(Keys(RowOf(headers, values)))
    ensures forall k :: Get(RowOf(headers, values), k) == LastValue(Zip(headers, values), k)
    ensures |headers| > 0 && |values| > 0 ==>
      |RowOf(headers, values)| > 0 && RowOf(headers, values)[0].0 == headers[0]
  {
    var m := if |headers| <= |values| then |headers| else |values|;
    assert Keys(Zip(headers, values)) == headers[..m];
    DictOfSpec(Zip(headers, values));
    DistinctSpec(headers[..m]);
    if m > 0 {
      DistinctHead(headers[..m]);
    }
  }

  /** A header that occurs once keeps its own position's value. */
  lemma {:induction false} LastValueUnique(headers: seq<string>, values: seq<Option<string>>, i: nat)
    requires i < |headers| && i < |values|
    requires forall j :: 0 <= j < |headers| && j != i ==> headers[j] != headers[i]
    ensures LastValue(Zip(headers, values), headers[i]) == Some(values[i])
    decreases |headers| + |values|
  {
    var z := Zip(headers, values);
    if z[|z| - 1].0 != headers[i] {
      var h', v' := headers[..|z| - 1], values[..|z| - 1];
      assert Zip(h', v') == z[..|z| - 1];
      LastValueUnique(h', v', i);
    }
  }

  /**
   * The table has one row per row element, in document order; the columns of
   * every row come from the FIRST row's walk, so rows appended later never
   * change the rows already in the table.
   */
  lemma {:induction false} RowsTableAppend(rows: seq<Node>, more: seq<Node>)
    requires rows != []
    ensures RowsTable(rows + more).Some? && |RowsTable(rows + more).value| == |rows| + |more|
    ensures RowsTable(rows + more).value[..|rows|] == RowsTable(rows).value
  {
    var all := rows + more;
    assert all[0] == rows[0];
    assert forall i :: 0 <= i < |rows| ==> all[i] == rows[i];
  }

  /**
   * In the repeated-row loops the walk includes the row element itself, so
   * column 0 of every row is the first row's tag (`firma`, `kalem`, ...), and
   * it holds the row element's own text when that tag does not occur deeper.
   */
  lemma RowTagIsFirstColumn(rows: seq<Node>, i: nat)
    requires i < |rows|
    ensures var t := RowsTable(rows).value; |t[i]| > 0 && t[i][0].0 == rows[0].tag
    ensures rows[0].tag !in Tags(IterSeq(rows[0].children)) ==>
      Get(RowsTable(rows).value[i], rows[0].tag) == Some(rows[i].text)
  {
    var headers, values := Tags(Iter(rows[0])), Texts(Iter(rows[i]));
    RowOfSpec(headers, values);
    if rows[0].tag !in Tags(IterSeq(rows[0].children)) {
      TagsAppend([rows[0]], IterSeq(rows[0].children));
      forall j | 0 <= j < |headers| && j != 0 ensures headers[j] != headers[0] {
        assert headers[j] == Tags(IterSeq(rows[0].children))[j - 1];
      }
      LastValueUnique(headers, values, 0);
    }
  }

  /**
   * When a row's walk is at least as long as the first row's (rows of the
   * same structure), its columns are exactly the distinct tags of the first
   * row's walk, one column per distinct visited tag.
   */
  lemma SameShapeRowColumns(rows: seq<Node>, i: nat)
    requires i < |rows| && |Iter(rows[i])| >= |Iter(rows[0])|
    ensures Keys(RowsTable(rows).value[i]) == Distinct(Tags(Iter(rows[0])))
    ensures |RowsTable(rows).value[i]| == |set k | k in Tags(Iter(rows[0]))|
  {
    var headers := Tags(Iter(rows[0]));
    RowOfSpec(headers, Texts(Iter(rows[i])));
    assert headers[..|headers|] == headers;
    DistinctSpec(headers);
    DistinctCard(headers);
  }

  lemma {:induction false} DistinctCard(s: seq<string>)
    ensures |Distinct(s)| == |set k | k in s|
    decreases |s|
  {
    if s != [] {
      var init, last := s[..|s| - 1], s[|s| - 1];
      DistinctCard(init);
      assert s == init + [last];
      var elems, initElems := set k | k in s, set k | k in init;
      assert elems == initElems + {last};
      if last !in init {
        assert last !in initElems;
        assert |elems| == |initElems| + 1;
        DistinctSpec(init);
        assert last !in Distinct(init);
      } else {
        assert elems == initElems;
      }
    }
  }

  // ---------------------------------------------------------------------
  // Single-row sections

  /**
   * The comprehension over a section's direct children (BeyannameBilgi,
   * Kiymet, the Sonuc root): one row zipping the children's tags with their
   * texts. The filter `elem is not section` never drops a child.
   */
  function ChildrenRow(section: Node): Row
  {
    RowOf(Tags(section.children), Texts(section.children))
  }

  /** Only direct children become columns: the columns are the distinct tags of the children. */
  lemma ChildrenRowColumns(section: Node)
    ensures Keys(ChildrenRow(section)) == Distinct(Tags(section.children))
    ensures forall k :: k in Keys(ChildrenRow(section)) ==> exists c :: c in section.children && c.tag == k
    ensures forall c :: c in section.children ==> c.tag in Keys(ChildrenRow(section))
  {
    var h := Tags(section.children);
    RowOfSpec(h, Texts(section.children));
    assert h[..|h|] == h;
    DistinctSpec(h);
    forall k | k in Keys(ChildrenRow(section)) ensures exists c :: c in section.children && c.tag == k {
      var j :| 0 <= j < |h| && h[j] == k;
      assert section.children[j] in section.children;
    }
    forall c | c in section.children ensures c.tag in Keys(ChildrenRow(section)) {
      var j :| 0 <= j < |section.children| && section.children[j] == c;
      assert h[j] == c.tag;
    }
  }

  /**
   * gelenParse.py's loop over the BeyannameBilgi section: each direct child
   * appends its tag to the headers and its text to the values.
   */
  method DirectChildrenRow(section: Node) returns (row: Row)
    ensures row == ChildrenRow(section)
  {
    var headers: seq<string> := [];
    var values: seq<Option<string>> := [];
    for j := 0 to |section.children|
      invariant headers == Tags(section.children[..j])
      invariant values == Texts(section.children[..j])
    {
      var item := section.children[j];
      headers := headers + [item.tag];
      values := values + [item.text];
    }
    assert section.children[..|section.children|] == section.children;
    row := RowOf(headers, values);
  }

  /**
   * The Ozetbeyan comprehension: one row from the walk of the line element
   * with the line element itself left out of both headers and values.
   */
  function WalkRowWithoutContainer(line: Node): Row
  {
    var walk := Iter(line)[1..];
    RowOf(Tags(walk), Texts(walk))
  }

  /** The Ozetbeyan row's columns are the distinct tags of the descendants only. */
  lemma WalkRowWithoutContainerColumns(line: Node)
    ensures Keys(WalkRowWithoutContainer(line)) == Distinct(Tags(IterSeq(line.children)))
    ensures line.tag !in Tags(IterSeq(line.children)) ==> line.tag !in Keys(WalkRowWithoutContainer(line))
  {
    var walk := Iter(line)[1..];
    assert walk == IterSeq(line.children);
    RowOfSpec(Tags(walk), Texts(walk));
    assert Tags(walk)[..|walk|] == Tags(walk);
    DistinctSpec(Tags(walk));
  }

  // ---------------------------------------------------------------------
  // The worked examples of the flattening rule

  lemma ItemWalk(item: Node, id: Node, name: Node)
    requires id.children == [] && name.children == [] && item.children == [id, name]
    ensures Iter(item) == [item, id, name]
  {
    assert Iter(id) == [id] && Iter(name) == [name];
    assert IterSeq([name]) == [name];
    assert [id, name][1..] == [name];
    assert IterSeq([id, name]) == [id, name];
  }

  /** `<item><id>1</id><name>A</name></item>`: the container is column 0, with no text. */
  lemma OneRowExample()
    ensures var item := Node("item", None, [Node("id", Some("1"), []), Node("name", Some("A"), [])]);
      RowsTable([item]) == Some([[("item", None), ("id", Some("1")), ("name", Some("A"))]])
  {
    var id, name := Node("id", Some("1"), []), Node("name", Some("A"), []);
    var item := Node("item", None, [id, name]);
    var z := [("item", None), ("id", Some("1")), ("name", Some("A"))];
    ItemWalk(item, id, name);
    assert Zip(Tags(Iter(item)), Texts(Iter(item))) == z;
    assert Keys(z) == ["item", "id", "name"];
    DictOfNoDup(z);
    assert RowsTable([item]).value == [z];
  }
}
