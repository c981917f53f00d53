/**
 * sonucParse.py: the customs office's answer to a declaration, flattened
 * into tables. The general section is one row of the root's direct
 * children; every other section is a repeated-row table. Only the last two
 * tables are read after their loops, so only they fail when empty.
 */
module SonucParse {
  import opened Wrappers
  import opened PyExceptions
  import opened ElementTree
  import opened Flatten
  import opened Sections
  import PyDict
  import Sequences

  /**
   * The tables the script builds. A table that no row element bound is None;
   * the Gumruk and Istatistiki tables are printed, so they are always bound
   * when the script gets to the end.
   */
  datatype SonucTables = SonucTables(
    genel: Row, belge: Option<Table>, vergi: Option<Table>, toplamVergi: Option<Table>,
    toplananVergi: Option<Table>, hesap: Option<Table>, gumruk: Table, istatistiki: Table)

  /** The tables the script builds for a parsed document, or the first exception it raises. */
  function SonucResult(doc: Node): Result<SonucTables, Exception>
  {
    var root :- Stripped(doc);
    var front :- FrontTables(root);
    var back :- BackTables(root);
    Ok(SonucTables(ChildrenRow(root), front.0, front.1, front.2, front.3, back.0, back.1, back.2))
  }

  /** The Belge, Vergi and the two Toplam_Vergi tables. */
  function FrontTables(root: Node): Result<(Option<Table>, Option<Table>, Option<Table>, Option<Table>), Exception>
  {
    var belge :- SectionRows(root, "Belgeler", "Belge");
    var vergi :- SectionRows(root, "Vergiler", "Vergi");
    var toplam :- SectionRows(root, "Toplam_vergiler", "Toplam_Vergi");
    // the second lookup of the same section succeeds whenever the first did
    var toplanan := SectionRows(root, "Toplam_vergiler", "Toplam_Vergi").value;
    Ok((belge, vergi, toplam, toplanan))
  }

  /** The Hesap_detay table, and the Gumruk and Istatistiki tables that are printed after their loops. */
  function BackTables(root: Node): Result<(Option<Table>, Table, Table), Exception>
  {
    var hesap :- SectionRows(root, "Hesap_detaylari", "Hesap_detay");
    var gumruk :- Repeated(root, "Gumruk_kiymetleri", "Gumruk_Kiymeti", "df_kym");
    var istatistiki :- Repeated(root, "Istatistiki_kiymetleri", "Istatistiki_Kiymeti", "df_ist");
    Ok((hesap, gumruk, istatistiki))
  }

  /**
   * The script, top to bottom. Toplam_vergiler is looked up and flattened
   * twice by two copies of the same loop, and the two tables agree.
   */
  method ParseSonuc(doc: Node) returns (r: Result<SonucTables, Exception>)
    ensures r == SonucResult(doc)
    ensures r.Ok? ==> r.value.toplamVergi == r.value.toplananVergi
  {
    var root :- StripDocument(doc);
    var genel := ChildrenRow(root);
    var belge :- FlattenSection(root, "Belgeler", "Belge");
    var vergi :- FlattenSection(root, "Vergiler", "Vergi");
    var toplam :- FlattenSection(root, "Toplam_vergiler", "Toplam_Vergi");
    var again := FlattenSection(root, "Toplam_vergiler", "Toplam_Vergi");
    var toplanan := again.value;
    var hesap :- FlattenSection(root, "Hesap_detaylari", "Hesap_detay");
    var gumruk :- FlattenRepeated(root, "Gumruk_kiymetleri", "Gumruk_Kiymeti", "df_kym");
    var istatistiki :- FlattenRepeated(root, "Istatistiki_kiymetleri", "Istatistiki_Kiymeti", "df_ist");
    r := Ok(SonucTables(genel, belge, vergi, toplam, toplanan, hesap, gumruk, istatistiki));
  }

  // ---------------------------------------------------------------------
  // What the tables hold

  /** The sections a stripped answer needs for the script to run to the end. */
  predicate HasSections(root: Node)
  {
    Find(root, "Belgeler").Some? && Find(root, "Vergiler").Some? &&
    Find(root, "Toplam_vergiler").Some? && Find(root, "Hesap_detaylari").Some? &&
    HasRows(root, "Gumruk_kiymetleri", "Gumruk_Kiymeti") &&
    HasRows(root, "Istatistiki_kiymetleri", "Istatistiki_Kiymeti")
  }

  /**
   * The script runs to the end exactly when every tag is namespace-qualified,
   * every section exists, and the two printed sections have a row element;
   * the other sections may be empty.
   */
  lemma SonucSucceeds(doc: Node)
    ensures SonucResult(doc).Ok? <==> Stripped(doc).Ok? && HasSections(Stripped(doc).value)
  {
    if Stripped(doc).Ok? {
      FrontSucceeds(Stripped(doc).value);
      BackSucceeds(Stripped(doc).value);
    }
  }

  lemma FrontSucceeds(root: Node)
    ensures FrontTables(root).Ok? <==>
      Find(root, "Belgeler").Some? && Find(root, "Vergiler").Some? && Find(root, "Toplam_vergiler").Some?
  {
    SectionRowsSpec(root, "Belgeler", "Belge");
    SectionRowsSpec(root, "Vergiler", "Vergi");
    SectionRowsSpec(root, "Toplam_vergiler", "Toplam_Vergi");
  }

  lemma BackSucceeds(root: Node)
    ensures BackTables(root).Ok? <==>
      Find(root, "Hesap_detaylari").Some? &&
      HasRows(root, "Gumruk_kiymetleri", "Gumruk_Kiymeti") &&
      HasRows(root, "Istatistiki_kiymetleri", "Istatistiki_Kiymeti")
  {
    SectionRowsSpec(root, "Hesap_detaylari", "Hesap_detay");
    RepeatedSpec(root, "Gumruk_kiymetleri", "Gumruk_Kiymeti", "df_kym");
    RepeatedSpec(root, "Istatistiki_kiymetleri", "Istatistiki_Kiymeti", "df_ist");
  }

  /** A missing Belgeler section stops the script at its `findall`. */
  lemma SonucMissingBelgeler(doc: Node)
    requires Stripped(doc).Ok? && Find(Stripped(doc).value, "Belgeler").None?
    ensures SonucResult(doc) == Err(AttributeError("findall"))
  {
  }

  /**
   * An empty Gumruk_kiymetleri section stops the script at the print after
   * its loop, with NameError, when every earlier section exists.
   */
  lemma SonucEmptyGumruk(doc: Node)
    requires Stripped(doc).Ok?
    requires var root := Stripped(doc).value;
      Find(root, "Belgeler").Some? && Find(root, "Vergiler").Some? &&
      Find(root, "Toplam_vergiler").Some? && Find(root, "Hesap_detaylari").Some? &&
      Find(root, "Gumruk_kiymetleri").Some? && FindAll(Find(root, "Gumruk_kiymetleri").value, "Gumruk_Kiymeti") == []
    ensures SonucResult(doc) == Err(NameError("df_kym"))
  {
    var root := Stripped(doc).value;
    SectionRowsSpec(root, "Belgeler", "Belge");
    SectionRowsSpec(root, "Vergiler", "Vergi");
    SectionRowsSpec(root, "Toplam_vergiler", "Toplam_Vergi");
    SectionRowsSpec(root, "Hesap_detaylari", "Hesap_detay");
    RepeatedSpec(root, "Gumruk_kiymetleri", "Gumruk_Kiymeti", "df_kym");
  }

  /**
   * The general row's columns are the root's direct children, first
   * occurrences in document order; when no child tag repeats they are
   * exactly the children's tags, each holding that child's text.
   */
  lemma SonucGeneralRow(root: Node)
    ensures PyDict.Keys(ChildrenRow(root)) == Sequences.Distinct(Tags(root.children))
    ensures Sequences.NoDup(Tags(root.children)) ==>
      PyDict.Keys(ChildrenRow(root)) == Tags(root.children) &&
      forall i :: 0 <= i < |root.children| ==> ChildrenRow(root)[i].1 == root.children[i].text
  {
    ChildrenRowColumns(root);
    var h, v := Tags(root.children), Texts(root.children);
    if Sequences.NoDup(h) {
      Sequences.DistinctOfNoDup(h);
      PyDict.DictOfEntries(PyDict.Zip(h, v));
      forall i | 0 <= i < |root.children| ensures ChildrenRow(root)[i].1 == root.children[i].text {
        assert PyDict.Keys(ChildrenRow(root))[i] == h[i];
        LastValueUnique(h, v, i);
      }
    }
  }

  /**
   * Every bound table has one row per row element, each led by the row tag;
   * a table is unbound exactly when its section has no row element.
   */
  lemma SonucRepeatedTables(doc: Node)
    requires SonucResult(doc).Ok?
    ensures var root := Stripped(doc).value; var t := SonucResult(doc).value;
      (t.belge.None? <==> !HasRows(root, "Belgeler", "Belge"))
      && (t.belge.Some? ==> RowTagged(t.belge.value, "Belge"))
      && (t.vergi.None? <==> !HasRows(root, "Vergiler", "Vergi"))
      && (t.vergi.Some? ==> RowTagged(t.vergi.value, "Vergi"))
      && (t.toplamVergi.None? <==> !HasRows(root, "Toplam_vergiler", "Toplam_Vergi"))
      && (t.toplamVergi.Some? ==> RowTagged(t.toplamVergi.value, "Toplam_Vergi"))
      && (t.hesap.None? <==> !HasRows(root, "Hesap_detaylari", "Hesap_detay"))
      && (t.hesap.Some? ==> RowTagged(t.hesap.value, "Hesap_detay"))
      && RowTagged(t.gumruk, "Gumruk_Kiymeti") && RowTagged(t.istatistiki, "Istatistiki_Kiymeti")
  {
    var root := Stripped(doc).value;
    FrontRepeatedTables(root);
    BackRepeatedTables(root);
  }

  lemma FrontRepeatedTables(root: Node)
    requires FrontTables(root).Ok?
    ensures var (belge, vergi, toplam, _) := FrontTables(root).value;
      (belge.None? <==> !HasRows(root, "Belgeler", "Belge"))
      && (belge.Some? ==> RowTagged(belge.value, "Belge"))
      && (vergi.None? <==> !HasRows(root, "Vergiler", "Vergi"))
      && (vergi.Some? ==> RowTagged(vergi.value, "Vergi"))
      && (toplam.None? <==> !HasRows(root, "Toplam_vergiler", "Toplam_Vergi"))
      && (toplam.Some? ==> RowTagged(toplam.value, "Toplam_Vergi"))
  {
    SectionRowsSpec(root, "Belgeler", "Belge");
    SectionRowsSpec(root, "Vergiler", "Vergi");
    SectionRowsSpec(root, "Toplam_vergiler", "Toplam_Vergi");
  }

  lemma BackRepeatedTables(root: Node)
    requires BackTables(root).Ok?
    ensures var (hesap, gumruk, istatistiki) := BackTables(root).value;
      (hesap.None? <==> !HasRows(root, "Hesap_detaylari", "Hesap_detay"))
      && (hesap.Some? ==> RowTagged(hesap.value, "Hesap_detay"))
      && RowTagged(gumruk, "Gumruk_Kiymeti") && RowTagged(istatistiki, "Istatistiki_Kiymeti")
  {
    SectionRowsSpec(root, "Hesap_detaylari", "Hesap_detay");
    RepeatedSpec(root, "Gumruk_kiymetleri", "Gumruk_Kiymeti", "df_kym");
    RepeatedSpec(root, "Istatistiki_kiymetleri", "Istatistiki_Kiymeti", "df_ist");
  }
}
