/**
 * gelenParse.py: the incoming customs declaration, flattened section by
 * section into the sheets of one workbook. The script stops at the first
 * exception; the workbook is saved only when every sheet was written.
 */
module GelenParse {
  import opened Wrappers
  import opened PyExceptions
  import opened ElementTree
  import opened Flatten
  import opened Sections
  import PyDict
  import Sequences

  /**
   * The tables the script builds, one per sheet, and the direct-children
   * row of Kiymet, which it computes but never writes.
   */
  datatype GelenTables = GelenTables(
    beyanname: Row, firma: Table, ozetbeyan: Row, kalem: Table, sorular: Table,
    dokuman: Table, vergi: Table, kiymet: Row, kiymetKalem: Table)
  {
    /** The sheets in the order the script writes them, under the names it gives them. */
    function Sheets(): (w: seq<(string, Table)>)
      ensures |w| == |SheetNames| && forall k :: 0 <= k < |w| ==> w[k].0 == SheetNames[k]
    {
      [(SheetNames[0], [beyanname]), (SheetNames[1], firma), (SheetNames[2], [ozetbeyan]),
       (SheetNames[3], kalem), (SheetNames[4], sorular), (SheetNames[5], dokuman),
       (SheetNames[6], vergi), (SheetNames[7], kiymetKalem)]
    }
  }

  const SheetNames: seq<string> := ["Beyanname", "FirmaBilgi", "\U{D6}zetbeyanlar", "Kalem",
    "SorularCevaplar", "Dok\U{FC}manlar", "Vergiler", "K\U{131}ymetBildirim"]

  /** The tables the script builds for a parsed document, or the first exception it raises. */
  function GelenWorkbook(doc: Node): Result<GelenTables, Exception>
  {
    var root :- Stripped(doc);
    var bilgi :- Required(Find(root, "BeyannameBilgi"), TypeError("NoneType"));
    BilgiTables(bilgi)
  }

  /** Everything after the BeyannameBilgi lookup, in the script's order. */
  function BilgiTables(bilgi: Node): Result<GelenTables, Exception>
  {
    var front :- FrontTables(bilgi);
    var back :- BackTables(bilgi);
    Ok(GelenTables(ChildrenRow(bilgi), front.0, front.1, front.2, back.0, back.1, back.2, back.3, back.4))
  }

  /** The Firma, Ozetbeyan and Kalem sheets. */
  function FrontTables(bilgi: Node): Result<(Table, Row, Table), Exception>
  {
    var firma :- Repeated(bilgi, "Firma_bilgi", "firma", "df_firma");
    var ozetbeyan :- OzetbeyanRow(bilgi);
    var kalem :- Repeated(bilgi, "Kalemler", "kalem", "df_kalem");
    Ok((firma, ozetbeyan, kalem))
  }

  /** The SorularCevaplar, Dokuman, Vergi and Kiymet sheets, and the unwritten Kiymet row. */
  function BackTables(bilgi: Node): Result<(Table, Table, Table, Row, Table), Exception>
  {
    var sorular :- Repeated(bilgi, "Sorular_cevaplar", "Soru_Cevap", "df_sc");
    var dokuman :- Repeated(bilgi, "Dokumanlar", "Dokuman", "df_dokuman");
    var vergi :- Repeated(bilgi, "Vergiler", "Vergi", "df_vergi");
    var kiymet :- KiymetSection(bilgi);
    var kiymetKalem :- Repeated(kiymet, "KiymetKalemler", "KiymetKalem", "df_k\U{131}ymet");
    Ok((sorular, dokuman, vergi, ChildrenRow(kiymet), kiymetKalem))
  }

  /** The Ozetbeyan row: `find` of the section, `find` of its first line, then the walk without the line. */
  function OzetbeyanRow(bilgi: Node): (r: Result<Row, Exception>)
    ensures Find(bilgi, "Ozetbeyanlar").None? ==> r == Err(AttributeError("find"))
    ensures Find(bilgi, "Ozetbeyanlar").Some? && Find(Find(bilgi, "Ozetbeyanlar").value, "Ozetbeyan").None? ==>
      r == Err(AttributeError("iter"))
    ensures r.Ok? <==>
      Find(bilgi, "Ozetbeyanlar").Some? && Find(Find(bilgi, "Ozetbeyanlar").value, "Ozetbeyan").Some?
  {
    var ozetbeyanlar :- Required(Find(bilgi, "Ozetbeyanlar"), AttributeError("find"));
    var line :- Required(Find(ozetbeyanlar, "Ozetbeyan"), AttributeError("iter"));
    Ok(WalkRowWithoutContainer(line))
  }

  /** The Kiymet element under KiymetBildirim; iterating a missing one raises TypeError. */
  function KiymetSection(bilgi: Node): (r: Result<Node, Exception>)
    ensures Find(bilgi, "KiymetBildirim").None? ==> r == Err(AttributeError("find"))
    ensures Find(bilgi, "KiymetBildirim").Some? && Find(Find(bilgi, "KiymetBildirim").value, "Kiymet").None? ==>
      r == Err(TypeError("NoneType"))
    ensures r.Ok? ==>
      Find(bilgi, "KiymetBildirim").Some? && r.value in Find(bilgi, "KiymetBildirim").value.children &&
      r.value.tag == "Kiymet"
  {
    var bildirim :- Required(Find(bilgi, "KiymetBildirim"), AttributeError("find"));
    Required(Find(bildirim, "Kiymet"), TypeError("NoneType"))
  }

  /**
   * The script, top to bottom: strip the namespaces, flatten BeyannameBilgi
   * from its direct children, then every repeated-row section, the first
   * Ozetbeyan without its container, and the KiymetKalem lines of Kiymet.
   */
  method ParseGelen(doc: Node) returns (r: Result<GelenTables, Exception>)
    ensures r == GelenWorkbook(doc)
  {
    var root :- StripDocument(doc);
    var bilgi :- Required(Find(root, "BeyannameBilgi"), TypeError("NoneType"));
    var beyanname := DirectChildrenRow(bilgi);
    var firma :- FlattenRepeated(bilgi, "Firma_bilgi", "firma", "df_firma");

    var ozetbeyanlar :- Required(Find(bilgi, "Ozetbeyanlar"), AttributeError("find"));
    var line :- Required(Find(ozetbeyanlar, "Ozetbeyan"), AttributeError("iter"));
    var ozetbeyan := WalkRowWithoutContainer(line);

    var kalem :- FlattenRepeated(bilgi, "Kalemler", "kalem", "df_kalem");
    var sorular :- FlattenRepeated(bilgi, "Sorular_cevaplar", "Soru_Cevap", "df_sc");
    var dokuman :- FlattenRepeated(bilgi, "Dokumanlar", "Dokuman", "df_dokuman");
    var vergi :- FlattenRepeated(bilgi, "Vergiler", "Vergi", "df_vergi");

    var bildirim :- Required(Find(bilgi, "KiymetBildirim"), AttributeError("find"));
    var kiymet :- Required(Find(bildirim, "Kiymet"), TypeError("NoneType"));
    var kiymetRow := ChildrenRow(kiymet);
    var kiymetKalem :- FlattenRepeated(kiymet, "KiymetKalemler", "KiymetKalem", "df_k\U{131}ymet");

    r := Ok(GelenTables(beyanname, firma, ozetbeyan, kalem, sorular, dokuman, vergi, kiymetRow, kiymetKalem));
  }

  // ---------------------------------------------------------------------
  // What the workbook holds

  /** The sections BeyannameBilgi needs for the script to run to the end. */
  predicate HasSections(bilgi: Node)
  {
    HasRows(bilgi, "Firma_bilgi", "firma") &&
    Find(bilgi, "Ozetbeyanlar").Some? && Find(Find(bilgi, "Ozetbeyanlar").value, "Ozetbeyan").Some? &&
    HasRows(bilgi, "Kalemler", "kalem") &&
    HasRows(bilgi, "Sorular_cevaplar", "Soru_Cevap") &&
    HasRows(bilgi, "Dokumanlar", "Dokuman") &&
    HasRows(bilgi, "Vergiler", "Vergi") &&
    Find(bilgi, "KiymetBildirim").Some? && Find(Find(bilgi, "KiymetBildirim").value, "Kiymet").Some? &&
    HasRows(Find(Find(bilgi, "KiymetBildirim").value, "Kiymet").value, "KiymetKalemler", "KiymetKalem")
  }

  lemma BilgiSucceeds(bilgi: Node)
    ensures BilgiTables(bilgi).Ok? <==> HasSections(bilgi)
  {
    FrontSucceeds(bilgi);
    BackSucceeds(bilgi);
  }

  lemma FrontSucceeds(bilgi: Node)
    ensures FrontTables(bilgi).Ok? <==>
      HasRows(bilgi, "Firma_bilgi", "firma") &&
      Find(bilgi, "Ozetbeyanlar").Some? && Find(Find(bilgi, "Ozetbeyanlar").value, "Ozetbeyan").Some? &&
      HasRows(bilgi, "Kalemler", "kalem")
  {
    RepeatedSpec(bilgi, "Firma_bilgi", "firma", "df_firma");
    RepeatedSpec(bilgi, "Kalemler", "kalem", "df_kalem");
  }

  lemma BackSucceeds(bilgi: Node)
    ensures BackTables(bilgi).Ok? <==>
      HasRows(bilgi, "Sorular_cevaplar", "Soru_Cevap") &&
      HasRows(bilgi, "Dokumanlar", "Dokuman") &&
      HasRows(bilgi, "Vergiler", "Vergi") &&
      Find(bilgi, "KiymetBildirim").Some? && Find(Find(bilgi, "KiymetBildirim").value, "Kiymet").Some? &&
      HasRows(Find(Find(bilgi, "KiymetBildirim").value, "Kiymet").value, "KiymetKalemler", "KiymetKalem")
  {
    RepeatedSpec(bilgi, "Sorular_cevaplar", "Soru_Cevap", "df_sc");
    RepeatedSpec(bilgi, "Dokumanlar", "Dokuman", "df_dokuman");
    RepeatedSpec(bilgi, "Vergiler", "Vergi", "df_vergi");
    if KiymetSection(bilgi).Ok? {
      RepeatedSpec(KiymetSection(bilgi).value, "KiymetKalemler", "KiymetKalem", "df_k\U{131}ymet");
    }
  }

  /**
   * The workbook is written exactly when every tag is namespace-qualified and
   * the stripped document has BeyannameBilgi with every section, each
   * repeated-row section with at least one row element.
   */
  lemma GelenSucceeds(doc: Node)
    ensures GelenWorkbook(doc).Ok? <==>
      Stripped(doc).Ok? && Find(Stripped(doc).value, "BeyannameBilgi").Some? &&
      HasSections(Find(Stripped(doc).value, "BeyannameBilgi").value)
  {
    if Stripped(doc).Ok? && Find(Stripped(doc).value, "BeyannameBilgi").Some? {
      BilgiSucceeds(Find(Stripped(doc).value, "BeyannameBilgi").value);
    }
  }

  /** A tag without a namespace stops the script before any sheet, with IndexError. */
  lemma GelenUnqualifiedTag(doc: Node, i: nat)
    requires i < |Iter(doc)| && '}' !in Iter(doc)[i].tag
    ensures GelenWorkbook(doc) == Err(IndexError)
  {
    assert !AllQualified(Tags(Iter(doc)));
  }

  /**
   * In a written workbook every repeated-row sheet has one row per row
   * element, at least one, and column 0 of each row is the row tag.
   */
  lemma BilgiRepeatedSheets(bilgi: Node)
    requires BilgiTables(bilgi).Ok?
    ensures var t := BilgiTables(bilgi).value;
      RowTagged(t.firma, "firma") && RowTagged(t.kalem, "kalem") && RowTagged(t.sorular, "Soru_Cevap")
      && RowTagged(t.dokuman, "Dokuman") && RowTagged(t.vergi, "Vergi") && RowTagged(t.kiymetKalem, "KiymetKalem")
  {
    FrontRepeated(bilgi);
    BackRepeated(bilgi);
  }

  lemma FrontRepeated(bilgi: Node)
    requires FrontTables(bilgi).Ok?
    ensures RowTagged(FrontTables(bilgi).value.0, "firma") && RowTagged(FrontTables(bilgi).value.2, "kalem")
  {
    RepeatedSpec(bilgi, "Firma_bilgi", "firma", "df_firma");
    RepeatedSpec(bilgi, "Kalemler", "kalem", "df_kalem");
  }

  lemma BackRepeated(bilgi: Node)
    requires BackTables(bilgi).Ok?
    ensures var b := BackTables(bilgi).value;
      RowTagged(b.0, "Soru_Cevap") && RowTagged(b.1, "Dokuman") && RowTagged(b.2, "Vergi") && RowTagged(b.4, "KiymetKalem")
  {
    RepeatedSpec(bilgi, "Sorular_cevaplar", "Soru_Cevap", "df_sc");
    RepeatedSpec(bilgi, "Dokumanlar", "Dokuman", "df_dokuman");
    RepeatedSpec(bilgi, "Vergiler", "Vergi", "df_vergi");
    RepeatedSpec(KiymetSection(bilgi).value, "KiymetKalemler", "KiymetKalem", "df_k\U{131}ymet");
  }

  /**
   * The Beyanname sheet's single row has the direct children of
   * BeyannameBilgi as its columns, and the Ozetbeyan sheet's single row is
   * the Ozetbeyan row.
   */
  lemma BilgiSingleRowSheets(bilgi: Node)
    requires BilgiTables(bilgi).Ok?
    ensures PyDict.Keys(BilgiTables(bilgi).value.beyanname) == Sequences.Distinct(Tags(bilgi.children))
    ensures OzetbeyanRow(bilgi).Ok? && BilgiTables(bilgi).value.ozetbeyan == OzetbeyanRow(bilgi).value
  {
    ChildrenRowColumns(bilgi);
  }

  /**
   * The Ozetbeyan row exists exactly when Ozetbeyanlar has an Ozetbeyan; it
   * comes from the first Ozetbeyan alone, and the line's own tag is not a
   * column unless it recurs below it.
   */
  lemma OzetbeyanFirstLine(bilgi: Node)
    ensures OzetbeyanRow(bilgi).Ok? <==>
      Find(bilgi, "Ozetbeyanlar").Some? && FindAll(Find(bilgi, "Ozetbeyanlar").value, "Ozetbeyan") != []
    ensures OzetbeyanRow(bilgi).Ok? ==>
      var line := FindAll(Find(bilgi, "Ozetbeyanlar").value, "Ozetbeyan")[0];
      OzetbeyanRow(bilgi).value == WalkRowWithoutContainer(line)
      && ("Ozetbeyan" !in Tags(IterSeq(line.children)) ==> "Ozetbeyan" !in PyDict.Keys(OzetbeyanRow(bilgi).value))
  {
    if Find(bilgi, "Ozetbeyanlar").Some? {
      var ozetbeyanlar := Find(bilgi, "Ozetbeyanlar").value;
      FindIsFirstOfFindAll(ozetbeyanlar, "Ozetbeyan");
      if FindAll(ozetbeyanlar, "Ozetbeyan") != [] {
        var line := FindAll(ozetbeyanlar, "Ozetbeyan")[0];
        assert line in FindAll(ozetbeyanlar, "Ozetbeyan");
        WalkRowWithoutContainerColumns(line);
      }
    }
  }
}
