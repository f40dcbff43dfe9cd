/**
 * `LegalDocumentLoader.load_from_csv` after the file has been read.
 *
 * Reading the CSV with pandas is left out: the table is given as a flag
 * saying whether it has a `Text` column, and its rows, each with the
 * label of the index column and the value of its `Text` cell. `str.title`
 * is a parameter.
 */
module TabularLoader {
  import opened Common
  import opened TextCleaner

  /** One row of the table: its index label and its `Text` cell. */
  datatype Row = Row(name: string, text: Value)

  /** The `ValueError` raised when the table has no `Text` column. */
  datatype LoadError = MissingTextColumn

  /**
   * The `Clean Text` column as a list: each `Text` cell through
   * `clean_text`, `""` for non-text. A row's entry is empty exactly when
   * its cell is not text or is the empty string.
   */
  function CleanedTexts(rows: seq<Row>): (r: seq<string>)
    ensures |r| == |rows|
    ensures forall k :: 0 <= k < |rows| ==> (r[k] == "" <==> rows[k].text.NonStr? || rows[k].text.s == "")
  {
    seq(|rows|, k requires 0 <= k < |rows| => CleanText(rows[k].text))
  }

  /** `[doc for doc in text_list if doc and isinstance(doc, str)]`. */
  function NonEmptyTexts(texts: seq<string>): (r: seq<string>)
    ensures |r| <= |texts|
    ensures forall k :: 0 <= k < |r| ==> r[k] != ""
  {
    if texts == [] then []
    else
      var n := |texts| - 1;
      NonEmptyTexts(texts[..n]) + if texts[n] == "" then [] else [texts[n]]
  }

  /** The indices of the texts the filter keeps, in increasing order. */
  function TextOrigins(texts: seq<string>): (o: seq<nat>)
    ensures |o| == |NonEmptyTexts(texts)|
  {
    if texts == [] then []
    else
      var n := |texts| - 1;
      TextOrigins(texts[..n]) + if texts[n] == "" then [] else [n]
  }

  /** `zip(name_list, text_list)` turned into records: as many as the shorter list. */
  function Zipped(rows: seq<Row>, texts: seq<string>, titleCase: string -> string): seq<LegalDocument>
  {
    seq(Min(|rows|, |texts|), k requires 0 <= k < Min(|rows|, |texts|) =>
      LegalDocument(titleCase(rows[k].name), None, texts[k]))
  }

  /**
   * The records `load_from_csv` returns: the k-th label paired with the
   * k-th kept text. There are no more records than rows, every text is
   * non-empty and no record has a file name.
   */
  function CsvDocuments(rows: seq<Row>, titleCase: string -> string): (r: seq<LegalDocument>)
    ensures |r| <= |rows|
    ensures forall k :: 0 <= k < |r| ==> r[k].text != "" && r[k].filename.None?
  {
    Zipped(rows, NonEmptyTexts(CleanedTexts(rows)), titleCase)
  }

  /** The `for` loop over `zip(name_list, text_list)`, appending one record per pair. */
  method ZipRecords(rows: seq<Row>, texts: seq<string>, titleCase: string -> string) returns (docs: seq<LegalDocument>)
    ensures docs == Zipped(rows, texts, titleCase)
  {
    docs := [];
    for k := 0 to Min(|rows|, |texts|)
      invariant |docs| == k
      invariant forall j :: 0 <= j < k ==> docs[j] == LegalDocument(titleCase(rows[j].name), None, texts[j])
    {
      docs := docs + [LegalDocument(titleCase(rows[k].name), None, texts[k])];
    }
  }

  /**
   * `load_from_csv`: fail without a `Text` column; otherwise clean and
   * filter the texts, then zip them with the row labels.
   */
  method LoadFromCsv(hasTextColumn: bool, rows: seq<Row>, titleCase: string -> string)
    returns (result: Result<seq<LegalDocument>, LoadError>)
    ensures result == if hasTextColumn then Success(CsvDocuments(rows, titleCase)) else Failure(MissingTextColumn)
  {
    if !hasTextColumn {
      return Failure(MissingTextColumn);
    }
    var texts := NonEmptyTexts(CleanedTexts(rows));
    var docs := ZipRecords(rows, texts, titleCase);
    return Success(docs);
  }

  /**
   * The filter keeps texts in order: the k-th kept text is the text at
   * index `o[k]`, the indices increase, and every non-empty text is kept.
   */
  lemma {:induction false} TextOriginsSpec(texts: seq<string>)
    ensures forall k :: 0 <= k < |TextOrigins(texts)| ==> TextOrigins(texts)[k] < |texts|
    ensures forall j, k :: 0 <= j < k < |TextOrigins(texts)| ==> TextOrigins(texts)[j] < TextOrigins(texts)[k]
    ensures forall k :: 0 <= k < |TextOrigins(texts)| ==> NonEmptyTexts(texts)[k] == texts[TextOrigins(texts)[k]]
    ensures forall i :: 0 <= i < |texts| && texts[i] != "" ==> i in TextOrigins(texts)
  {
    if texts != [] {
      var n := |texts| - 1;
      var init := texts[..n];
      TextOriginsSpec(init);
      var o', o := TextOrigins(init), TextOrigins(texts);
      var r', r := NonEmptyTexts(init), NonEmptyTexts(texts);
      assert o == o' + if texts[n] == "" then [] else [n];
      assert r == r' + if texts[n] == "" then [] else [texts[n]];
      forall k | 0 <= k < |o|
        ensures o[k] < |texts| && r[k] == texts[o[k]]
      {
        if k < |o'| {
          assert o[k] == o'[k] && r[k] == r'[k] && texts[o[k]] == init[o'[k]];
        }
      }
      forall i | 0 <= i < |texts| && texts[i] != ""
        ensures i in o
      {
        if i < n {
          assert init[i] == texts[i];
          var k :| 0 <= k < |o'| && o'[k] == i;
          assert o[k] == i;
        } else {
          assert o == o' + [n];
          assert o[|o'|] == i;
        }
      }
    }
  }

  /** In a strictly increasing sequence of naturals, gaps between positions only widen in value. */
  lemma {:induction false} IncreasingGaps(o: seq<nat>, i: nat, k: nat)
    requires forall a, b :: 0 <= a < b < |o| ==> o[a] < o[b]
    requires i <= k < |o|
    ensures o[k] - o[i] >= k - i
    decreases k - i
  {
    if i < k {
      IncreasingGaps(o, i, k - 1);
    }
  }

  /** When no row is dropped, the filter keeps every text. */
  lemma {:induction false} NothingDroppedKeepsAll(texts: seq<string>)
    requires forall k :: 0 <= k < |texts| ==> texts[k] != ""
    ensures NonEmptyTexts(texts) == texts
  {
    if texts != [] {
      var n := |texts| - 1;
      NothingDroppedKeepsAll(texts[..n]);
      assert texts[..n] + [texts[n]] == texts;
    }
  }

  /** As many records as the shorter of the two zipped lists, the k-th titled from the k-th row's label. */
  lemma CsvDocumentsShape(rows: seq<Row>, titleCase: string -> string)
    ensures var docs := CsvDocuments(rows, titleCase);
      && |docs| == Min(|rows|, |NonEmptyTexts(CleanedTexts(rows))|)
      && forall k :: 0 <= k < |docs| ==> docs[k].title == titleCase(rows[k].name)
  {
  }

  /** With no row dropped, every row gives one record, titled and texted from that same row. */
  lemma CsvAlignedWhenNothingDropped(rows: seq<Row>, titleCase: string -> string)
    requires forall k :: 0 <= k < |rows| ==> CleanText(rows[k].text) != ""
    ensures |CsvDocuments(rows, titleCase)| == |rows|
    ensures forall k :: 0 <= k < |rows| ==>
      CsvDocuments(rows, titleCase)[k] == LegalDocument(titleCase(rows[k].name), None, CleanText(rows[k].text))
  {
    NothingDroppedKeepsAll(CleanedTexts(rows));
  }

  /** The k-th record's text comes from row k or a later row, whichever survived the filter k-th. */
  lemma CsvTextFromSameOrLaterRow(rows: seq<Row>, titleCase: string -> string, k: nat)
    requires k < |CsvDocuments(rows, titleCase)|
    ensures exists j :: k <= j < |rows| && CsvDocuments(rows, titleCase)[k].text == CleanText(rows[j].text)
  {
    var texts := CleanedTexts(rows);
    TextOriginsSpec(texts);
    var o := TextOrigins(texts);
    IncreasingGaps(o, 0, k);
    assert CsvDocuments(rows, titleCase)[k].text == texts[o[k]];
  }

  /** Once an empty text at or before position k is dropped, the k-th kept text comes from a later index. */
  lemma DroppedTextShifts(texts: seq<string>, d: nat, k: nat)
    requires d <= k < |NonEmptyTexts(texts)|
    requires texts[d] == ""
    ensures k < TextOrigins(texts)[k] < |texts|
    ensures NonEmptyTexts(texts)[k] == texts[TextOrigins(texts)[k]]
  {
    TextOriginsSpec(texts);
    var o := TextOrigins(texts);
    IncreasingGaps(o, 0, d);
    IncreasingGaps(o, d, k);
    assert texts[o[d]] != "";
    assert o[d] - o[0] >= d && o[0] >= 0;
    assert o[d] != d;
  }

  /**
   * Once a row at or before position k is dropped, the k-th record pairs
   * row k's title with the text of a strictly later row.
   */
  lemma CsvDroppedRowShifts(rows: seq<Row>, titleCase: string -> string, d: nat, k: nat)
    requires d <= k < |CsvDocuments(rows, titleCase)|
    requires CleanText(rows[d].text) == ""
    ensures CsvDocuments(rows, titleCase)[k].title == titleCase(rows[k].name)
    ensures exists j :: k < j < |rows| && CsvDocuments(rows, titleCase)[k].text == CleanText(rows[j].text)
  {
    var texts := CleanedTexts(rows);
    DroppedTextShifts(texts, d, k);
    var j := TextOrigins(texts)[k];
    assert CsvDocuments(rows, titleCase)[k].text == texts[j] == CleanText(rows[j].text);
  }

  /**
   * A dropped middle row shifts the pairing: with rows alpha, beta and
   * gamma where beta has no text, beta's title is paired with gamma's text.
   */
  lemma CsvMisalignmentExample(titleCase: string -> string)
    ensures CsvDocuments([Row("alpha", Str("A")), Row("beta", NonStr), Row("gamma", Str("C"))], titleCase)
      == [LegalDocument(titleCase("alpha"), None, "A"), LegalDocument(titleCase("beta"), None, "C")]
  {
    var rows := [Row("alpha", Str("A")), Row("beta", NonStr), Row("gamma", Str("C"))];
    ExampleCleanedTexts();
    ExampleNonEmptyTexts();
    assert CsvDocuments(rows, titleCase) == Zipped(rows, ["A", "C"], titleCase);
  }

  /** The cleaned column of the example: the middle cell is not text. */
  lemma ExampleCleanedTexts()
    ensures CleanedTexts([Row("alpha", Str("A")), Row("beta", NonStr), Row("gamma", Str("C"))]) == ["A", "", "C"]
  {
    assert SubstituteSpacedBreaks("A") == "A" && SubstituteBreakRuns("A") == "A";
    assert SubstituteSpacedBreaks("C") == "C" && SubstituteBreakRuns("C") == "C";
  }

  /** The filter drops the example's empty middle text. */
  lemma ExampleNonEmptyTexts()
    ensures NonEmptyTexts(["A", "", "C"]) == ["A", "C"]
  {
    var texts := ["A", "", "C"];
    assert texts[..2] == ["A", ""] && texts[..2][..1] == ["A"] && texts[..2][..1][..0] == [];
    assert NonEmptyTexts(["A"]) == ["A"];
    assert NonEmptyTexts(["A", ""]) == ["A"];
  }
}
