/**
 * The document extraction inside `LegalDocumentLoader.load_from_url`.
 *
 * Downloading, unzipping and walking the extraction directory are left
 * out: the walk is given as the sequence of files it meets, each with
 * its lines or with the failure raised while reading it. The re-encoding
 * `convert_to_utf8(x.encode('latin-1'))` is a parameter, `None` standing
 * for an exception.
 */
module ArchiveLoader {
  import opened Common
  import opened Strings
  import opened Lines

  /** A file met by the walk: its bare name, and its lines, or `None` when reading it raised. */
  datatype FileEntry = FileEntry(name: string, content: Option<seq<string>>)

  /** Only files whose name ends in ".txt" are read. */
  predicate IsTextFile(name: string)
  {
    EndsWith(name, ".txt")
  }

  /**
   * The title before re-encoding: the first surviving line with its
   * leading and trailing whitespace cut off, and nothing else.
   */
  function RawTitle(clean: seq<string>): (r: string)
    requires clean != []
    ensures r != [] ==> r[0] !in Whitespace && r[|r| - 1] !in Whitespace
    ensures exists a: nat :: StrippedAt(clean[0], Whitespace, r, a)
  {
    StripSlice(clean[0], Whitespace);
    Strip(clean[0], Whitespace)
  }

  /**
   * The body before re-encoding: the other surviving lines joined with
   * newlines. A single line gives an empty body; lines without newlines
   * can be split back out of it.
   */
  function RawBody(clean: seq<string>): (r: string)
    requires clean != []
    ensures |clean| == 1 ==> r == ""
    ensures |clean| >= 2 && (forall k :: 1 <= k < |clean| ==> '\n' !in clean[k]) ==> Split(r) == clean[1..]
  {
    var body := Join(clean[1..]);
    if |clean| >= 2 && forall k :: 1 <= k < |clean| ==> '\n' !in clean[k] then
      assert forall k :: 0 <= k < |clean[1..]| ==> clean[1..][k] == clean[k + 1];
      SplitJoin(clean[1..]);
      body
    else
      body
  }

  /** The record one file contributes, if any: only a read ".txt" file contributes, under its own name. */
  function ExtractDocument(file: FileEntry, convert: string -> Option<string>): (r: Option<LegalDocument>)
    ensures r.Some? ==> IsTextFile(file.name) && file.content.Some? && r.value.filename == Some(file.name)
  {
    if !IsTextFile(file.name) || file.content.None? then None
    else
      var clean := SurvivingLines(AsValues(file.content.value));
      if clean == [] then None
      else
        match (convert(RawTitle(clean)), convert(RawBody(clean)))
        case (Some(title), Some(text)) => Some(LegalDocument(title, Some(file.name), text))
        case _ => None
  }

  /** The records of a whole walk, in walk order: at most one per file. */
  function ArchiveDocuments(files: seq<FileEntry>, convert: string -> Option<string>): (r: seq<LegalDocument>)
    ensures |r| <= |files|
  {
    if files == [] then []
    else
      var n := |files| - 1;
      ArchiveDocuments(files[..n], convert)
        + match ExtractDocument(files[n], convert) case Some(d) => [d] case None => []
  }

  /**
   * The body of the `try` block for one walked file: skip names not ending
   * in ".txt", filter the lines, and build a record when a line is left
   * and re-encoding the title and the body does not raise.
   */
  method ExtractFile(file: FileEntry, convert: string -> Option<string>) returns (doc: Option<LegalDocument>)
    ensures doc == ExtractDocument(file, convert)
  {
    doc := None;
    if IsTextFile(file.name) && file.content.Some? {
      var clean := RemoveNewLines(AsValues(file.content.value));
      if |clean| != 0 {
        var title := convert(Strip(clean[0], Whitespace));
        var content := convert(Join(clean[1..]));
        if title.Some? && content.Some? {
          doc := Some(LegalDocument(title.value, Some(file.name), content.value));
        }
      }
    }
  }

  /** The loop of `load_from_url` over the walked files, appending each file's record. */
  method LoadFromUrl(files: seq<FileEntry>, convert: string -> Option<string>) returns (docs: seq<LegalDocument>)
    ensures docs == ArchiveDocuments(files, convert)
  {
    docs := [];
    for i := 0 to |files|
      invariant docs == ArchiveDocuments(files[..i], convert)
    {
      ArchiveDocumentsPrefix(files, i, convert);
      var doc := ExtractFile(files[i], convert);
      if doc.Some? {
        docs := docs + [doc.value];
      }
    }
    assert files[..|files|] == files;
  }

  /**
   * A record comes only from a ".txt" file that was read and has a line
   * with a non-space character; it carries that file's bare name.
   */
  lemma ExtractedOnlyFromNonBlankTextFiles(file: FileEntry, convert: string -> Option<string>)
    requires ExtractDocument(file, convert).Some?
    ensures IsTextFile(file.name) && file.content.Some?
    ensures exists k :: 0 <= k < |file.content.value| && HasNonSpace(file.content.value[k])
    ensures ExtractDocument(file, convert).value.filename == Some(file.name)
  {
    SurvivorsExist(file.content.value);
  }

  /**
   * Conversely, a read ".txt" file with a line holding a non-space
   * character has a first surviving line, and it yields a record exactly
   * when re-encoding its title and its body both succeed; the record then
   * holds the two re-encoded strings and the file's name.
   */
  lemma NonBlankTextFileExtracted(file: FileEntry, convert: string -> Option<string>)
    requires IsTextFile(file.name) && file.content.Some?
    requires exists k :: 0 <= k < |file.content.value| && HasNonSpace(file.content.value[k])
    ensures var clean := SurvivingLines(AsValues(file.content.value));
      && clean != []
      && (ExtractDocument(file, convert).Some? <==> convert(RawTitle(clean)).Some? && convert(RawBody(clean)).Some?)
      && (convert(RawTitle(clean)).Some? && convert(RawBody(clean)).Some? ==>
            ExtractDocument(file, convert)
              == Some(LegalDocument(convert(RawTitle(clean)).value, Some(file.name), convert(RawBody(clean)).value)))
  {
    SurvivorsExist(file.content.value);
  }

  /**
   * For lines read by `splitlines`, which hold no newline, the body splits
   * back into exactly the surviving lines after the first, each non-empty
   * with no space at either end; with one surviving line the body is empty.
   */
  lemma TitleAndBody(lines: seq<string>)
    requires forall k :: 0 <= k < |lines| ==> '\n' !in lines[k]
    requires SurvivingLines(AsValues(lines)) != []
    ensures var clean := SurvivingLines(AsValues(lines));
      && (|clean| == 1 ==> RawBody(clean) == "")
      && (|clean| >= 2 ==> Split(RawBody(clean)) == clean[1..])
      && (forall k :: 1 <= k < |clean| ==> Tidy(clean[k]))
  {
    SurvivorsHaveNoBreak(lines);
  }

  lemma ArchiveDocumentsSnoc(files: seq<FileEntry>, f: FileEntry, convert: string -> Option<string>)
    ensures ArchiveDocuments(files + [f], convert)
      == ArchiveDocuments(files, convert) + match ExtractDocument(f, convert) case Some(d) => [d] case None => []
  {
    assert (files + [f])[..|files|] == files;
  }

  /** Walking one file further appends at most that file's record. */
  lemma ArchiveDocumentsPrefix(files: seq<FileEntry>, i: nat, convert: string -> Option<string>)
    requires i < |files|
    ensures ArchiveDocuments(files[..i + 1], convert)
      == ArchiveDocuments(files[..i], convert) + match ExtractDocument(files[i], convert) case Some(d) => [d] case None => []
  {
    assert files[..i + 1][..i] == files[..i];
  }

  /** The records of two stretches of the walk are those of each, in order. */
  lemma {:induction false} ArchiveDocumentsAppend(xs: seq<FileEntry>, ys: seq<FileEntry>, convert: string -> Option<string>)
    ensures ArchiveDocuments(xs + ys, convert) == ArchiveDocuments(xs, convert) + ArchiveDocuments(ys, convert)
  {
    if ys == [] {
      assert xs + ys == xs;
    } else {
      var init, last := ys[..|ys| - 1], ys[|ys| - 1];
      assert ys == init + [last];
      assert xs + ys == (xs + init) + [last];
      ArchiveDocumentsAppend(xs, init, convert);
      ArchiveDocumentsSnoc(xs + init, last, convert);
      ArchiveDocumentsSnoc(init, last, convert);
      var a, b := ArchiveDocuments(xs, convert), ArchiveDocuments(init, convert);
      var c := match ExtractDocument(last, convert) case Some(d) => [d] case None => [];
      assert (a + b) + c == a + (b + c);
    }
  }

  /** A file that fails, or has nothing to contribute, leaves the other records as they are. */
  lemma SkippedFileContributesNothing(xs: seq<FileEntry>, f: FileEntry, ys: seq<FileEntry>, convert: string -> Option<string>)
    requires ExtractDocument(f, convert).None?
    ensures ArchiveDocuments(xs + [f] + ys, convert) == ArchiveDocuments(xs + ys, convert)
  {
    ArchiveDocumentsSnoc(xs, f, convert);
    var a := ArchiveDocuments(xs, convert);
    assert ArchiveDocuments(xs + [f], convert) == a + [] == a;
    ArchiveDocumentsAppend(xs + [f], ys, convert);
    ArchiveDocumentsAppend(xs, ys, convert);
  }

  /** Every record names a ".txt" file. */
  lemma {:induction false} ArchiveDocumentsFromTextFiles(files: seq<FileEntry>, convert: string -> Option<string>)
    ensures forall k :: 0 <= k < |ArchiveDocuments(files, convert)| ==>
      ArchiveDocuments(files, convert)[k].filename.Some? && IsTextFile(ArchiveDocuments(files, convert)[k].filename.value)
  {
    if files != [] {
      var n := |files| - 1;
      ArchiveDocumentsFromTextFiles(files[..n], convert);
    }
  }

  /** The lines `remove_new_lines` keeps from the worked case below: the blank line goes. */
  lemma ExampleSurvivors()
    ensures SurvivingLines(AsValues(["Title Line", "", "Body line 1", "Body line 2"]))
      == ["Title Line", "Body line 1", "Body line 2"]
  {
    var lines := ["Title Line", "", "Body line 1", "Body line 2"];
    var items := AsValues(lines);
    assert items == [Str(lines[0])] + [Str(lines[1])] + [Str(lines[2])] + [Str(lines[3])];
    StripUnchanged(lines[0], Space);
    StripUnchanged(lines[2], Space);
    StripUnchanged(lines[3], Space);
    SurvivingLinesSnoc([], Str(lines[0]));
    SurvivingLinesSnoc([Str(lines[0])], Str(lines[1]));
    SurvivingLinesSnoc([Str(lines[0])] + [Str(lines[1])], Str(lines[2]));
    SurvivingLinesSnoc([Str(lines[0])] + [Str(lines[1])] + [Str(lines[2])], Str(lines[3]));
  }

  /** The title and body built from the lines kept in the worked case below. */
  lemma ExampleTitleAndBody()
    ensures RawTitle(["Title Line", "Body line 1", "Body line 2"]) == "Title Line"
    ensures RawBody(["Title Line", "Body line 1", "Body line 2"]) == "Body line 1" + "\n" + "Body line 2"
  {
    var clean := ["Title Line", "Body line 1", "Body line 2"];
    StripUnchanged(clean[0], Whitespace);
    assert clean[1..] == ["Body line 1", "Body line 2"];
    JoinCons(clean[1..]);
    assert clean[1..][1..] == ["Body line 2"];
  }

  /**
   * A worked case: `doc1.txt` with a title line, a blank line and two body
   * lines gives one record whose text is the two body lines joined.
   */
  lemma ExtractDocumentExample()
    ensures ExtractDocument(FileEntry("doc1.txt", Some(["Title Line", "", "Body line 1", "Body line 2"])), s => Some(s))
      == Some(LegalDocument("Title Line", Some("doc1.txt"), "Body line 1" + "\n" + "Body line 2"))
  {
    ExampleSurvivors();
    ExampleTitleAndBody();
    assert IsTextFile("doc1.txt") by {
      assert "doc1.txt" == "doc1" + ".txt";
    }
  }
}
