# Legal document loader — a Dafny model of its text and sequence logic

The loader in `legal_dataset/legal_document_loader.py` turns plain-text
legal documents into records of title and body. It reads them from a ZIP
archive of `.txt` files or from a CSV table. Around the downloading,
unzipping and file reading sit four pieces of pure string and sequence
logic. This project models those four pieces and proves what they do:

- `remove_new_lines` (module `Lines`, file `lines.dfy`). It keeps the `str`
  items of a list. It strips spaces from both ends of each item and drops
  the items that are then empty. It is a method with a loop, proved equal
  to the specification function `SurvivingLines`.
- `LegalDocumentLoader.clean_text` (module `TextCleaner`). It makes two
  `re.sub` passes and returns `""` for anything that is not a string. The
  passes are recursive functions that follow Python's left-to-right,
  non-overlapping scan.
- The per-file extraction in `load_from_url` (module `ArchiveLoader`).
  Only `.txt` names are read. The title is the first surviving line,
  stripped of all whitespace. The body is the other surviving lines joined
  with `"\n"`. A file whose processing raises contributes nothing. The
  loop over the walked files is a method proved equal to
  `ArchiveDocuments`.
- The filter-then-zip pairing in `load_from_csv` (module `TabularLoader`).
  A table without a `Text` column is an error. The non-empty cleaned texts
  are zipped by position with the unfiltered list of row labels. Once a row
  is dropped, later titles and texts therefore fall out of step. The model
  keeps this behaviour and proves when it happens.

Shared pieces: `Common` holds `Option`, `Result`, the dynamically typed
cell `Value` (`Str(s)` or `NonStr`) and the `LegalDocument` record. `Strings`
models `str.strip`, `"\n".join`, `str.split("\n")` and `str.endswith`.

Two facts about `clean_text` are easy to get wrong from its doc comment,
and the model follows the code on both:

- The first pattern, `'\n{1,} | \n'`, absorbs a space before a line
  break together with that break. It also absorbs a space after a run of
  breaks, unless the run is a single break that a preceding
  space-and-newline match has already consumed. So `"a\n b"` becomes
  `"a\nb"` and `"a \n\n b"` becomes `"a\n\nb"`, but `"a \n b"` becomes
  `"a\n b"`, not `"a\nb"`.
- The function is not idempotent. `"  \n"` becomes `" \n"`, and a second
  call gives `"\n"`. The second pass alone is idempotent.

## Model

| member | source | states |
|---|---|---|
| `Lines.RemoveNewLines` | legal_dataset/legal_document_loader.py:17-26 | The loop's list equals `SurvivingLines` of its input. |
| `Lines.SurvivingLines` | legal_dataset/legal_document_loader.py:19-25 | No more lines than items. Every line is non-empty and neither starts nor ends with a space. |
| `Lines.OriginsSound` | legal_dataset/legal_document_loader.py:19-25 | Each surviving line is the `strip(' ')` of a `str` item, and those items appear in increasing index order. |
| `Lines.OriginsComplete` | legal_dataset/legal_document_loader.py:19-25 | Every item whose strip is a non-empty string contributes a line. |
| `Lines.OriginsSpec` | legal_dataset/legal_document_loader.py:19-25 | Each surviving line is the `strip(' ')` of a `str` item. Those items appear in increasing index order. Every item whose strip is a non-empty string is among them, and non-`str` items never are. |
| `Lines.Origins` | legal_dataset/legal_document_loader.py:19-25 | One origin index per surviving line. |
| `Lines.SurvivingLinesAppend` | legal_dataset/legal_document_loader.py:19-25 | Filtering a concatenation gives the concatenation of the filtered parts, so input order is kept. |
| `Lines.TidyLinesSurvive` | legal_dataset/legal_document_loader.py:22-25 | Lines that are already non-empty and space-trimmed pass through unchanged. |
| `Lines.RemoveNewLinesIdempotent` | legal_dataset/legal_document_loader.py:17-26 | Applying the filter to its own output changes nothing. |
| `Lines.KeptIffNonSpace` | legal_dataset/legal_document_loader.py:22-24 | A string line is kept exactly when it holds a character other than a space. |
| `Lines.SurvivorsExist` | legal_dataset/legal_document_loader.py:84-86 | Some line survives exactly when some line holds a non-space character. |
| `Lines.SurvivorsHaveNoBreak` | legal_dataset/legal_document_loader.py:83-84 | Lines without a newline give surviving lines without a newline. |
| `Strings.Strip` | legal_dataset/legal_document_loader.py:22 | A non-empty strip neither starts nor ends with a stripped character. |
| `Strings.StripSlice` | legal_dataset/legal_document_loader.py:22 | The strip is one contiguous slice of its input. Every character cut off before or after that slice is a stripped character. |
| `Strings.StripEmpty` | legal_dataset/legal_document_loader.py:22-23 | The strip is empty exactly when every character is one of those stripped. |
| `Strings.StripUnchanged` | legal_dataset/legal_document_loader.py:22 | Stripping a string whose ends are not stripped characters changes nothing. |
| `Strings.StripKeepsAbsence` | legal_dataset/legal_document_loader.py:88 | A strip holds no character that its input lacks. |
| `Strings.TrimLeftSpec` | legal_dataset/legal_document_loader.py:22 | Left trimming drops exactly the longest prefix of stripped characters. |
| `Strings.TrimRightSpec` | legal_dataset/legal_document_loader.py:22 | Right trimming drops exactly the longest suffix of stripped characters. |
| `Strings.Join` | legal_dataset/legal_document_loader.py:93 | The first line leads the joined text and the last line ends it. The length is the lines' total plus one newline per pair of neighbours. |
| `Strings.EndsWith` | legal_dataset/legal_document_loader.py:78 | A name ends with the suffix exactly when it is some string followed by the suffix. |
| `Strings.JoinCons` | legal_dataset/legal_document_loader.py:93 | Joining two or more lines gives the first line, a newline, and the join of the rest. |
| `Strings.SplitJoinStep` | legal_dataset/legal_document_loader.py:93 | A newline-free line put in front of a join that splits back still splits back. |
| `Strings.SplitJoin` | legal_dataset/legal_document_loader.py:93 | Joining newline-free lines with `"\n"` and splitting at newlines gives the lines back. |
| `TextCleaner.SubstituteSpacedBreaks` | legal_dataset/legal_document_loader.py:43 | The first pass never lengthens a string and empties only the empty string. |
| `TextCleaner.SubstituteBreakRuns` | legal_dataset/legal_document_loader.py:44 | The second pass never lengthens a string and empties only the empty string. |
| `TextCleaner.CleanText` | legal_dataset/legal_document_loader.py:35-48 | Non-text gives `""`. Text never grows, and the result is empty exactly when the input is. |
| `TextCleaner.BreakRunsCapped` | legal_dataset/legal_document_loader.py:44 | After the second pass, no three newlines stand in a row, and a leading run is capped at two. |
| `TextCleaner.BreakRunsFixedPoint` | legal_dataset/legal_document_loader.py:44 | The second pass leaves a string unchanged exactly when it has no three newlines in a row. |
| `TextCleaner.CleanTextNoTripleBreak` | legal_dataset/legal_document_loader.py:37-44 | The output never holds three consecutive line breaks, as the doc comment promises. |
| `TextCleaner.SpacedBreaksKeepVisible` | legal_dataset/legal_document_loader.py:43 | The first pass keeps every character other than spaces and newlines, in order. |
| `TextCleaner.BreakRunsKeepVisible` | legal_dataset/legal_document_loader.py:44 | The second pass keeps every character other than spaces and newlines, in order. |
| `TextCleaner.CleanTextKeepsVisible` | legal_dataset/legal_document_loader.py:43-44 | `clean_text` only removes or merges spaces and newlines. All other characters survive in order. |
| `TextCleaner.SpacedBreaksNeedSpace` | legal_dataset/legal_document_loader.py:43 | Both alternatives of the first pattern need a space, so a text without spaces is left unchanged. |
| `TextCleaner.CleanTextKeepsSettledText` | legal_dataset/legal_document_loader.py:43-44 | A text with no spaces and no triple line break is returned unchanged. |
| `TextCleaner.CleanTextNotIdempotent` | legal_dataset/legal_document_loader.py:43-44 | `"  \n"` cleans to `" \n"`, which cleans to `"\n"`, so a second call can change the result. |
| `TextCleaner.CleanTextCollapsesRun` | legal_dataset/legal_document_loader.py:43-44 | `"a\n\n\n\nb"` cleans to `"a\n\nb"`. |
| `TextCleaner.SecondPassOfExample` | legal_dataset/legal_document_loader.py:44 | The second pass turns `"a\n\n\n\nb"` into `"a\n\nb"`. |
| `TextCleaner.RunOfFourCollapses` | legal_dataset/legal_document_loader.py:44 | The second pass turns a run of four breaks before `"b"` into two. |
| `TextCleaner.CleanTextAbsorbsSpaceAfterBreak` | legal_dataset/legal_document_loader.py:43-44 | `"a\n b"` cleans to `"a\nb"`. The space after the break is absorbed with it. |
| `TextCleaner.CleanTextAbsorbsSpaceAfterLongerRun` | legal_dataset/legal_document_loader.py:43-44 | `"a \n\n b"` cleans to `"a\n\nb"`. The space before the run takes only its first break, and the rest of the run absorbs the space after it. |
| `TextCleaner.CleanTextKeepsSpaceAfterBreak` | legal_dataset/legal_document_loader.py:43-44 | `"a \n b"` cleans to `"a\n b"`. The match on the space before the break consumes that break, so the space after it stays. |
| `TextCleaner.FirstPassOfSpacedBreak` | legal_dataset/legal_document_loader.py:43 | The first pass turns `"a \n b"` into `"a\n b"`: the space-and-newline match takes the break, and the space after it is copied. |
| `ArchiveLoader.RawTitle` | legal_dataset/legal_document_loader.py:88 | The title before re-encoding is the first surviving line with only leading and trailing whitespace cut off. It is one slice of that line with nothing but whitespace around it, and it neither starts nor ends with whitespace. |
| `ArchiveLoader.RawBody` | legal_dataset/legal_document_loader.py:93 | With one surviving line the body is empty. With more lines and no newline in them, the body splits back into exactly the lines after the first. |
| `ArchiveLoader.ExtractDocument` | legal_dataset/legal_document_loader.py:78-101 | A file yields a record only if its name ends in `.txt` and it was read. The record's `Filename` is that file's bare name. |
| `ArchiveLoader.ExtractFile` | legal_dataset/legal_document_loader.py:78-101 | The per-file steps return exactly `ExtractDocument` of the file. |
| `ArchiveLoader.ArchiveDocuments` | legal_dataset/legal_document_loader.py:76-101 | A walk yields at most one record per file. |
| `ArchiveLoader.LoadFromUrl` | legal_dataset/legal_document_loader.py:76-107 | The records the loop appends are exactly `ArchiveDocuments` of the walked files. |
| `ArchiveLoader.ExtractedOnlyFromNonBlankTextFiles` | legal_dataset/legal_document_loader.py:78-101 | A record comes only from a readable `.txt` file with a line holding a non-space character. Its `Filename` is the bare file name. |
| `ArchiveLoader.NonBlankTextFileExtracted` | legal_dataset/legal_document_loader.py:78-101 | A readable `.txt` file with such a line has a first surviving line. It yields a record exactly when re-encoding its title and its body both succeed. The record then holds the re-encoded title and body and the file's name. |
| `ArchiveLoader.TitleAndBody` | legal_dataset/legal_document_loader.py:83-95 | For lines read by `splitlines`, a single surviving line gives an empty body. Otherwise the body splits back into exactly the surviving lines after the first, each non-empty and space-trimmed. |
| `ArchiveLoader.ArchiveDocumentsPrefix` | legal_dataset/legal_document_loader.py:76-101 | The loop's step, stated on prefixes of one walk: the records of the first i+1 files are those of the first i followed by file i's record, if any. |
| `ArchiveLoader.ArchiveDocumentsSnoc` | legal_dataset/legal_document_loader.py:76-101 | The same step for any walk extended by one file, as the append lemmas use it: the file's record, if any, is added at the end. |
| `ArchiveLoader.ExampleSurvivors` | legal_dataset/legal_document_loader.py:84 | In the worked case, `remove_new_lines` keeps the title line and the two body lines and drops the blank line. |
| `ArchiveLoader.ExampleTitleAndBody` | legal_dataset/legal_document_loader.py:88-93 | In the worked case, the title is `Title Line` and the body is the two body lines joined by a newline. |
| `ArchiveLoader.ArchiveDocumentsAppend` | legal_dataset/legal_document_loader.py:76-101 | The records of two stretches of the walk are those of each, in walk order. |
| `ArchiveLoader.SkippedFileContributesNothing` | legal_dataset/legal_document_loader.py:103-107 | A file that raises or has nothing to contribute leaves the other records unchanged. |
| `ArchiveLoader.ArchiveDocumentsFromTextFiles` | legal_dataset/legal_document_loader.py:78-101 | Every record of a walk names a `.txt` file. |
| `ArchiveLoader.ExtractDocumentExample` | legal_dataset/legal_document_loader.py:81-101 | `doc1.txt` with lines `Title Line`, a blank line and two body lines gives one record with the two body lines joined. |
| `TabularLoader.LoadFromCsv` | legal_dataset/legal_document_loader.py:139-166 | No `Text` column gives `MissingTextColumn`. Otherwise the zip loop returns exactly `CsvDocuments`. |
| `TabularLoader.ZipRecords` | legal_dataset/legal_document_loader.py:155-164 | The loop appends one record per pair and returns exactly `Zipped`: one record for each pair up to the shorter list, titled from row k's label with the k-th kept text. |
| `TabularLoader.CleanedTexts` | legal_dataset/legal_document_loader.py:146-150 | One cleaned text per row. A row's text is empty exactly when its cell is not text or is empty. |
| `TabularLoader.NonEmptyTexts` | legal_dataset/legal_document_loader.py:153 | The filtered list is no longer than its input and holds only non-empty texts. |
| `TabularLoader.TextOrigins` | legal_dataset/legal_document_loader.py:153 | One origin index per kept text. |
| `TabularLoader.TextOriginsSpec` | legal_dataset/legal_document_loader.py:153 | The k-th kept text is the text at an increasing index, and every non-empty text is kept. |
| `TabularLoader.NothingDroppedKeepsAll` | legal_dataset/legal_document_loader.py:153 | With no empty text, the filter keeps the list as it is. |
| `TabularLoader.CsvDocuments` | legal_dataset/legal_document_loader.py:153-164 | There are no more records than rows. Every text is non-empty, and no record has a file name. |
| `TabularLoader.CsvDocumentsShape` | legal_dataset/legal_document_loader.py:159-164 | There are min(rows, kept texts) records. The k-th title is the title-cased k-th row label. |
| `TabularLoader.CsvAlignedWhenNothingDropped` | legal_dataset/legal_document_loader.py:146-164 | With no dropped row, record k pairs row k's title with row k's cleaned text. |
| `TabularLoader.CsvTextFromSameOrLaterRow` | legal_dataset/legal_document_loader.py:150-161 | The k-th text is the cleaned text of row k or of a later row. |
| `TabularLoader.DroppedTextShifts` | legal_dataset/legal_document_loader.py:153 | Once an empty text at or before position k is dropped, the k-th kept text comes from a later index. |
| `TabularLoader.CsvDroppedRowShifts` | legal_dataset/legal_document_loader.py:153-161 | Once a row at or before k is dropped, record k has row k's title but a strictly later row's text. |
| `TabularLoader.CsvMisalignmentExample` | legal_dataset/legal_document_loader.py:153-161 | With rows alpha, beta and gamma, and beta without text, the titles of alpha and beta get the texts of alpha and gamma. |
| `TabularLoader.ExampleCleanedTexts` | legal_dataset/legal_document_loader.py:146-150 | The example's cleaned column is `A`, `""` and `C`: the non-text cell becomes empty. |
| `TabularLoader.ExampleNonEmptyTexts` | legal_dataset/legal_document_loader.py:153 | The filter turns `A`, `""` and `C` into `A` and `C`. |

## Left out

- Downloading the archive with `requests.get` and writing it to `legal_documents.zip` (lines 59-62). This is network and file I/O. `LoadFromUrl` takes the walked files instead of a URL.
- Extracting the ZIP, walking the directory with `os.walk`, and deleting the temporary files and directories afterwards (lines 68-69, 76, 116-122). This is filesystem plumbing. The walk is given as a sequence of `FileEntry` values in walk order; the path joined with `os.path.join` is not needed, because records carry only the bare name.
- Opening files as latin-1 and `splitlines` (lines 82-83). Each file's lines are an input. A read that raises is `content == None`.
- `convert_to_utf8` from the `utf8_encoder` module, together with the `.encode('latin-1')` in front of it (lines 15, 89-95). That module is not part of this model. It is a parameter `convert: string -> Option<string>`, where `None` stands for an exception, which the file-level handler turns into a skipped file.
- The messages printed by the two `except` branches (lines 103-107). Only their effect is modelled: the file contributes nothing.
- `pd.read_csv` and the DataFrame `apply` and `tolist` calls (lines 137, 146-150). The table is a `hasTextColumn` flag and a sequence of `Row(name, text)`. Index labels are assumed to be strings; a non-string label would make `.title()` raise, and that case is not modelled.
- `str.title()` (line 161). Its Unicode casing rules are not modelled; it is a parameter `titleCase`.
- The `bytes` branch of `clean_text` (line 41). A `str` pattern applied to `bytes` raises `TypeError` in Python, so only strings and non-text values are modelled.
- `load_from_dataframe` (lines 169-180). It is an empty stub and has no behaviour to model.
- `Strings.Strip`: its own contract states only that the result neither starts nor ends with a stripped character. `StripSlice`, `TrimLeftSpec` and `TrimRightSpec` state that it is one slice of the input, with exactly the longest stripped prefix and suffix cut off.
