# Gazette segmentation model

A Dafny model of the text segmentation in `src/pdf_analyzer.py`. This is the code that
turns the text of one official-gazette issue into a list of records, one per decree and
one per resolution, with proofs of what that segmentation guarantees.

The pipeline, as the code performs it, has five steps:

1. The page texts that are not empty are joined with line breaks.
2. `re.split(r"(Ministerio[^\n]+)", ...)` cuts the text at every ministry heading. The
   text before the first heading is dropped.
3. Each heading is stripped and paired with the text that follows it, up to the next heading.
4. In each section, `re.findall` collects first the decree blocks and then the resolution
   blocks. Each block starts at `DECRETO NÚMERO` or `RESOLUCIÓ?N NÚMERO` and runs lazily
   up to the next marker of either kind or to the end.
5. Each block is stripped and becomes a record:
   - `titulo` is its first line, stripped;
   - `proposito` is `extract_purpose` of the block;
   - `contenido` is the text after the title, stripped.

The modules follow that structure:

- `text.dfy` (`Text`): `strip`, ASCII case folding and substrings.
- `patterns.dfy` (`Patterns`): the fixed regular expressions as a `Pattern` datatype.
  `MatchesAt` says whether a pattern matches at a position. `Find` is the leftmost-match
  search that `re.search`, `re.split` and `re.findall` all perform. `Count` counts matches.
- `sections.dfy` (`Sections`): `re.split` on ministry headings. `WellSplit` describes a
  split whose every cut is at the leftmost heading, taken to the end of its line, and
  `SplitUnique` shows that the split is the only one of that shape.
- `spans.dfy` (`Spans`): the two `re.findall` calls, as spans `[start, end)` of the
  section text.
- `purpose.dfy` (`Purpose`): `extract_purpose`.
- `analyzer.dfy` (`Analyzer`): the records. `Analyze` is a pure specification of the
  whole result. `AnalyzePages` is the imperative loop of `analyze_pdf`: a stride-2 loop
  over the sections that appends to `data`. The two per-section loops are the method
  `AppendRecords`. `AnalyzePages` is proved equal to `Analyze`.

Per section, all decrees come first, then all resolutions (`SectionShape`).

## Model

| member | source | states |
|---|---|---|
| Text.Strip | src/pdf_analyzer.py:52 | `strip` removes leading and trailing whitespace only: the result is a contiguous block of the input, everything outside it is whitespace, and it neither starts nor ends with whitespace |
| Text.Lower | src/pdf_analyzer.py:19 | `re.IGNORECASE` folding: an upper-case ASCII letter becomes the lower-case letter at the same place in the alphabet, every other character is unchanged, and no upper-case ASCII letter is left |
| Text.StripKeepsLiteral | src/pdf_analyzer.py:52-54 | stripping a text that opens with a literal with non-space ends keeps the literal and cuts only trailing whitespace |
| Patterns.Find | src/pdf_analyzer.py:47-49 | the search returns the leftmost match at or after the start position, or the text length when there is none |
| Patterns.Count | src/pdf_analyzer.py:47-49 | the number of positions at or after the start where the pattern matches, at most the number of positions left |
| Patterns.CountZeroIff | src/pdf_analyzer.py:47-49 | no match is counted exactly when the leftmost search finds none |
| Patterns.MarkerExtends | src/pdf_analyzer.py:39 | a literal that matches at the start of a prefix of a text matches at the start of the text: literal matching reads nothing past the literal |
| Patterns.MarkerNoOverlap | src/pdf_analyzer.py:48 | no marker, and no end-of-text lookahead, starts strictly inside a `DECRETO NÚMERO` or `RESOLUCIÓ?N NÚMERO` marker |
| Patterns.MarkerLength | src/pdf_analyzer.py:48 | the length of the marker at the start of a text, which is zero exactly when no marker starts there |
| Sections.HeadingEnd | src/pdf_analyzer.py:39 | the greedy `[^\n]+` of a heading runs to the next line break or to the end of the text, and has at least one character after `Ministerio` |
| Sections.Pieces | src/pdf_analyzer.py:39 | the split of a text has odd length, and its first piece is the text up to the leftmost heading |
| Sections.SplitOnHeadings | src/pdf_analyzer.py:39 | the split has odd length, joins back to the text, and is well formed: each heading is the leftmost one after the piece before it and runs greedily to the end of its line |
| Sections.SplitOnHeadingsShape | src/pdf_analyzer.py:39 | joining the pieces gives back the text; odd pieces are headings (`Ministerio`, more characters, no line break); even pieces contain no heading; no heading of a piece joined with the heading after it starts inside the piece (the cut is leftmost); a piece after a heading starts with the line break that ended it, or is the empty last piece (the cut is greedy) |
| Sections.SplitUnique | src/pdf_analyzer.py:39 | the split is the only well-formed one: any pieces that join to the text and are well formed are exactly what `re.split` returns |
| Sections.LaterCutRejected | src/pdf_analyzer.py:39 | in "MinisterioMinisterio X" the heading starts at 0, so cutting at the second "Ministerio" is not a well-formed split |
| Sections.PiecesConcat | src/pdf_analyzer.py:39 | the split loses and adds nothing: its pieces joined equal the input |
| Sections.SplitAfterPreamble | src/pdf_analyzer.py:39-44 | cutting off the text before the first heading changes only the first piece, which becomes empty |
| Spans.NextSpan | src/pdf_analyzer.py:47-49 | the next `findall` match starts at the leftmost marker; it holds that whole marker; it ends at the first position where the lookahead holds; no stop lies strictly inside it |
| Spans.MarkerSpans | src/pdf_analyzer.py:47-49 | the `findall` scan returns at most one block per position left, each a non-empty span of the text after the start |
| Spans.SpansOk | src/pdf_analyzer.py:47-49 | every block `findall` returns is well formed, and the blocks come in text order without overlapping |
| Spans.NoMarkerInside | src/pdf_analyzer.py:69-71 | no marker of the block's own kind starts strictly inside a block |
| Spans.SpansCount | src/pdf_analyzer.py:47-49 | `findall` returns exactly one block per occurrence of its marker |
| Spans.SpansCover | src/pdf_analyzer.py:69-71 | every occurrence of the marker opens one of the blocks |
| Spans.FindAll | src/pdf_analyzer.py:47-49 | there are as many block texts as spans |
| Spans.BlockShape | src/pdf_analyzer.py:47-49 | a block's text opens with its marker, and no marker of either kind starts anywhere else in it |
| Spans.FindAllShape | src/pdf_analyzer.py:69-71 | the number of blocks equals the number of markers of that kind; each block opens with its marker and has no further marker of either kind |
| Purpose.PurposeMatch | src/pdf_analyzer.py:19 | the `re.search` match is leftmost (no "por la cual" before it) and lazy (no "acuerdo" between the end of the opening and the match end); it starts at an opening and ends right before a closing word |
| Purpose.PurposeMatchComplete | src/pdf_analyzer.py:19-20 | the search fails exactly when no "por la cual" is followed, at or after its end, by "acuerdo", both in any case |
| Purpose.ExtractPurpose | src/pdf_analyzer.py:19-22 | without a match the result is "" |
| Purpose.StripMatch | src/pdf_analyzer.py:21 | the purpose is the match up to its trailing whitespace: a prefix of the match, at least as long as "por la cual", ending in a character that is not whitespace, with only whitespace after it in the match |
| Purpose.PurposeShape | src/pdf_analyzer.py:19-21 | a purpose that was found starts with "por la cual" in some case, is a substring of the text, and contains "acuerdo" in no case |
| Purpose.NoCloseInPurpose | src/pdf_analyzer.py:19-21 | no "acuerdo" in any case starts at any position of the purpose |
| Purpose.PurposeEmptyIff | src/pdf_analyzer.py:19-22 | `extract_purpose` returns "" if and only if the text holds no "por la cual" followed by "acuerdo" |
| Analyzer.NonEmptyPages | src/pdf_analyzer.py:36 | every page text kept is non-empty |
| Analyzer.JoinPagesAppend | src/pdf_analyzer.py:36 | one more page adds its text after a line break; an empty page adds nothing; a page after only empty pages is the whole text |
| Analyzer.Join | src/pdf_analyzer.py:36 | non-empty texts joined with line breaks give "" exactly when there are none |
| Analyzer.NonEmptyPagesEmptyIff | src/pdf_analyzer.py:36 | no page is kept exactly when all pages are empty |
| Analyzer.JoinPages | src/pdf_analyzer.py:36 | the full text is empty exactly when every page text is empty |
| Analyzer.BuildRecord | src/pdf_analyzer.py:51-66 | a record names the section's ministry and carries the loop's type label |
| Analyzer.TitleShape | src/pdf_analyzer.py:54 | the title is a prefix of the stripped block, has no line break, and only whitespace follows it on the first line |
| Analyzer.RecordTitle | src/pdf_analyzer.py:52-58 | the stripped block equals the title followed by the remainder; the title has no line break and no trailing whitespace |
| Analyzer.RecordContent | src/pdf_analyzer.py:52-58 | the stripped block is exactly `titulo`, then whitespace, then `contenido`, which does not begin with whitespace; `proposito` is `extract_purpose` of the stripped block |
| Analyzer.RecordPieces | src/pdf_analyzer.py:56-58 | `contenido` is a substring of the stripped block; `proposito` is empty, or starts with "por la cual" and is a substring of the stripped block |
| Analyzer.TitleOpensWithMarker | src/pdf_analyzer.py:74-76 | the title of a block begins with the block's marker |
| Analyzer.Records | src/pdf_analyzer.py:73-88 | one record per block |
| Analyzer.RecordsShape | src/pdf_analyzer.py:51-66 | every record of a block list names the ministry, carries the kind's label and has a title that opens with that kind's marker |
| Analyzer.SectionRecords | src/pdf_analyzer.py:46-88 | a section yields one record per decree block and per resolution block, each naming the section's ministry |
| Analyzer.SectionShape | src/pdf_analyzer.py:47-88 | a section yields one record per marker, all naming its ministry: first the DECRETO records, one per `DECRETO NÚMERO`, each titled with that marker; then the RESOLUCIÓN records, one per resolution marker |
| Analyzer.SectionsOf | src/pdf_analyzer.py:42-44 | one record list per heading |
| Analyzer.HeadedSectionsShape | src/pdf_analyzer.py:39-44 | every section pairs a heading line with the text up to the next heading; that text holds no heading and starts with the line break ending the heading, unless it is the empty last one; there is no section exactly when the text has no heading |
| Analyzer.AnalyzePages | src/pdf_analyzer.py:36-92 | the section loop returns exactly `Analyze` of the joined page texts |
| Analyzer.AppendRecords | src/pdf_analyzer.py:51-66 | the loop over the blocks appends exactly their records, in order, to the records collected so far |
| Analyzer.RecordStep | src/pdf_analyzer.py:73-88 | one turn of the block loop appends the record of the next block |
| Analyzer.MinistryShape | src/pdf_analyzer.py:43 | the stripped heading begins with `Ministerio` and contains no line break |
| Analyzer.SectionRecordsOk | src/pdf_analyzer.py:51-88 | every record of a section satisfies `RecordOk` |
| Analyzer.AnalyzeRecordsOk | src/pdf_analyzer.py:39-88 | every record of a document satisfies `RecordOk`: its ministry starts with `Ministerio` and is one line; its type is DECRETO or RESOLUCIÓN and its title opens with that type's marker; its title is one line; its purpose is empty or opens with "por la cual" |
| Analyzer.Analyze | src/pdf_analyzer.py:39-42 | a text without a ministry heading yields no record |
| Analyzer.PreambleIgnored | src/pdf_analyzer.py:39-42 | the text before the first heading does not affect the records |

## Left out

- Reading the PDF (`PdfReader`, `page.extract_text()`, src/pdf_analyzer.py:35-36) is foreign
  code. The model takes the page texts as a `seq<string>`. It models only the joining of
  the non-empty ones with line breaks.
- Building the `pandas.DataFrame` (src/pdf_analyzer.py:91) is a library call. The result is
  the `seq<Record>` the DataFrame would be built from, with the same column names as
  fields.
- `main` (src/pdf_analyzer.py:94-128) is all I/O: directories, file globbing, CSV output,
  timestamps and printing.
- Text.IsSpace: `str.strip` removes every Unicode whitespace character. The model strips
  only space, tab, line feed, carriage return, vertical tab and form feed.
- Text.Lower: case-insensitive matching (`re.IGNORECASE`) is modelled by folding ASCII
  `A`–`Z`. This is exact for the letters of "por la cual" and "acuerdo", which have no
  non-ASCII case variants in Python's matching.
- Characters are code points compared exactly. Decomposed spellings of `Ó` and `Ú` are
  different texts, as they are for the regular expressions.
- Purpose.ExtractPurpose: its own contract states only the no-match case. The
  properties of a found purpose are in `PurposeShape`, `StripMatch` and `PurposeEmptyIff`.
- Analyzer.BuildRecord: its own contract states only the ministry and the label. The
  title, content and purpose are described by `RecordTitle`, `RecordContent`,
  `RecordPieces` and `TitleOpensWithMarker`.
