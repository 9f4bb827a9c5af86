# CWBR to Digital Commons, in Dafny

A model of the record-to-output core of two Python scripts. Both take the
bibliographic records of the Civil War Book Review, one tab-separated row
per review.

- `make_CWBR_pdfs.py` lays each record out as a sequence of ReportLab
  blocks:
  - an optional announcement banner;
  - title and subtitle lines;
  - author lines;
  - the issue date;
  - a book citation;
  - the body paragraphs, separated by spacers.

  It makes one document per ordinary record, and one digest per issue date
  for the annotation records.
- `make_DigitalCommons_spreadsheet.py` turns each record into one
  23-column row of a Digital Commons upload sheet. The rows come after a
  header row, in ascending ID order. The row holds:
  - a formatted title;
  - a public URL;
  - a `YYYY-MM-01` date made from `Season Year`;
  - a document-type code;
  - three parsed author names;
  - the abstract.

Both paths are built from small Python string operations. The model
defines those over `seq<char>` with Python's semantics:
- `replace`: non-overlapping, left to right;
- `split` on a separator, and the filtered form `[p for p in s.split(sep) if p]`;
- `join`, `lower`, `upper`, `strip`, `capitalize`, `string.capwords`;
- the string order used by `sorted`.

The modules follow the program:

| file | module | contents |
|---|---|---|
| `wrappers.dfy` | `Wrappers` | `Option` and `Result`, the latter for the exceptions the export can raise |
| `pystr.dfy` | `PyStr` | the string operations and their algebra: split/join round trips, `replace` as join-of-split, the total order on strings |
| `sorting.dfy` | `Sorting` | `sorted(xs, key=...)` as a stable insertion sort: sorted, a permutation, each key's elements in input order |
| `records.dfy` | `Records` | the record, and the tag stripping, break rewriting, title sources and author choice that both scripts share |
| `layout.dfy` | `Layout` | the layout script: blocks, the two templates, grouping and sorting of annotations, choice of documents to build |
| `export.dfy` | `Export` | the export script: title formatting, date, season, URL, document type, abstract, the row and the whole sheet |

Both failure points of the export are modelled as `Result` values:
- the dictionary lookups raise `KeyError` (`reformat_issue_type` and the
  season table);
- the tuple unpack in `make_publication_date` fails unless the date has
  exactly one space.

The sheet is built only when every row succeeds. Otherwise the exception
of the first failing record, in ID order, is the result.

## Model

| member | source | states |
|---|---|---|
| PyStr.Replace | make_CWBR_pdfs.py:146 | `str.replace`: text without the pattern is unchanged; deleting a pattern that occurs shortens the text; a replacement no longer than the pattern never lengthens it; a non-empty replacement keeps non-empty text non-empty |
| PyStr.ReplaceIsJoinOfSplit | make_CWBR_pdfs.py:155 | Python's identity `s.replace(a, b) == b.join(s.split(a))` holds of the model |
| PyStr.Split | make_DigitalCommons_spreadsheet.py:125 | `str.split(sep)`: at least one piece, no piece holds the separator, joining the pieces with the separator gives the input back, and text without the separator is a single piece |
| PyStr.SplitOfJoin | make_DigitalCommons_spreadsheet.py:125 | round trip: splitting a join of pieces that avoid an unbordered separator gives the pieces back |
| PyStr.SplitOfSeparated | make_CWBR_pdfs.py:212 | `split` cuts at each unbordered separator: splitting `a + sep + b` gives the pieces of `a` followed by those of `b` |
| PyStr.PartsOfSeparated | make_CWBR_pdfs.py:210-212 | the non-empty parts of `a + sep + b` are those of `a` followed by those of `b` |
| PyStr.Parts | make_CWBR_pdfs.py:135 | `[p for p in s.split(sep) if p]`: every part is non-empty and free of the separator, the parts concatenate to the text with the separator deleted, and empty text has no parts |
| PyStr.FirstPieceEnds | make_DigitalCommons_spreadsheet.py:136 | the first piece of `str.split(sep)` is the whole string, or is followed in it by the separator |
| PyStr.PartsOfJoin | make_DigitalCommons_spreadsheet.py:27 | round trip: the parts of a join of separator-free pieces are the non-empty pieces, in order, and all the pieces when none is empty |
| PyStr.ConcatSplit | make_CWBR_pdfs.py:135 | concatenating the pieces of a split is the text with the separator deleted |
| PyStr.NonEmpty | make_CWBR_pdfs.py:167 | `[i for i in xs if i]`: keeps only non-empty members of the input, changes no concatenation, and is the identity on lists without empty strings |
| PyStr.NonEmptyAppend | make_CWBR_pdfs.py:210-212 | filtering out empty strings commutes with concatenation of lists |
| PyStr.ReplaceInside | make_CWBR_pdfs.py:204 | `replace` of a pattern that can start only inside the middle piece, and end there, rewrites the middle piece alone |
| PyStr.ReplaceCharByChar | make_CWBR_pdfs.py:62 | replacing one character by another maps the text character by character |
| PyStr.ReplaceCharByNothing | make_CWBR_pdfs.py:62 | replacing one character by nothing drops exactly that character, keeping the others in order |
| PyStr.LStrip | make_DigitalCommons_spreadsheet.py:45 | `lstrip()`: the result is a suffix of the input that does not start with whitespace, and everything removed is whitespace |
| PyStr.RStrip | make_CWBR_pdfs.py:47 | `rstrip()`: the result is a prefix of the input that does not end with whitespace, and everything removed is whitespace |
| PyStr.CapWordsOnlyChangesCase | make_DigitalCommons_spreadsheet.py:44 | `string.capwords(s, ' ')` keeps the length and every character up to letter case |
| PyStr.StrLeTotal | make_DigitalCommons_spreadsheet.py:169 | the string order of `sorted` is total |
| PyStr.StrLeTrans | make_DigitalCommons_spreadsheet.py:169 | the string order of `sorted` is transitive |
| PyStr.StrLeAntisym | make_DigitalCommons_spreadsheet.py:169 | the string order of `sorted` is antisymmetric |
| Sorting.SortBy | make_CWBR_pdfs.py:56 | `sorted(xs, key=...)`: the result is in key order, is a permutation of the input, and keeps the input order among elements sharing a key (stability) |
| Sorting.StableSortUnique | make_CWBR_pdfs.py:56 | two sequences sorted by a key that keep each key's elements in the same order are equal: a stable sort has one result |
| Sorting.SortByIsStablySorted | make_CWBR_pdfs.py:56 | a sequence is a stable sort of the input exactly when it is the result of `sorted` |
| Sorting.PermutationKeepsDistinct | make_CWBR_pdfs.py:39 | sorting distinct dictionary keys gives distinct keys |
| Records.RemoveEach | make_CWBR_pdfs.py:145-146 | removing each tag in turn never lengthens the text, and leaves it unchanged exactly when none of the tags occurs in it |
| Records.StripBoldsBreaks | make_CWBR_pdfs.py:144-147 | `strip_bolds_breaks` never lengthens the text and returns it unchanged exactly when it holds none of `<br>`, `</br>`, `<BR>`, `</BR>`, `<b>`, `</b>`, `<B>`, `</B>` |
| Records.StripParagraphsBreaks | make_CWBR_pdfs.py:202-205 | `strip_paragraphs_breaks` never lengthens the text and returns it unchanged exactly when it holds none of `<br>`, `</br>`, `<p>`, `</p>`, `<BR>`, `</BR>` |
| Records.BreaksToParagraphs | make_CWBR_pdfs.py:155 | rewriting lower-case breaks as paragraph tags never lengthens nor empties the text, and leaves text without lower-case breaks unchanged |
| Records.BreaksOfTagged | make_CWBR_pdfs.py:210-211 | rewriting the breaks of plain pieces separated by `<p>` or `<br>` tags gives the pieces joined by `<p>` |
| Records.TitleFieldParts | make_CWBR_pdfs.py:134-135 | the `Title` parts are non-empty and free of `<p>`, and concatenate to the cleaned title with its `<p>` tags deleted |
| Records.HeadlineParts | make_CWBR_pdfs.py:139-140 | the headline parts are non-empty and free of `<p>`, and concatenate to the headline with its `<p>` tags deleted |
| Records.HeadlinePartsOfSeparated | make_CWBR_pdfs.py:139-140 | a headline is cut at each `<p>`: the parts of `a<p>b` are those of `a` followed by those of `b` |
| Records.AddAuthorsKeepsNonEmpty | make_DigitalCommons_spreadsheet.py:95-98 | the author loop appends exactly the non-empty fields, in order, with their line breaks rewritten |
| Records.PickAuthors | make_DigitalCommons_spreadsheet.py:92-103 | at most three non-empty names; for Review and Classics exactly `[Reviewer]` or `[]`; otherwise the non-empty `Auth_i` in order with `<br>`/`</br>` made `<p>`/`</p>` |
| Layout.AnnouncementBlock | make_CWBR_pdfs.py:108-117 | at most one block; a block exactly when the lower-cased type is classics, interview, editorial or review; `Feature Essay` for classics, the type verbatim for the other three |
| Layout.FindTitleLines | make_CWBR_pdfs.py:132-141 | the subtitle list is `None` exactly for Editorial and Interview (exact spelling); those use the `Title` parts, other types the headline parts; every part is non-empty and free of `<p>` |
| Layout.TitleLines | make_CWBR_pdfs.py:120-129 | one upper-cased big-title line per title part, then one subtitle line per subtitle part, in order, and nothing else |
| Layout.TitleBlock | make_CWBR_pdfs.py:120-141 | Editorial and Interview show their upper-cased `Title` parts and nothing else; other types show their upper-cased headline parts followed by their sub-headline parts, in order |
| Layout.AuthorBlock | make_CWBR_pdfs.py:150-162 | at most three author lines; for Review and Classics the reviewer alone when non-empty; otherwise one line per non-empty `Auth_i`, in order, breaks rewritten; only author-style paragraphs |
| Layout.EnglishListOfThree | make_CWBR_pdfs.py:173 | three names read `A, B, and C` |
| Layout.AuthorPrefix | make_CWBR_pdfs.py:167-175 | the citation prefix is empty for no names; it is `<b>A</b> ` for one name (no period), `<b>A and B.</b> ` for two and `<b>A, B, and C.</b> ` for three |
| Layout.RemoveEachInsideItalic | make_CWBR_pdfs.py:177-188 | stripping tags that cannot overlap `<i>` or `.</i> ` from the italic title strips the title alone |
| Layout.BookPiece | make_CWBR_pdfs.py:177-188 | the book piece is `<i>`, the title stripped twice, and `.</i> `; a title without break or paragraph tags appears unchanged |
| Layout.CitationText | make_CWBR_pdfs.py:165-194 | the citation starts with the author prefix of the book's own authors, then `<i>`, the twice-stripped title and `.</i> ` |
| Layout.CitationPublisherPiece | make_CWBR_pdfs.py:179-182 | the citation is the one without a publisher with `Publisher, ` inserted after the book title, and nothing is inserted for an empty publisher |
| Layout.CitationPubDatePiece | make_CWBR_pdfs.py:183-186 | the citation is the one without a publication date with `Pub_date. ` inserted after the publisher piece, and nothing is inserted for an empty date |
| Layout.CitationEnding | make_CWBR_pdfs.py:187-194 | the citation ends with the stripped price and a space, followed by `ISBN <isbn>` exactly when an ISBN is given |
| Layout.CitationBlock | make_CWBR_pdfs.py:195-199 | no block exactly for Interview (exact spelling); otherwise one citation paragraph |
| Layout.BodyParagraphs | make_CWBR_pdfs.py:210-212 | body paragraphs are non-empty and free of `<p>`, concatenate in source order to the rewritten body with `<p>` deleted, and there are none for an empty body |
| Layout.BodyParagraphsOfTagged | make_CWBR_pdfs.py:208-212 | a body of plain pieces separated by `<p>` or `<br>` is cut exactly at those tags: its paragraphs are the non-empty pieces, in order |
| Layout.BodyParagraphsExample | make_CWBR_pdfs.py:208-212 | `Para one.<br>Para two.<p>Para three.` gives the paragraphs `Para one.`, `Para two.` and `Para three.` |
| Layout.UpperCaseBreakKept | make_CWBR_pdfs.py:210-212 | an upper-case `<BR>` does not cut the body: `Para one.<BR>Para two.<p>Para three.` gives two paragraphs, the first still holding `<BR>` |
| Layout.Interleave | make_CWBR_pdfs.py:213-216 | `2n` blocks: paragraph `i` at `2i`, a 0.2in spacer at `2i + 1` |
| Layout.ParagraphBlock | make_CWBR_pdfs.py:208-217 | `make_paragraph_block` alternates the body paragraphs, in order, with 0.2in spacers |
| Layout.ParagraphBlockCounts | make_CWBR_pdfs.py:208-217 | the paragraph block holds one justified paragraph and one 0.2in spacer per body paragraph and nothing else |
| Layout.BylineCounts | make_CWBR_pdfs.py:95-100 | title, author and date lines hold only title, subtitle and author-style paragraphs, and only the 0.1in, 0.5in and gap spacers |
| Layout.CitationSectionCounts | make_CWBR_pdfs.py:101-103 | the citation section has no citation and no spacer for Editorial; Interview keeps the spacer without a citation; every other type has one citation and one spacer |
| Layout.NormalTemplate | make_CWBR_pdfs.py:91-105 | the normal template opens with the announcement, a 0.1in spacer, the title lines, a 0.1in spacer and the author lines; then comes the issue date in the large author style with 0.1in above and 0.5in below, then the citation section with its 0.4in spacer; the paragraph block closes it |
| Layout.AnnotationTemplate | make_CWBR_pdfs.py:66-78 | the annotation template opens with the title lines, a 0.1in spacer and the author lines; then comes the issue date in the large author style with 0.05in above and 0.5in below, then the citation section with its 0.2in spacer; the paragraph block closes it |
| Layout.NormalTemplateCounts | make_CWBR_pdfs.py:91-105 | the normal template has one citation unless Editorial or Interview, the 0.4in spacer unless Editorial, a banner exactly when the type asks for one, and one justified paragraph per body paragraph |
| Layout.AnnotationTemplateCounts | make_CWBR_pdfs.py:66-78 | the annotation template has no banner, one citation unless Editorial or Interview, one justified paragraph per body paragraph, and one 0.2in spacer per body paragraph plus the citation spacer unless Editorial |
| Layout.SelectedMembers | make_CWBR_pdfs.py:47-51 | a record is selected for a date exactly when it passes the test and carries that date |
| Layout.GroupBy | make_CWBR_pdfs.py:44-52 | the grouping keys are distinct; each key's list is non-empty and holds exactly that date's selected records, in input order; a date without a key has no selected record |
| Layout.GroupBySeason | make_CWBR_pdfs.py:44-52 | `group_all_annotations_by_season` files exactly the annotation records (type `annotation` after `lower().strip()`) under their own issue date, in input order |
| Layout.AnnotationsOnMembers | make_CWBR_pdfs.py:47 | a record is in a date's group exactly when its stripped, lower-cased type is `annotation` and it carries that date |
| Layout.SortedSeasons | make_CWBR_pdfs.py:39 | the digest dates are distinct and ascending, and are exactly the dates that have annotation records |
| Layout.SeasonFileName | make_CWBR_pdfs.py:62 | a digest file name is the date with each `/` made `_` and each space dropped: a date without spaces keeps every position, `/` turned `_`; the name holds no `/` and no space |
| Layout.AnnotationDigest | make_CWBR_pdfs.py:55-63 | a digest is named by the date's file name and is the banner and spacer followed by the annotation templates of a stable title sort of the date's records, which by Sorting.StableSortUnique fixes their order |
| Layout.AnnotationDigestBanner | make_CWBR_pdfs.py:58-59 | a digest holds exactly one `ANNOTATIONS` banner |
| Layout.AnnotationDigestCitations | make_CWBR_pdfs.py:60-61 | a digest of annotation records holds one citation per record |
| Layout.DigestBodyCitations | make_CWBR_pdfs.py:60-61 | annotation templates laid one after another hold one citation per record that is neither Editorial nor Interview |
| Layout.AnnotationIsNotEditorialNorInterview | make_CWBR_pdfs.py:74 | an annotation record never passes the Editorial or Interview test |
| Layout.AnnotationDocuments | make_CWBR_pdfs.py:37-41 | one digest per date with annotation records, in ascending date order, each over exactly that date's annotation records |
| Layout.ToBuild | make_CWBR_pdfs.py:81-85 | a record gets a normal document exactly when its lower-cased type is not `annotation` and no finished document exists for it |
| Layout.NormalDocuments | make_CWBR_pdfs.py:81-88 | a normal document, the record's template under its ID, exists exactly for each record that needs one; never more documents than records |
| Layout.ToBuildInOrder | make_CWBR_pdfs.py:82-85 | the records are visited in order: filtering a concatenation gives the filtered halves one after the other |
| Layout.ToBuildOne | make_CWBR_pdfs.py:83-85 | a single record is kept exactly when it passes the filter |
| Layout.NormalDocumentsInOrder | make_CWBR_pdfs.py:82-88 | documents are produced in record order: those of a concatenation are those of each half, one after the other |
| Layout.NormalDocumentOfOne | make_CWBR_pdfs.py:83-88 | a single record yields its one normal document exactly when it passes the filter, and nothing otherwise |
| Layout.NormalDocumentsSettle | make_CWBR_pdfs.py:85 | once every document built by a run is reported as existing, the next run builds nothing |
| Layout.PaddedAnnotationTakesBothPaths | make_CWBR_pdfs.py:83 | a record typed `Annotation ` is both grouped into a digest and given a normal document |
| Layout.NormalDocumentsSkipAnnotations | make_CWBR_pdfs.py:83-84 | an annotation record without surrounding blanks gets no normal document |
| Export.AbstractParagraphs | make_DigitalCommons_spreadsheet.py:27-32 | the abstract paragraphs are non-empty and free of `<p>`, concatenate to the body with `</p>` and `<p>` deleted, and there are none for an empty body |
| Export.AbstractParagraphsOfTagged | make_DigitalCommons_spreadsheet.py:27-32 | a body of plain pieces separated by `<p>` or `<br>` gives the non-empty pieces, in order, as abstract paragraphs |
| Export.MakeParagraphsText | make_DigitalCommons_spreadsheet.py:26-32 | the abstract holds no `<p>` and is empty for an empty body |
| Export.AbstractRoundTrip | make_DigitalCommons_spreadsheet.py:27 | round trip: splitting the abstract on newline-tab gives its paragraphs back when none holds a newline-tab |
| Export.AbstractMatchesLayoutBody | make_DigitalCommons_spreadsheet.py:28-31 | without closing paragraph tags, the abstract has the same paragraphs as the laid-out body |
| Export.ExportAnnouncement | make_DigitalCommons_spreadsheet.py:35-40 | `Feature Essay` for classics, the type verbatim for interview, editorial and review (lower-cased comparison), `None` otherwise |
| Export.AnnouncementAgrees | make_DigitalCommons_spreadsheet.py:35-40 | both scripts announce the same records with the same text |
| Export.FormatTitlePart | make_DigitalCommons_spreadsheet.py:43-48 | a formatted title part holds no `’` and no `“`, and is never longer than the input |
| Export.CapWordsCapitalsStartWords | make_DigitalCommons_spreadsheet.py:44 | after `capwords` and `lstrip`, every capital letter begins the text or follows a space |
| Export.NoCapitalAfterApostrophe | make_DigitalCommons_spreadsheet.py:45 | where capitals begin words, `'S ` does not occur |
| Export.ApostropheReplaceIsDead | make_DigitalCommons_spreadsheet.py:44-45 | the `'S ` to `'s ` replacement never changes its input |
| Export.TitleString | make_DigitalCommons_spreadsheet.py:53-56 | the joined formatted parts hold no `’` and no `“` |
| Export.MakeTitleString | make_DigitalCommons_spreadsheet.py:57-60 | title and subtitle strings joined by `: ` when both are non-empty, else concatenated; no typographic quotes |
| Export.PullTitleFromTitle | make_DigitalCommons_spreadsheet.py:63-67 | the `Title` parts are non-empty and free of `<p>` and concatenate to the cleaned title with `<p>` deleted; there are no subtitle parts |
| Export.PullTitleFromHeadline | make_DigitalCommons_spreadsheet.py:70-73 | the headline and sub-headline parts are non-empty and free of `<p>`, and each side concatenates to its field with `<p>` deleted |
| Export.ExportTitleLines | make_DigitalCommons_spreadsheet.py:76-83 | Editorial and Interview use `Title`; other types use the headlines, falling back to `Title` when both headline lists are empty; every part is non-empty and free of `<p>` |
| Export.TitleSourcesAgree | make_DigitalCommons_spreadsheet.py:76-80 | outside the fallback, both scripts take the same title and subtitle parts |
| Export.TitleFallbackOnlyInExport | make_DigitalCommons_spreadsheet.py:81-82 | with empty headlines the document has no title lines, while the export falls back to `Title` |
| Export.ExportTitle | make_DigitalCommons_spreadsheet.py:51-60 | the exported title holds no typographic quotes, and is the formatted `Title` for Editorial and Interview |
| Export.ReformatIssueType | make_DigitalCommons_spreadsheet.py:115-121 | success exactly for Editorial, Classics, Interview and Review; `KeyError` of the type otherwise; the code maps back to the type |
| Export.DocumentTypeIsAnnounced | make_DigitalCommons_spreadsheet.py:115-121 | every type with an upload code gets an announcement in both scripts |
| Export.MakePublicationDate | make_DigitalCommons_spreadsheet.py:124-132 | the unpack error unless the date splits on spaces into exactly two tokens; `KeyError` of an unknown season; success exactly otherwise |
| Export.PublicationDateRoundTrip | make_DigitalCommons_spreadsheet.py:124-132 | round trip: the publication date gives back the issue date it was made from |
| Export.PublicationDateOfSeason | make_DigitalCommons_spreadsheet.py:127-132 | `Season Year` gives `Year-MM-01` with 03, 06, 09 or 12 for Spring, Summer, Fall, Winter |
| Export.MakeSeason | make_DigitalCommons_spreadsheet.py:135-136 | the season is the first space-separated token: a space-free prefix of the date that ends where the first space begins, or the whole date when it has no space |
| Export.DatedIssueHasSeason | make_DigitalCommons_spreadsheet.py:135-136 | a record that gets a publication date has one of the four seasons |
| Export.MakeUrl | make_DigitalCommons_spreadsheet.py:139-140 | round trip: the URL names the record's ID back, so distinct IDs give distinct URLs |
| Export.AuthorSlots | make_DigitalCommons_spreadsheet.py:170-179 | three name slots: the parsed picked authors in order, then empty names |
| Export.HeaderDistinct | make_DigitalCommons_spreadsheet.py:145-168 | the 23 column names are distinct |
| Export.HeaderAuthorColumns | make_DigitalCommons_spreadsheet.py:155-166 | author `k` owns the `fname`, `mname`, `lname` and `suffix` columns from column `10 + 4k` on |
| Export.RowCells | make_DigitalCommons_spreadsheet.py:180-203 | a row has a cell per header column, with the ID second |
| Export.CsvRow | make_DigitalCommons_spreadsheet.py:180-203 | a row fails exactly when the date or the document type fails; the date's failure is reported first, otherwise `KeyError` of the record type; a row has 23 cells with the ID second |
| Export.CsvRowColumns | make_DigitalCommons_spreadsheet.py:180-203 | each cell stands under its own column name: title, ID, URL, ISBN, price, date, season, code, publisher, book date, abstract |
| Export.CsvRowAuthors | make_DigitalCommons_spreadsheet.py:170-201 | the author columns hold the parsed picked authors, and empty cells beyond them |
| Export.CollectRows | make_DigitalCommons_spreadsheet.py:169-203 | either every item's row in order, or the failure of the first failing item |
| Export.RowsFollowKeys | make_DigitalCommons_spreadsheet.py:169 | rows carrying the keys of key-sorted items are in ascending ID order |
| Export.TableInKeyOrder | make_DigitalCommons_spreadsheet.py:169 | the header and the rows of the sorted records are in ascending ID order |
| Export.SortedTable | make_DigitalCommons_spreadsheet.py:169-203 | the header, then the rows in key order; fails exactly when some item fails, with the first failure in key order |
| Export.MakeCsvData | make_DigitalCommons_spreadsheet.py:143-204 | the header, then one row per record in ascending ID order; succeeds exactly when every record's row does, otherwise reports the first failing record in ID order |

## Left out

- Reading and writing files (`parse_csvs`, `csv_to_namedtuple`, `csv_to_dict`, `csv_writer`, `write_pdf`): I/O. Records are an in-memory sequence and documents are values.
- The duplicate-ID `print` and `exit` in the loaders: a side effect of loading. The model assumes nothing about duplicates. `Sorting.SortBy` orders records that share an ID stably, where the script would have stopped.
- ReportLab rendering and the style sheet `styles_CWBR.py`: there is no behaviour to verify. Blocks are a datatype carrying a style name and text.
- Spacer heights are integer hundredths of an inch rather than float multiples of `inch`.
- `parse_name` (`nameparser.HumanName`) is a foreign library. It is the function parameter `parseName` returning a four-part `Name`.
- `os.path.isfile` in `do_normal_pdfs` is a filesystem query. It is the predicate parameter `built` on record IDs.
- `lower`, `upper`, `capitalize`, `capwords` and `isspace` act on ASCII only; Unicode case mapping is not modelled.
- Python dict iteration order is insertion order, that is, the order of the input sequence. The digests keep it among records with equal titles, because the title sort is stable; the sorted date and ID lists do not depend on it.
- `print` of progress messages: output only.
- PyStr.Replace: its contract states the length and identity properties; the full left-to-right semantics are its definition, related to `split` and `join` by PyStr.ReplaceIsJoinOfSplit.
- Layout.CitationText: its contract states the head of the citation, up to and including the italic book title; the later pieces are stated by Layout.CitationPublisherPiece, Layout.CitationPubDatePiece and Layout.CitationEnding.
- Export.FormatTitlePart: its contract states the quote removal and the length bound, not the exact capitalisation of each word, which only the definition gives.
- Export.MakeParagraphsText: its contract states the absence of `<p>` and the empty case; the paragraphs are recovered by Export.AbstractRoundTrip only when no paragraph holds a newline followed by a tab.
- Export.ExportTitle: its contract gives the exact string only for Editorial and Interview; for other types the title is the definition over Export.ExportTitleLines.

## How the scripts differ from each other

The model follows the code. These differences between the two scripts are
stated as lemmas:

- The layout skips records whose type lower-cases to `annotation`, while the grouping also strips blanks. A record typed `Annotation ` therefore gets both a digest entry and a normal document (Layout.PaddedAnnotationTakesBothPaths).
- The export falls back to the `Title` field when both headlines are empty, the layout does not (Export.TitleFallbackOnlyInExport).
- Only the export deletes `</p>` from the body text (Export.AbstractMatchesLayoutBody).
- In `format_title_parts` the replacement of `'S ` by `'s ` cannot fire, since `capwords` has already lower-cased every letter after the first of each word (Export.ApostropheReplaceIsDead).

Other behaviours are kept exactly as written:
- only lower-case `<br>` and `</br>` become paragraph breaks in the body. An upper-case `<BR>` stays inside its paragraph (Layout.UpperCaseBreakKept), although the same script's `strip_paragraphs_breaks` (make_CWBR_pdfs.py:202-205) does list `<BR>` among the break tags it removes;
- the one-author citation prefix has no period;
- the publisher and publication date are not break-stripped in the citation;
- the citation always names `Auth_1..Auth_3`, even for reviewed records;
- an Interview keeps the citation spacer though it has no citation;
- the existence check looks in `good_pdfs/` while documents are written to `output/`.
