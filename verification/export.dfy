/** The export path (make_DigitalCommons_spreadsheet.py): each record becomes
    one 23-column row of the Digital Commons upload sheet, after a header row,
    in ascending ID order. Name parsing is a parameter. */
module Export {
  import opened Wrappers
  import opened PyStr
  import opened Sorting
  import opened Records
  import Layout

  /** The exceptions the row assembly can raise: a dictionary lookup of an
      unknown key, and a tuple unpack that gets the wrong number of values. */
  datatype Error = KeyError(key: string) | UnpackError(values: nat)

  // ---------------------------------------------------------------------
  // make_paragraphs_text

  const AbstractSeparator: string := "\n\t"

  /** The abstract's paragraphs: the body with lower-case line breaks made
      paragraph breaks and every `</p>` deleted, split on `<p>`, empty pieces
      dropped. */
  function AbstractParagraphs(review: string): (r: seq<string>)
    ensures forall k :: 0 <= k < |r| ==> r[k] != "" && !Contains(r[k], "<p>")
    ensures Concat(r) == Replace(Replace(BreaksToParagraphs(review), "</p>", ""), "<p>", "")
    ensures review == "" ==> r == []
  {
    Parts(Replace(BreaksToParagraphs(review), "</p>", ""), "<p>")
  }

  /** `make_paragraphs_text`: the paragraphs joined by a newline and a tab. The
      result holds no `<p>` and is empty for an empty body. */
  function MakeParagraphsText(review: string): (r: string)
    ensures !Contains(r, "<p>")
    ensures review == "" ==> r == ""
  {
    var paragraphs := AbstractParagraphs(review);
    JoinAvoids(paragraphs, AbstractSeparator, "<p>");
    Join(paragraphs, AbstractSeparator)
  }

  lemma SeparatorUnbordered()
    ensures Unbordered(AbstractSeparator)
  {
    var sep := AbstractSeparator;
    forall m | 0 < m < |sep|
      ensures sep[m..] != sep[..|sep| - m]
    {
      assert sep[m..][0] == '\t' && sep[..|sep| - m][0] == '\n';
    }
  }

  /** Splitting the abstract on the separator recovers its paragraphs, as long
      as no paragraph itself holds a newline followed by a tab. */
  lemma AbstractRoundTrip(review: string)
    requires forall k :: 0 <= k < |AbstractParagraphs(review)| ==>
               !Contains(AbstractParagraphs(review)[k], AbstractSeparator)
    ensures Parts(MakeParagraphsText(review), AbstractSeparator) == AbstractParagraphs(review)
  {
    SeparatorUnbordered();
    PartsOfJoin(AbstractParagraphs(review), AbstractSeparator);
  }

  /** The two scripts cut a body into the same paragraphs unless it holds a
      closing paragraph tag, which only the export deletes. */
  lemma AbstractMatchesLayoutBody(review: string)
    requires !Contains(BreaksToParagraphs(review), "</p>")
    ensures AbstractParagraphs(review) == Layout.BodyParagraphs(review)
  {
  }

  /** Where the abstract is cut: text made of plain pieces separated by `<p>`
      or `<br>` gives exactly its non-empty pieces, in order. */
  lemma AbstractParagraphsOfTagged(pieces: seq<string>, tags: seq<string>)
    requires PlainTagged(pieces, tags)
    ensures AbstractParagraphs(Tagged(pieces, tags)) == NonEmpty(pieces)
  {
    BreaksOfTagged(pieces, tags);
    PlainJoinHasNoClose(pieces);
    ParagraphTagUnbordered();
    forall k | 0 <= k < |pieces|
      ensures !Contains(pieces[k], "<p>")
    {
      NoOpener(pieces[k], "<p>");
    }
    PartsOfJoin(pieces, "<p>");
  }

  // ---------------------------------------------------------------------
  // make_announcement_block

  /** `make_announcement_block` of the export script: "Feature Essay" for
      Classics, the type verbatim for Interview, Editorial and Review, all
      compared in lower case, and `None` for any other type. */
  function ExportAnnouncement(recordType: string): (r: Option<string>)
    ensures r.Some? <==> Lower(recordType) in {"classics", "interview", "editorial", "review"}
    ensures Lower(recordType) == "classics" ==> r == Some("Feature Essay")
    ensures Lower(recordType) in {"interview", "editorial", "review"} ==> r == Some(recordType)
  {
    if Lower(recordType) == "classics" then Some("Feature Essay")
    else if Lower(recordType) in ["interview", "editorial", "review"] then Some(recordType)
    else None
  }

  /** Both scripts announce the same records with the same text. */
  lemma AnnouncementAgrees(rec: Record)
    ensures ExportAnnouncement(rec.recordType).None? <==> Layout.AnnouncementBlock(rec) == []
    ensures ExportAnnouncement(rec.recordType).Some? ==>
              Layout.AnnouncementBlock(rec) == [Layout.Para(Layout.Announcement, ExportAnnouncement(rec.recordType).value)]
  {
  }

  // ---------------------------------------------------------------------
  // format_title_parts

  const RightSingleQuote: char := '\U{2019}'
  const LeftDoubleQuote: char := '\U{201C}'

  /** `format_title_parts`: `capwords` on spaces, leading whitespace removed,
      `'S ` made `'s `, typographic apostrophes and opening double quotes made
      plain, paragraph tags deleted. The result holds neither typographic
      character and is never longer than the input. */
  function FormatTitlePart(segment: string): (r: string)
    ensures RightSingleQuote !in r && LeftDoubleQuote !in r
    ensures |r| <= |segment|
  {
    CapWordsOnlyChangesCase(segment);
    var cased := LStrip(CapWords(segment));
    var s1 := Replace(cased, "'S ", "'s ");
    var s2 := Replace(s1, [RightSingleQuote], "'");
    var s3 := Replace(s2, [LeftDoubleQuote], "\"");
    var s4 := Replace(s3, "</p>", "");
    ReplaceCharRemoves(s1, RightSingleQuote, "'");
    ReplaceKeepsOut(s2, [LeftDoubleQuote], "\"", RightSingleQuote);
    ReplaceCharRemoves(s2, LeftDoubleQuote, "\"");
    ReplaceKeepsOut(s3, "</p>", "", RightSingleQuote);
    ReplaceKeepsOut(s3, "</p>", "", LeftDoubleQuote);
    ReplaceKeepsOut(s4, "<p>", "", RightSingleQuote);
    ReplaceKeepsOut(s4, "<p>", "", LeftDoubleQuote);
    Replace(s4, "<p>", "")
  }

  /** Every ASCII capital letter stands at the start of the text or right
      after a space. */
  ghost predicate CapitalsStartWords(t: string) {
    forall i :: 0 < i < |t| && 'A' <= t[i] <= 'Z' ==> t[i - 1] == ' '
  }

  lemma CapitalizeStartsWord(w: string)
    ensures CapitalsStartWords(Capitalize(w))
  {
    forall i | 0 < i < |w|
      ensures !('A' <= Capitalize(w)[i] <= 'Z')
    {
      assert Capitalize(w)[i] == Lower(w[1..])[i - 1];
    }
  }

  lemma {:induction false} JoinCapitalsStartWords(parts: seq<string>)
    requires forall k :: 0 <= k < |parts| ==> CapitalsStartWords(parts[k])
    ensures CapitalsStartWords(Join(parts, " "))
    decreases |parts|
  {
    if |parts| > 1 {
      var head := parts[0];
      var tail := Join(parts[1..], " ");
      JoinCapitalsStartWords(parts[1..]);
      var t := head + " " + tail;
      assert Join(parts, " ") == t;
      forall i | 0 < i < |t| && 'A' <= t[i] <= 'Z'
        ensures t[i - 1] == ' '
      {
        if i < |head| {
          assert t[i] == head[i] && t[i - 1] == head[i - 1];
        } else if i > |head| + 1 {
          assert t[i] == tail[i - |head| - 1] && t[i - 1] == tail[i - |head| - 2];
        }
      }
    }
  }

  /** After `capwords`, a capital letter always begins a word. */
  lemma CapWordsCapitalsStartWords(s: string)
    ensures CapitalsStartWords(LStrip(CapWords(s)))
  {
    var words := CapitalizeAll(Split(s, " "));
    forall k | 0 <= k < |words|
      ensures CapitalsStartWords(words[k])
    {
      CapitalizeStartsWord(Split(s, " ")[k]);
    }
    JoinCapitalsStartWords(words);
    var t := CapWords(s);
    var u := LStrip(t);
    forall i | 0 < i < |u| && 'A' <= u[i] <= 'Z'
      ensures u[i - 1] == ' '
    {
      assert u[i] == t[|t| - |u| + i] && u[i - 1] == t[|t| - |u| + i - 1];
    }
  }

  /** Where capitals begin words, no apostrophe is followed by a capital S. */
  lemma NoCapitalAfterApostrophe(t: string)
    requires CapitalsStartWords(t)
    ensures !Contains(t, "'S ")
  {
    forall j
      ensures !OccursAt(t, "'S ", j)
    {
      if 0 <= j && j + 3 <= |t| {
        assert t[j..j + 3][0] == t[j] && t[j..j + 3][1] == t[j + 1];
        if t[j + 1] == 'S' {
          assert t[j] == ' ';
        }
      }
    }
  }

  /** The `'S ` to `'s ` replacement of `format_title_parts` never fires: after
      `capwords` a capital S cannot follow an apostrophe. */
  lemma ApostropheReplaceIsDead(segment: string)
    ensures Replace(LStrip(CapWords(segment)), "'S ", "'s ") == LStrip(CapWords(segment))
  {
    CapWordsCapitalsStartWords(segment);
    NoCapitalAfterApostrophe(LStrip(CapWords(segment)));
  }

  // ---------------------------------------------------------------------
  // Titles

  function FormatAll(parts: seq<string>): (r: seq<string>)
    ensures |r| == |parts|
    ensures forall k :: 0 <= k < |parts| ==> r[k] == FormatTitlePart(parts[k])
  {
    seq(|parts|, k requires 0 <= k < |parts| => FormatTitlePart(parts[k]))
  }

  /** `''.join([format_title_parts(p) for p in parts if p])`. */
  function TitleString(parts: seq<string>): (r: string)
    ensures RightSingleQuote !in r && LeftDoubleQuote !in r
  {
    var formatted := FormatAll(NonEmpty(parts));
    ConcatAvoids(formatted, RightSingleQuote);
    ConcatAvoids(formatted, LeftDoubleQuote);
    Concat(formatted)
  }

  /** The two parts of the title joined by `": "` when both are non-empty,
      otherwise concatenated: the same as `': '.join` over the non-empty ones. */
  function MakeTitleString(titleParts: seq<string>, subtitleParts: seq<string>): (r: string)
    ensures RightSingleQuote !in r && LeftDoubleQuote !in r
    ensures r == Join(NonEmpty([TitleString(titleParts), TitleString(subtitleParts)]), ": ")
  {
    var t := TitleString(titleParts);
    var s := TitleString(subtitleParts);
    JoinNonEmptyPair(t, s, ": ");
    if t != "" && s != "" then t + ": " + s else t + s
  }

  lemma JoinNonEmptyPair(t: string, s: string, sep: string)
    ensures Join(NonEmpty([t, s]), sep) == if t != "" && s != "" then t + sep + s else t + s
  {
    var both := [t, s];
    assert both[1..] == [s] && both[1..][1..] == [];
    assert t + "" == t && "" + s == s;
  }

  /** `pull_title_from_Title`: the `Title` parts, and no subtitle parts. The
      parts, put back together, are the cleaned title without its `<p>` tags. */
  function PullTitleFromTitle(title: string): (r: (seq<string>, seq<string>))
    ensures r.1 == []
    ensures forall k :: 0 <= k < |r.0| ==> r.0[k] != "" && !Contains(r.0[k], "<p>")
    ensures var cleaned := Replace(Replace(StripBoldsBreaks(title), "EDITORIAL:", ""), "INTERVIEW:", "");
            Concat(r.0) == Replace(cleaned, "<p>", "")
  {
    (TitleFieldParts(title), [])
  }

  /** `pull_title_from_Headline`: the `Headline` and `Sub_headline` parts.
      Each side, put back together, is its field without `<p>` tags. */
  function PullTitleFromHeadline(headline: string, subHeadline: string): (r: (seq<string>, seq<string>))
    ensures forall k :: 0 <= k < |r.0| ==> r.0[k] != "" && !Contains(r.0[k], "<p>")
    ensures forall k :: 0 <= k < |r.1| ==> r.1[k] != "" && !Contains(r.1[k], "<p>")
    ensures Concat(r.0) == Replace(headline, "<p>", "")
    ensures Concat(r.1) == Replace(subHeadline, "<p>", "")
  {
    (HeadlineParts(headline), HeadlineParts(subHeadline))
  }

  /** `find_title_lines` of the export script: Editorial and Interview records
      (exact spelling) take the `Title` field; other records take the
      headlines, and fall back to the `Title` field when both headlines are
      empty. Every part is non-empty and free of `<p>`. */
  function ExportTitleLines(rec: Record): (r: (seq<string>, seq<string>))
    ensures forall k :: 0 <= k < |r.0| ==> r.0[k] != "" && !Contains(r.0[k], "<p>")
    ensures forall k :: 0 <= k < |r.1| ==> r.1[k] != "" && !Contains(r.1[k], "<p>")
    ensures IsEditorialOrInterview(rec.recordType) ==> r == (TitleFieldParts(rec.title), [])
    ensures !IsEditorialOrInterview(rec.recordType) && (HeadlineParts(rec.headline) != [] || HeadlineParts(rec.subHeadline) != []) ==>
              r == (HeadlineParts(rec.headline), HeadlineParts(rec.subHeadline))
    ensures !IsEditorialOrInterview(rec.recordType) && HeadlineParts(rec.headline) == [] && HeadlineParts(rec.subHeadline) == [] ==>
              r == (TitleFieldParts(rec.title), [])
  {
    var first := if !IsEditorialOrInterview(rec.recordType) then PullTitleFromHeadline(rec.headline, rec.subHeadline)
                 else PullTitleFromTitle(rec.title);
    if first.0 == [] && first.1 == [] then PullTitleFromTitle(rec.title) else first
  }

  /** Where the layout has a title, both scripts take it from the same
      source. */
  lemma TitleSourcesAgree(rec: Record)
    requires IsEditorialOrInterview(rec.recordType) || HeadlineParts(rec.headline) != [] || HeadlineParts(rec.subHeadline) != []
    ensures ExportTitleLines(rec).0 == Layout.FindTitleLines(rec).0
    ensures ExportTitleLines(rec).1 == Layout.FindTitleLines(rec).1.GetOr([])
  {
  }

  /** A record with empty headlines has no title lines in its document, but
      the export falls back to its `Title` field. */
  lemma TitleFallbackOnlyInExport(rec: Record)
    requires !IsEditorialOrInterview(rec.recordType)
    requires HeadlineParts(rec.headline) == [] && HeadlineParts(rec.subHeadline) == []
    ensures Layout.FindTitleLines(rec) == ([], Some([]))
    ensures ExportTitleLines(rec) == (TitleFieldParts(rec.title), [])
  {
  }

  /** `make_title_block` of the export script. */
  function ExportTitle(rec: Record): (r: string)
    ensures RightSingleQuote !in r && LeftDoubleQuote !in r
    ensures IsEditorialOrInterview(rec.recordType) ==> r == TitleString(TitleFieldParts(rec.title))
  {
    var lines := ExportTitleLines(rec);
    var r := MakeTitleString(lines.0, lines.1);
    assert IsEditorialOrInterview(rec.recordType) ==> TitleString(lines.1) == "";
    r
  }

  // ---------------------------------------------------------------------
  // reformat_issue_type

  /** The document type for an upload code, the inverse of the table in
      `reformat_issue_type`. */
  function IssueTypeOfCode(code: string): Option<string> {
    if code == "editorial" then Some("Editorial")
    else if code == "feature_essay" then Some("Classics")
    else if code == "author_interview" then Some("Interview")
    else if code == "review" then Some("Review")
    else None
  }

  /** `reformat_issue_type`: the upload code of the four known record types
      (exact spelling); any other type raises `KeyError`. Distinct types get
      distinct codes: the code maps back to the type. */
  function ReformatIssueType(issueType: string): (r: Result<string, Error>)
    ensures r.Success? <==> issueType in {"Editorial", "Classics", "Interview", "Review"}
    ensures r.Failure? ==> r.error == KeyError(issueType)
    ensures r.Success? ==> IssueTypeOfCode(r.value) == Some(issueType)
  {
    if issueType == "Editorial" then Success("editorial")
    else if issueType == "Classics" then Success("feature_essay")
    else if issueType == "Interview" then Success("author_interview")
    else if issueType == "Review" then Success("review")
    else Failure(KeyError(issueType))
  }

  /** Every record with an upload code gets an announcement in both scripts. */
  lemma DocumentTypeIsAnnounced(rec: Record)
    requires ReformatIssueType(rec.recordType).Success?
    ensures ExportAnnouncement(rec.recordType).Some?
    ensures |Layout.AnnouncementBlock(rec)| == 1
  {
    var t := rec.recordType;
    if t == "Editorial" {
      assert Lower(t) == "editorial";
    } else if t == "Classics" {
      assert Lower(t) == "classics";
    } else if t == "Interview" {
      assert Lower(t) == "interview";
    } else {
      assert Lower(t) == "review";
    }
  }

  // ---------------------------------------------------------------------
  // make_publication_date, make_season

  /** The month of each season, the table in `make_publication_date`. */
  function SeasonMonth(season: string): Option<string> {
    if season == "Spring" then Some("03")
    else if season == "Summer" then Some("06")
    else if season == "Fall" then Some("09")
    else if season == "Winter" then Some("12")
    else None
  }

  function MonthSeason(month: string): Option<string> {
    if month == "03" then Some("Spring")
    else if month == "06" then Some("Summer")
    else if month == "09" then Some("Fall")
    else if month == "12" then Some("Winter")
    else None
  }

  /** `make_publication_date`: `"Season Year"` becomes `"Year-MM-01"`. The
      tuple unpack fails unless the date splits on single spaces into exactly
      two tokens, and the lookup fails on an unknown season. */
  function MakePublicationDate(issueDate: string): (r: Result<string, Error>)
    ensures var tokens := Split(issueDate, " ");
            && (|tokens| != 2 ==> r == Failure(UnpackError(|tokens|)))
            && (|tokens| == 2 && SeasonMonth(tokens[0]).None? ==> r == Failure(KeyError(tokens[0])))
            && (r.Success? <==> |tokens| == 2 && SeasonMonth(tokens[0]).Some?)
  {
    var tokens := Split(issueDate, " ");
    if |tokens| != 2 then Failure(UnpackError(|tokens|))
    else
      var season, year := tokens[0], tokens[1];
      match SeasonMonth(season)
      case None => Failure(KeyError(season))
      case Some(month) => Success(year + "-" + month + "-01")
  }

  /** The issue date a publication date was made from. */
  function IssueDateOf(date: string): Option<string> {
    if |date| < 6 then None
    else match MonthSeason(date[|date| - 5..|date| - 3])
      case None => None
      case Some(season) => Some(season + " " + date[..|date| - 6])
  }

  /** Round trip: the publication date determines the issue date it was made
      from. */
  lemma PublicationDateRoundTrip(issueDate: string)
    requires MakePublicationDate(issueDate).Success?
    ensures IssueDateOf(MakePublicationDate(issueDate).value) == Some(issueDate)
  {
    var tokens := Split(issueDate, " ");
    var season, year := tokens[0], tokens[1];
    var month := SeasonMonth(season).value;
    var date := year + "-" + month + "-01";
    assert MakePublicationDate(issueDate).value == date;
    assert date[|date| - 5..|date| - 3] == month;
    assert date[..|date| - 6] == year;
    assert tokens[1..] == [year];
    assert issueDate == season + " " + year;
  }

  /** The other direction: a known season followed by a year without spaces
      gives that year and the season's month. */
  lemma PublicationDateOfSeason(season: string, year: string)
    requires SeasonMonth(season).Some? && ' ' !in year
    ensures MakePublicationDate(season + " " + year) == Success(year + "-" + SeasonMonth(season).value + "-01")
  {
    var parts := [season, year];
    ContainsChar(season, ' ');
    ContainsChar(year, ' ');
    assert parts[1..] == [year];
    assert Join(parts, " ") == season + " " + year;
    SplitOfJoin(parts, " ");
  }

  /** `make_season`: the first space-separated token of the date, a prefix of
      it without spaces that ends at the first space or at the end; the whole
      date when it has no space. */
  function MakeSeason(issueDate: string): (r: string)
    ensures |r| <= |issueDate| && issueDate[..|r|] == r
    ensures ' ' !in r
    ensures |r| < |issueDate| ==> issueDate[|r|] == ' '
    ensures ' ' !in issueDate ==> r == issueDate
  {
    var tokens := Split(issueDate, " ");
    JoinStartsWithFirst(tokens, " ");
    FirstPieceEnds(issueDate, " ");
    ContainsChar(tokens[0], ' ');
    ContainsChar(issueDate, ' ');
    tokens[0]
  }

  /** A record that gets a publication date has one of the four seasons. */
  lemma DatedIssueHasSeason(issueDate: string)
    requires MakePublicationDate(issueDate).Success?
    ensures MakeSeason(issueDate) in {"Spring", "Summer", "Fall", "Winter"}
  {
  }

  // ---------------------------------------------------------------------
  // make_url

  const UrlBase: string := "https://s3-us-west-2.amazonaws.com/cwbr-publicshare/"

  /** The record ID a document URL names. */
  function IdOfUrl(url: string): Option<string> {
    if |url| >= |UrlBase| + 4 && url[..|UrlBase|] == UrlBase && url[|url| - 4..] == ".pdf" then
      Some(url[|UrlBase|..|url| - 4])
    else None
  }

  /** `make_url`: the public share address of the record's document. The URL
      names the ID back, so distinct records get distinct URLs. */
  function MakeUrl(id: string): (r: string)
    ensures IdOfUrl(r) == Some(id)
  {
    var r := UrlBase + id + ".pdf";
    assert r[..|UrlBase|] == UrlBase && r[|r| - 4..] == ".pdf" && r[|UrlBase|..|r| - 4] == id;
    r
  }

  // ---------------------------------------------------------------------
  // The row

  /** The four parts `parse_name` returns. */
  datatype Name = Name(first: string, middle: string, last: string, suffix: string)

  const NoName: Name := Name("", "", "", "")

  /** The three author slots of a row: the parsed authors in order, and empty
      names for the slots beyond them. */
  function AuthorSlots(authors: seq<string>, parseName: string -> Name): (r: seq<Name>)
    requires |authors| <= 3
    ensures |r| == 3
    ensures forall k :: 0 <= k < 3 ==> r[k] == if k < |authors| then parseName(authors[k]) else NoName
  {
    seq(3, k requires 0 <= k < 3 => if k < |authors| then parseName(authors[k]) else NoName)
  }

  function NameColumns(n: Name): seq<string> {
    [n.first, n.middle, n.last, n.suffix]
  }

  const Header: seq<string> := [
    "title", "book_id", "fulltext_url", "isbn", "price", "publication_date", "season",
    "document_type", "publisher", "book_pub_date",
    "author1_fname", "author1_mname", "author1_lname", "author1_suffix",
    "author2_fname", "author2_mname", "author2_lname", "author2_suffix",
    "author3_fname", "author3_mname", "author3_lname", "author3_suffix",
    "abstract"]

  /** The cells of one row, in header order. */
  function RowCells(title: string, id: string, url: string, isbn: string, price: string, date: string,
                    season: string, code: string, publisher: string, pubDate: string,
                    slots: seq<Name>, abstractText: string): (r: seq<string>)
    requires |slots| == 3
    ensures |r| == |Header| && r[1] == id
  {
    [title, id, url, isbn, price, date, season, code, publisher, pubDate]
    + NameColumns(slots[0]) + NameColumns(slots[1]) + NameColumns(slots[2])
    + [abstractText]
  }

  /** One row of `make_csv_data`, or the exception its cells raise. The
      publication date is evaluated before the document type, so a record
      failing both reports the date. */
  function CsvRow(rec: Record, parseName: string -> Name): (r: Result<seq<string>, Error>)
    ensures r.Success? ==> |r.value| == |Header| && r.value[1] == rec.id
    ensures r.Failure? <==> MakePublicationDate(rec.issueDate).Failure? || ReformatIssueType(rec.recordType).Failure?
    ensures MakePublicationDate(rec.issueDate).Failure? ==> r == Failure(MakePublicationDate(rec.issueDate).error)
    ensures MakePublicationDate(rec.issueDate).Success? && ReformatIssueType(rec.recordType).Failure? ==>
              r == Failure(KeyError(rec.recordType))
  {
    var slots := AuthorSlots(PickAuthors(rec), parseName);
    var date :- MakePublicationDate(rec.issueDate);
    var code :- ReformatIssueType(rec.recordType);
    Success(RowCells(ExportTitle(rec), rec.id, MakeUrl(rec.id), rec.isbn, rec.price, date, MakeSeason(rec.issueDate),
                     code, rec.publisher, rec.pubDate, slots, MakeParagraphsText(rec.review)))
  }

  /** The cell of `row` under the column named `name` holds `value`. */
  ghost predicate HasCell(row: seq<string>, name: string, value: string) {
    exists i :: 0 <= i < |Header| && i < |row| && Header[i] == name && row[i] == value
  }

  lemma HeaderDistinct()
    ensures Distinct(Header)
  {
  }

  /** Each cell of a row stands under its own column name. */
  lemma RowCellsUnderHeader(title: string, id: string, url: string, isbn: string, price: string, date: string,
                            season: string, code: string, publisher: string, pubDate: string,
                            slots: seq<Name>, abstractText: string)
    requires |slots| == 3
    ensures var row := RowCells(title, id, url, isbn, price, date, season, code, publisher, pubDate, slots, abstractText);
            && HasCell(row, "title", title) && HasCell(row, "book_id", id) && HasCell(row, "fulltext_url", url)
            && HasCell(row, "isbn", isbn) && HasCell(row, "price", price) && HasCell(row, "publication_date", date)
            && HasCell(row, "season", season) && HasCell(row, "document_type", code)
            && HasCell(row, "publisher", publisher) && HasCell(row, "book_pub_date", pubDate)
            && HasCell(row, "abstract", abstractText)
  {
    var row := RowCells(title, id, url, isbn, price, date, season, code, publisher, pubDate, slots, abstractText);
    assert row[0] == title && row[2] == url && row[3] == isbn && row[4] == price && row[5] == date;
    assert row[6] == season && row[7] == code && row[8] == publisher && row[9] == pubDate && row[22] == abstractText;
  }

  /** The name of the column holding part `part` of author `k + 1`. */
  function AuthorColumn(k: nat, part: string): string
    requires k < 3
  {
    "author" + [['1', '2', '3'][k]] + "_" + part
  }

  /** The three author slots fill the author columns in order. */
  lemma RowAuthorsUnderHeader(title: string, id: string, url: string, isbn: string, price: string, date: string,
                              season: string, code: string, publisher: string, pubDate: string,
                              slots: seq<Name>, abstractText: string, k: nat)
    requires |slots| == 3 && k < 3
    ensures var row := RowCells(title, id, url, isbn, price, date, season, code, publisher, pubDate, slots, abstractText);
            && HasCell(row, AuthorColumn(k, "fname"), slots[k].first)
            && HasCell(row, AuthorColumn(k, "mname"), slots[k].middle)
            && HasCell(row, AuthorColumn(k, "lname"), slots[k].last)
            && HasCell(row, AuthorColumn(k, "suffix"), slots[k].suffix)
  {
    var row := RowCells(title, id, url, isbn, price, date, season, code, publisher, pubDate, slots, abstractText);
    var at := 10 + 4 * k;
    HeaderAuthorColumns(k);
    assert row[at] == slots[k].first && row[at + 1] == slots[k].middle;
    assert row[at + 2] == slots[k].last && row[at + 3] == slots[k].suffix;
  }

  /** The header names the author columns of slot `k` from column `10 + 4k` on. */
  lemma HeaderAuthorColumns(k: nat)
    requires k < 3
    ensures Header[10 + 4 * k] == AuthorColumn(k, "fname") && Header[11 + 4 * k] == AuthorColumn(k, "mname")
    ensures Header[12 + 4 * k] == AuthorColumn(k, "lname") && Header[13 + 4 * k] == AuthorColumn(k, "suffix")
  {
    if k == 0 {
      assert Header[10] == AuthorColumn(0, "fname") && Header[11] == AuthorColumn(0, "mname");
      assert Header[12] == AuthorColumn(0, "lname") && Header[13] == AuthorColumn(0, "suffix");
    } else if k == 1 {
      assert Header[14] == AuthorColumn(1, "fname") && Header[15] == AuthorColumn(1, "mname");
      assert Header[16] == AuthorColumn(1, "lname") && Header[17] == AuthorColumn(1, "suffix");
    } else {
      assert Header[18] == AuthorColumn(2, "fname") && Header[19] == AuthorColumn(2, "mname");
      assert Header[20] == AuthorColumn(2, "lname") && Header[21] == AuthorColumn(2, "suffix");
    }
  }

  /** A record's row holds, under each column name, the value made for that
      column: the title, ID, URL, ISBN, price, publication date, season,
      document type, publisher, book date and abstract. */
  lemma CsvRowColumns(rec: Record, parseName: string -> Name)
    requires CsvRow(rec, parseName).Success?
    ensures var row := CsvRow(rec, parseName).value;
            && HasCell(row, "title", ExportTitle(rec)) && HasCell(row, "book_id", rec.id)
            && HasCell(row, "fulltext_url", MakeUrl(rec.id))
            && HasCell(row, "isbn", rec.isbn) && HasCell(row, "price", rec.price)
            && HasCell(row, "publication_date", MakePublicationDate(rec.issueDate).value)
            && HasCell(row, "season", MakeSeason(rec.issueDate))
            && HasCell(row, "document_type", ReformatIssueType(rec.recordType).value)
            && HasCell(row, "publisher", rec.publisher) && HasCell(row, "book_pub_date", rec.pubDate)
            && HasCell(row, "abstract", MakeParagraphsText(rec.review))
  {
    RowCellsUnderHeader(ExportTitle(rec), rec.id, MakeUrl(rec.id), rec.isbn, rec.price,
                        MakePublicationDate(rec.issueDate).value, MakeSeason(rec.issueDate),
                        ReformatIssueType(rec.recordType).value, rec.publisher, rec.pubDate,
                        AuthorSlots(PickAuthors(rec), parseName), MakeParagraphsText(rec.review));
  }

  /** A record's row holds the parsed names of its picked authors in the
      author columns, and empty cells for the slots beyond them. */
  lemma CsvRowAuthors(rec: Record, parseName: string -> Name, k: nat)
    requires CsvRow(rec, parseName).Success? && k < 3
    ensures var row := CsvRow(rec, parseName).value;
            var authors := PickAuthors(rec);
            var name := if k < |authors| then parseName(authors[k]) else NoName;
            && HasCell(row, AuthorColumn(k, "fname"), name.first)
            && HasCell(row, AuthorColumn(k, "mname"), name.middle)
            && HasCell(row, AuthorColumn(k, "lname"), name.last)
            && HasCell(row, AuthorColumn(k, "suffix"), name.suffix)
  {
    RowAuthorsUnderHeader(ExportTitle(rec), rec.id, MakeUrl(rec.id), rec.isbn, rec.price,
                          MakePublicationDate(rec.issueDate).value, MakeSeason(rec.issueDate),
                          ReformatIssueType(rec.recordType).value, rec.publisher, rec.pubDate,
                          AuthorSlots(PickAuthors(rec), parseName), MakeParagraphsText(rec.review), k);
  }

  // ---------------------------------------------------------------------
  // make_csv_data

  function IdKey(rec: Record): string {
    rec.id
  }

  lemma SameElement<T>(xs: seq<T>, ys: seq<T>, x: T)
    requires multiset(xs) == multiset(ys)
    ensures x in xs <==> x in ys
  {
    assert x in xs <==> x in multiset(xs);
    assert x in ys <==> x in multiset(ys);
  }

  /** Evaluates `row` on each item in order, stopping at the first failure:
      either every item's row, in order, or the failure of the first item
      whose row fails. */
  method CollectRows<T>(items: seq<T>, row: T -> Result<seq<string>, Error>) returns (r: Result<seq<seq<string>>, Error>)
    ensures r.Success? ==> |r.value| == |items| && forall k :: 0 <= k < |items| ==> row(items[k]) == Success(r.value[k])
    ensures r.Failure? ==> exists k :: 0 <= k < |items| && row(items[k]) == Failure(r.error)
                                       && forall j :: 0 <= j < k ==> row(items[j]).Success?
  {
    var rows := [];
    var i := 0;
    while i < |items|
      invariant 0 <= i <= |items| && |rows| == i
      invariant forall k :: 0 <= k < i ==> row(items[k]) == Success(rows[k])
    {
      var next := row(items[i]);
      if next.Failure? {
        return Failure(next.error);
      }
      rows := rows + [next.value];
      i := i + 1;
    }
    return Success(rows);
  }

  /** The rows after the header stand in ascending order of their `book_id`
      cells. */
  ghost predicate InIdOrder(rows: seq<seq<string>>) {
    && (forall i :: 1 <= i < |rows| ==> 1 < |rows[i]|)
    && (forall i, j :: 1 <= i < j < |rows| ==> StrLe(rows[i][1], rows[j][1]))
  }

  /** Rows for items sorted by key, each row carrying its item's key in its
      second cell, are in ascending order of that cell. */
  lemma RowsFollowKeys<T>(items: seq<T>, key: T -> string, rows: seq<seq<string>>)
    requires SortedBy(items, key) && |rows| == |items| + 1
    requires forall k :: 0 <= k < |items| ==> 1 < |rows[k + 1]| && rows[k + 1][1] == key(items[k])
    ensures InIdOrder(rows)
  {
    forall i | 1 <= i < |rows|
      ensures 1 < |rows[i]| && rows[i][1] == key(items[i - 1])
    {
      assert rows[i] == rows[i - 1 + 1];
    }
  }

  /** A permutation of `items` has a failing row only where `items` has one. */
  lemma FailureIsAnItem<T>(sorted: seq<T>, items: seq<T>, row: T -> Result<seq<string>, Error>, k: int)
    requires multiset(sorted) == multiset(items) && 0 <= k < |sorted| && row(sorted[k]).Failure?
    ensures exists m :: 0 <= m < |items| && row(items[m]).Failure?
  {
    SameElement(sorted, items, sorted[k]);
    var m :| 0 <= m < |items| && items[m] == sorted[k];
    assert row(items[m]).Failure?;
  }

  /** When every row of a permutation of `items` succeeds, so does every row
      of `items`. */
  lemma SuccessCoversItems<T>(sorted: seq<T>, items: seq<T>, row: T -> Result<seq<string>, Error>)
    requires multiset(sorted) == multiset(items)
    requires forall k :: 0 <= k < |sorted| ==> row(sorted[k]).Success?
    ensures forall k :: 0 <= k < |items| ==> row(items[k]).Success?
  {
    forall k | 0 <= k < |items|
      ensures row(items[k]).Success?
    {
      SameElement(sorted, items, items[k]);
    }
  }

  /** The header followed by the rows of items sorted by key is in key
      order, when every successful row carries its item's key second. */
  lemma TableInKeyOrder<T>(header: seq<string>, sorted: seq<T>, key: T -> string,
                           row: T -> Result<seq<string>, Error>, values: seq<seq<string>>)
    requires SortedBy(sorted, key) && |values| == |sorted|
    requires forall x :: row(x).Success? ==> 1 < |row(x).value| && row(x).value[1] == key(x)
    requires forall k :: 0 <= k < |sorted| ==> row(sorted[k]) == Success(values[k])
    ensures InIdOrder([header] + values)
  {
    var rows := [header] + values;
    forall k | 0 <= k < |sorted|
      ensures 1 < |rows[k + 1]| && rows[k + 1][1] == key(sorted[k])
    {
      var x := sorted[k];
      assert row(x) == Success(values[k]);
      assert rows[k + 1] == values[k];
    }
    RowsFollowKeys(sorted, key, rows);
  }

  /** A header, then the rows of `items` taken in ascending key order; or
      the failure of the first item, in that order, whose row fails. It
      fails exactly when some item's row fails. */
  method SortedTable<T(==)>(header: seq<string>, items: seq<T>, key: T -> string, row: T -> Result<seq<string>, Error>)
    returns (r: Result<seq<seq<string>>, Error>)
    ensures r.Success? <==> forall k :: 0 <= k < |items| ==> row(items[k]).Success?
    ensures r.Success? ==> |r.value| == |items| + 1 && r.value[0] == header
    ensures r.Success? ==> forall k :: 0 <= k < |items| ==> row(SortBy(items, key)[k]) == Success(r.value[k + 1])
    ensures r.Failure? ==> exists k :: 0 <= k < |items| && row(SortBy(items, key)[k]) == Failure(r.error)
                                       && forall j :: 0 <= j < k ==> row(SortBy(items, key)[j]).Success?
  {
    var sorted := SortBy(items, key);
    var body := CollectRows(sorted, row);
    if body.Failure? {
      var k :| 0 <= k < |sorted| && row(sorted[k]) == Failure(body.error)
               && forall j :: 0 <= j < k ==> row(sorted[j]).Success?;
      FailureIsAnItem(sorted, items, row, k);
      return Failure(body.error);
    }
    SuccessCoversItems(sorted, items, row);
    return Success([header] + body.value);
  }

  /** `make_csv_data`: the header, then one row per record in ascending ID
      order. It succeeds exactly when every record's row does; otherwise it
      raises the exception of the first failing record in ID order and writes
      nothing. */
  method MakeCsvData(records: seq<Record>, parseName: string -> Name) returns (r: Result<seq<seq<string>>, Error>)
    ensures r.Success? <==> forall k :: 0 <= k < |records| ==> CsvRow(records[k], parseName).Success?
    ensures r.Success? ==> |r.value| == |records| + 1 && r.value[0] == Header
    ensures r.Success? ==> InIdOrder(r.value)
    ensures r.Success? ==> forall k :: 0 <= k < |records| ==>
              CsvRow(SortBy(records, IdKey)[k], parseName) == Success(r.value[k + 1])
    ensures r.Failure? ==> exists k :: 0 <= k < |records| && CsvRow(SortBy(records, IdKey)[k], parseName) == Failure(r.error)
                                       && forall j :: 0 <= j < k ==> CsvRow(SortBy(records, IdKey)[j], parseName).Success?
  {
    var row := rec => CsvRow(rec, parseName);
    r := SortedTable(Header, records, IdKey, row);
    if r.Success? {
      assert |Header| == 23;
      assert r.value == [Header] + r.value[1..];
      TableInKeyOrder(Header, SortBy(records, IdKey), IdKey, row, r.value[1..]);
    }
  }
}
