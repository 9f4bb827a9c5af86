/** The layout path (make_CWBR_pdfs.py): each record becomes an ordered list
    of layout blocks, and the script decides which documents to build. */
module Layout {
  import opened Wrappers
  import opened PyStr
  import opened Sorting
  import opened Records

  /** The paragraph styles of the style sheet the script refers to. */
  datatype Style = Announcement | TitleBig | SubTitleBig | AuthorBig | Citation | Justify

  /** A layout block: a styled paragraph, or a vertical spacer whose height is
      in hundredths of an inch (`Spacer(1, 0.2 * inch)` is `Spacer(20)`). */
  datatype Block = Para(style: Style, text: string) | Spacer(height: nat)

  /** One document handed to the renderer, under a file name. */
  datatype Document = Document(name: string, blocks: seq<Block>)

  // ---------------------------------------------------------------------
  // Counting blocks

  function CountStyle(bs: seq<Block>, st: Style): nat {
    if bs == [] then 0
    else (if bs[0].Para? && bs[0].style == st then 1 else 0) + CountStyle(bs[1..], st)
  }

  function CountSpacers(bs: seq<Block>, height: nat): nat {
    if bs == [] then 0
    else (if bs[0] == Spacer(height) then 1 else 0) + CountSpacers(bs[1..], height)
  }

  lemma {:induction false} CountStyleAppend(a: seq<Block>, b: seq<Block>, st: Style)
    ensures CountStyle(a + b, st) == CountStyle(a, st) + CountStyle(b, st)
    decreases |a|
  {
    if a == [] {
      assert a + b == b;
    } else {
      assert (a + b)[0] == a[0];
      assert (a + b)[1..] == a[1..] + b;
      CountStyleAppend(a[1..], b, st);
    }
  }

  lemma {:induction false} CountSpacersAppend(a: seq<Block>, b: seq<Block>, h: nat)
    ensures CountSpacers(a + b, h) == CountSpacers(a, h) + CountSpacers(b, h)
    decreases |a|
  {
    if a == [] {
      assert a + b == b;
    } else {
      assert (a + b)[0] == a[0];
      assert (a + b)[1..] == a[1..] + b;
      CountSpacersAppend(a[1..], b, h);
    }
  }

  lemma CountAppend(a: seq<Block>, b: seq<Block>)
    ensures forall st :: CountStyle(a + b, st) == CountStyle(a, st) + CountStyle(b, st)
    ensures forall h :: CountSpacers(a + b, h) == CountSpacers(a, h) + CountSpacers(b, h)
  {
    forall st
      ensures CountStyle(a + b, st) == CountStyle(a, st) + CountStyle(b, st)
    {
      CountStyleAppend(a, b, st);
    }
    forall h: nat
      ensures CountSpacers(a + b, h) == CountSpacers(a, h) + CountSpacers(b, h)
    {
      CountSpacersAppend(a, b, h);
    }
  }

  lemma CountSingle(b: Block, st: Style, h: nat)
    ensures CountStyle([b], st) == if b.Para? && b.style == st then 1 else 0
    ensures CountSpacers([b], h) == if b == Spacer(h) then 1 else 0
  {
    assert [b][1..] == [];
  }

  lemma Count3(a: seq<Block>, b: seq<Block>, c: seq<Block>, st: Style, h: nat)
    ensures CountStyle(a + b + c, st) == CountStyle(a, st) + CountStyle(b, st) + CountStyle(c, st)
    ensures CountSpacers(a + b + c, h) == CountSpacers(a, h) + CountSpacers(b, h) + CountSpacers(c, h)
  {
    CountStyleAppend(a, b, st);
    CountStyleAppend(a + b, c, st);
    CountSpacersAppend(a, b, h);
    CountSpacersAppend(a + b, c, h);
  }

  /** One paragraph of style `st` per text, in order. */
  function Paras(st: Style, texts: seq<string>): (r: seq<Block>)
    ensures |r| == |texts|
    ensures forall k :: 0 <= k < |texts| ==> r[k] == Para(st, texts[k])
  {
    if texts == [] then [] else [Para(st, texts[0])] + Paras(st, texts[1..])
  }

  lemma {:induction false} ParasCount(st: Style, texts: seq<string>)
    ensures forall s :: CountStyle(Paras(st, texts), s) == if s == st then |texts| else 0
    ensures forall h :: CountSpacers(Paras(st, texts), h) == 0
    decreases |texts|
  {
    if texts != [] {
      ParasCount(st, texts[1..]);
      assert Paras(st, texts)[1..] == Paras(st, texts[1..]);
    }
  }

  // ---------------------------------------------------------------------
  // make_announcement_block

  /** `make_announcement_block`: a "Feature Essay" banner for Classics and the
      record type itself for Interview, Editorial and Review, all compared in
      lower case; nothing for any other type. */
  function AnnouncementBlock(rec: Record): (r: seq<Block>)
    ensures |r| <= 1
    ensures r != [] <==> Lower(rec.recordType) in {"classics", "interview", "editorial", "review"}
    ensures Lower(rec.recordType) == "classics" ==> r == [Para(Announcement, "Feature Essay")]
    ensures Lower(rec.recordType) in {"interview", "editorial", "review"} ==>
              r == [Para(Announcement, rec.recordType)]
  {
    var recordType := rec.recordType;
    if Lower(recordType) == "classics" then [Para(Announcement, "Feature Essay")]
    else if Lower(recordType) in ["interview", "editorial", "review"] then [Para(Announcement, recordType)]
    else []
  }

  // ---------------------------------------------------------------------
  // Titles

  /** `find_title_lines` of the layout script: Editorial and Interview records
      take their title from `Title` and have no subtitle (`None`); every other
      record takes `Headline` and `Sub_headline`. Every part is non-empty and
      free of `<p>`. */
  function FindTitleLines(rec: Record): (r: (seq<string>, Option<seq<string>>))
    ensures IsEditorialOrInterview(rec.recordType) <==> r.1 == None
    ensures IsEditorialOrInterview(rec.recordType) ==> r.0 == TitleFieldParts(rec.title)
    ensures !IsEditorialOrInterview(rec.recordType) ==>
              r.0 == HeadlineParts(rec.headline) && r.1 == Some(HeadlineParts(rec.subHeadline))
    ensures forall k :: 0 <= k < |r.0| ==> r.0[k] != "" && !Contains(r.0[k], "<p>")
    ensures r.1.Some? ==> forall k :: 0 <= k < |r.1.value| ==> r.1.value[k] != "" && !Contains(r.1.value[k], "<p>")
  {
    if IsEditorialOrInterview(rec.recordType) then
      (TitleFieldParts(rec.title), None)
    else
      (HeadlineParts(rec.headline), Some(HeadlineParts(rec.subHeadline)))
  }

  function UpperAll(texts: seq<string>): (r: seq<string>)
    ensures |r| == |texts|
    ensures forall k :: 0 <= k < |texts| ==> r[k] == Upper(texts[k])
  {
    seq(|texts|, k requires 0 <= k < |texts| => Upper(texts[k]))
  }

  /** Each title part in upper case as a big title, then each subtitle part
      as a subtitle, and nothing else. */
  function TitleLines(titles: seq<string>, subtitles: seq<string>): (r: seq<Block>)
    ensures |r| == |titles| + |subtitles|
    ensures forall k :: 0 <= k < |titles| ==> r[k] == Para(TitleBig, Upper(titles[k]))
    ensures forall k :: 0 <= k < |subtitles| ==> r[|titles| + k] == Para(SubTitleBig, subtitles[k])
    ensures forall st :: CountStyle(r, st) ==
              if st == TitleBig then |titles| else if st == SubTitleBig then |subtitles| else 0
    ensures forall h :: CountSpacers(r, h) == 0
  {
    var a := Paras(TitleBig, UpperAll(titles));
    var b := Paras(SubTitleBig, subtitles);
    ParasCount(TitleBig, UpperAll(titles));
    ParasCount(SubTitleBig, subtitles);
    CountAppend(a, b);
    a + b
  }

  /** `make_title_block`: the title lines of `find_title_lines`, a missing
      subtitle list giving no subtitle. Editorials and Interviews show the
      parts of their `Title` in upper case; every other record shows the
      parts of its `Headline` in upper case, then those of its
      `Sub_headline` as they are. */
  function TitleBlock(rec: Record): (r: seq<Block>)
    ensures IsEditorialOrInterview(rec.recordType) ==>
              var t := TitleFieldParts(rec.title);
              |r| == |t| && forall k :: 0 <= k < |t| ==> r[k] == Para(TitleBig, Upper(t[k]))
    ensures !IsEditorialOrInterview(rec.recordType) ==>
              var t, sub := HeadlineParts(rec.headline), HeadlineParts(rec.subHeadline);
              && |r| == |t| + |sub|
              && (forall k :: 0 <= k < |t| ==> r[k] == Para(TitleBig, Upper(t[k])))
              && (forall k :: 0 <= k < |sub| ==> r[|t| + k] == Para(SubTitleBig, sub[k]))
  {
    var lines := FindTitleLines(rec);
    var t, sub := lines.0, lines.1.GetOr([]);
    assert IsEditorialOrInterview(rec.recordType) ==> t == TitleFieldParts(rec.title) && sub == [];
    assert !IsEditorialOrInterview(rec.recordType) ==> t == HeadlineParts(rec.headline) && sub == HeadlineParts(rec.subHeadline);
    TitleLines(t, sub)
  }

  // ---------------------------------------------------------------------
  // Authors

  /** `make_author_block`: one author line per picked author. Review and
      Classics records show the reviewer alone, if given; other records show
      each non-empty `Auth_i` in order, line breaks made paragraph breaks.
      Never more than three lines. */
  function AuthorBlock(rec: Record): (r: seq<Block>)
    ensures |r| <= 3
    ensures UsesReviewer(rec.recordType) ==>
              r == (if rec.reviewer == "" then [] else [Para(AuthorBig, rec.reviewer)])
    ensures !UsesReviewer(rec.recordType) ==>
              var named := NonEmpty(AuthorFields(rec));
              |r| == |named| && forall k :: 0 <= k < |named| ==> r[k] == Para(AuthorBig, BreaksToParagraphs(named[k]))
    ensures forall st :: CountStyle(r, st) == if st == AuthorBig then |r| else 0
    ensures forall h :: CountSpacers(r, h) == 0
  {
    ParasCount(AuthorBig, PickAuthors(rec));
    Paras(AuthorBig, PickAuthors(rec))
  }


  // ---------------------------------------------------------------------
  // Citation

  /** Names as an English list with a serial comma: "A", "A and B",
      "A, B, and C", "A, B, C, and D", ... */
  function EnglishList(names: seq<string>): string
    requires |names| > 0
  {
    if |names| == 1 then names[0]
    else if |names| == 2 then names[0] + " and " + names[1]
    else SerialList(names)
  }

  function SerialList(names: seq<string>): string
    requires |names| >= 2
    decreases |names|
  {
    if |names| == 2 then names[0] + ", and " + names[1]
    else names[0] + ", " + SerialList(names[1..])
  }

  lemma EnglishListOfThree(names: seq<string>)
    requires |names| == 3
    ensures EnglishList(names) == names[0] + ", " + names[1] + ", and " + names[2]
  {
    var x, y, z := names[0], names[1], names[2];
    assert SerialList(names[1..]) == y + ", and " + z;
    assert x + ", " + (y + ", and " + z) == x + ", " + y + ", and " + z;
  }

  /** The bold author prefix of a citation: the names as an English list in
      bold, followed by a period when there are two or three names (not for
      one), and a space; empty for no names and for more than three. */
  function AuthorPrefix(authors: seq<string>): (r: string)
    ensures |authors| == 0 || |authors| > 3 ==> r == ""
    ensures 1 <= |authors| <= 3 ==>
              r == "<b>" + EnglishList(authors) + (if |authors| == 1 then "" else ".") + "</b> "
  {
    if |authors| == 1 then "<b>" + authors[0] + "</b> "
    else if |authors| == 2 then "<b>" + authors[0] + " and " + authors[1] + ".</b> "
    else if |authors| == 3 then
      EnglishListOfThree(authors);
      "<b>" + authors[0] + ", " + authors[1] + ", and " + authors[2] + ".</b> "
    else ""
  }

  /** The citation names the book's authors, `Auth_1..Auth_3`, whatever the
      record type. */
  function CitationAuthors(rec: Record): seq<string> {
    NonEmpty(AuthorFields(rec))
  }

  /** A tag that cannot overlap the `<i>` and `</i>` around a book title:
      it opens with `<` and a letter other than `i`, and closes with `>`
      after a letter other than `i`. */
  predicate ItalicFree(t: string) {
    |t| >= 2 && t[0] == '<' && t[1] != 'i' && t[|t| - 1] == '>' && t[|t| - 2] != 'i'
  }

  lemma ParagraphTagsAreItalicFree()
    ensures forall k :: 0 <= k < |ParagraphBreakTags| ==> ItalicFree(ParagraphBreakTags[k])
  {
  }

  /** An italic-free tag starts inside neither `<i>` nor `.</i> ` around `x`. */
  lemma ItalicFreeOutside(x: string, t: string)
    requires ItalicFree(t)
    ensures forall j :: 0 <= j < 3 ==> !OccursAt("<i>" + x + ".</i> ", t, j)
    ensures forall j :: OccursAt("<i>" + x + ".</i> ", t, j) ==> j + |t| <= 3 + |x|
  {
    var s := "<i>" + x + ".</i> ";
    forall j | 0 <= j < 3
      ensures !OccursAt(s, t, j)
    {
      if j + |t| <= |s| {
        assert s[j..j + |t|][0] == s[j] && s[j..j + |t|][1] == s[j + 1];
      }
    }
    forall j | OccursAt(s, t, j)
      ensures j + |t| <= 3 + |x|
    {
      var e := j + |t| - 1;
      assert s[j..j + |t|][|t| - 1] == s[e] && s[j..j + |t|][|t| - 2] == s[e - 1];
      ItalicCloser(x, e);
    }
  }

  /** The only `>` after the title in `<i>` + title + `.</i> ` follows an `i`. */
  lemma ItalicCloser(x: string, e: int)
    ensures var s := "<i>" + x + ".</i> ";
            3 + |x| <= e < |s| && s[e] == '>' ==> s[e - 1] == 'i'
  {
    var s := "<i>" + x + ".</i> ";
    if 3 + |x| <= e < |s| && s[e] == '>' {
      assert s[e] == ".</i> "[e - 3 - |x|];
      assert e - 3 - |x| == 4;
      assert s[e - 1] == ".</i> "[3];
    }
  }

  /** Removing italic-free tags from an italic title removes them from the
      title alone. */
  lemma {:induction false} RemoveEachInsideItalic(x: string, tags: seq<string>)
    requires forall k :: 0 <= k < |tags| ==> |tags[k]| > 0 && ItalicFree(tags[k])
    ensures RemoveEach("<i>" + x + ".</i> ", tags) == "<i>" + RemoveEach(x, tags) + ".</i> "
    decreases |tags|
  {
    if tags != [] {
      var t := tags[0];
      ItalicFreeOutside(x, t);
      ReplaceInside("<i>", x, ".</i> ", t, "");
      assert forall k :: 0 <= k < |tags| - 1 ==> tags[1..][k] == tags[k + 1];
      RemoveEachInsideItalic(Replace(x, t, ""), tags[1..]);
    }
  }

  /** The italic book title: the title with its breaks and paragraph tags
      removed, then the whole piece stripped once more. The second pass
      leaves `<i>` and `.</i> ` alone and strips the title a second time;
      a title without those tags appears as it is. */
  function BookPiece(title: string): (r: string)
    ensures r == "<i>" + StripParagraphsBreaks(StripParagraphsBreaks(title)) + ".</i> "
    ensures (forall k :: 0 <= k < |ParagraphBreakTags| ==> !Contains(title, ParagraphBreakTags[k])) ==>
              r == "<i>" + title + ".</i> "
  {
    var italic := "<i>" + StripParagraphsBreaks(title) + ".</i> ";
    ParagraphTagsAreItalicFree();
    RemoveEachInsideItalic(StripParagraphsBreaks(title), ParagraphBreakTags);
    StripParagraphsBreaks(italic)
  }

  function PublisherPiece(publisher: string): string {
    if publisher != "" then publisher + ", " else ""
  }

  function PubDatePiece(pubDate: string): string {
    if pubDate != "" then pubDate + ". " else ""
  }

  /** The price and a space, then `ISBN <isbn>` when an ISBN is given. */
  function PricePiece(price: string, isbn: string): string {
    var priced := StripParagraphsBreaks(price) + " ";
    if isbn != "" then priced + "ISBN " + StripParagraphsBreaks(isbn) else priced
  }

  /** The citation text of `make_citation_block`: the author prefix, the
      italic book title, the publisher and publication date when given, the
      price and a space, and `ISBN <isbn>` when an ISBN is given. It starts
      with the author prefix followed by the italic title, stripped twice. */
  function CitationText(rec: Record): (r: string)
    ensures var head := AuthorPrefix(CitationAuthors(rec)) + "<i>"
                        + StripParagraphsBreaks(StripParagraphsBreaks(rec.title)) + ".</i> ";
            |r| >= |head| && r[..|head|] == head
  {
    var authors := AuthorPrefix(CitationAuthors(rec));
    var book := BookPiece(rec.title);
    var middle := PublisherPiece(rec.publisher) + PubDatePiece(rec.pubDate);
    var price := PricePiece(rec.price, rec.isbn);
    ItalicHead(authors, StripParagraphsBreaks(StripParagraphsBreaks(rec.title)), book, middle + price);
    authors + book + (middle + price)
  }

  lemma ItalicHead(a: string, x: string, book: string, tail: string)
    requires book == "<i>" + x + ".</i> "
    ensures var head := a + "<i>" + x + ".</i> ";
            |a + book + tail| >= |head| && (a + book + tail)[..|head|] == head
  {
    var head := a + "<i>" + x + ".</i> ";
    assert a + book == head;
    assert (head + tail)[..|head|] == head;
  }

  /** A citation ends with its price piece: the price and a space, followed
      by `ISBN <isbn>` when an ISBN is given. */
  lemma CitationEnding(rec: Record)
    ensures var price := StripParagraphsBreaks(rec.price) + " "
                         + (if rec.isbn != "" then "ISBN " + StripParagraphsBreaks(rec.isbn) else "");
            |CitationText(rec)| >= |price| && CitationText(rec)[|CitationText(rec)| - |price|..] == price
  {
    var head := CitationHead(rec);
    var price := PricePiece(rec.price, rec.isbn);
    var priced := StripParagraphsBreaks(rec.price) + " ";
    if rec.isbn != "" {
      Reassociate(priced, "ISBN ", StripParagraphsBreaks(rec.isbn));
    } else {
      assert priced + "" == priced;
    }
    CitationSplit(rec);
    SuffixThrough(head, price);
  }

  /** Everything of a citation before its price piece. */
  function CitationHead(rec: Record): string {
    AuthorPrefix(CitationAuthors(rec)) + BookPiece(rec.title) + (PublisherPiece(rec.publisher) + PubDatePiece(rec.pubDate))
  }

  lemma CitationSplit(rec: Record)
    ensures CitationText(rec) == CitationHead(rec) + PricePiece(rec.price, rec.isbn)
  {
    Reassociate(AuthorPrefix(CitationAuthors(rec)) + BookPiece(rec.title),
                PublisherPiece(rec.publisher) + PubDatePiece(rec.pubDate), PricePiece(rec.price, rec.isbn));
  }

  lemma SuffixThrough(a: string, b: string)
    ensures (a + b)[|a + b| - |b|..] == b
  {
  }

  lemma InsertAt(head: string, piece: string, tail: string)
    ensures |head| <= |head + tail|
    ensures head + piece + tail == (head + tail)[..|head|] + piece + (head + tail)[|head|..]
  {
    assert (head + tail)[..|head|] == head;
    assert (head + tail)[|head|..] == tail;
  }

  /** The five pieces of a citation, in order. */
  lemma Regroup(a: string, b: string, c: string, d: string, e: string)
    ensures a + b + ((c + d) + e) == (a + b) + c + (d + e)
    ensures a + b + ((c + d) + e) == (a + b + c) + d + e
  {
  }

  lemma CitationPieces(rec: Record)
    ensures CitationText(rec) == (AuthorPrefix(CitationAuthors(rec)) + BookPiece(rec.title))
              + PublisherPiece(rec.publisher) + (PubDatePiece(rec.pubDate) + PricePiece(rec.price, rec.isbn))
    ensures CitationText(rec) == (AuthorPrefix(CitationAuthors(rec)) + BookPiece(rec.title) + PublisherPiece(rec.publisher))
              + PubDatePiece(rec.pubDate) + PricePiece(rec.price, rec.isbn)
  {
    Regroup(AuthorPrefix(CitationAuthors(rec)), BookPiece(rec.title), PublisherPiece(rec.publisher),
            PubDatePiece(rec.pubDate), PricePiece(rec.price, rec.isbn));
  }

  lemma CitationWithoutPublisher(rec: Record)
    ensures CitationText(rec.(publisher := "")) == (AuthorPrefix(CitationAuthors(rec)) + BookPiece(rec.title))
              + (PubDatePiece(rec.pubDate) + PricePiece(rec.price, rec.isbn))
  {
    var other := rec.(publisher := "");
    assert AuthorFields(other) == AuthorFields(rec);
    CitationPieces(other);
    var head := AuthorPrefix(CitationAuthors(rec)) + BookPiece(rec.title);
    assert head + "" == head;
  }

  /** The publisher appears, followed by ", ", right after the book title
      when it is non-empty; nothing else changes. */
  lemma CitationPublisherPiece(rec: Record)
    ensures var without := CitationText(rec.(publisher := ""));
            var k := |AuthorPrefix(CitationAuthors(rec)) + BookPiece(rec.title)|;
            k <= |without| &&
            CitationText(rec) == without[..k] + PublisherPiece(rec.publisher) + without[k..]
  {
    CitationPieces(rec);
    CitationWithoutPublisher(rec);
    InsertAt(AuthorPrefix(CitationAuthors(rec)) + BookPiece(rec.title), PublisherPiece(rec.publisher),
             PubDatePiece(rec.pubDate) + PricePiece(rec.price, rec.isbn));
  }

  lemma CitationWithoutPubDate(rec: Record)
    ensures CitationText(rec.(pubDate := "")) == (AuthorPrefix(CitationAuthors(rec)) + BookPiece(rec.title) + PublisherPiece(rec.publisher))
              + PricePiece(rec.price, rec.isbn)
  {
    var other := rec.(pubDate := "");
    assert AuthorFields(other) == AuthorFields(rec);
    CitationPieces(other);
    var price := PricePiece(rec.price, rec.isbn);
    assert "" + price == price;
  }

  /** The publication date appears, followed by ". ", right after the
      publisher piece when it is non-empty; nothing else changes. */
  lemma CitationPubDatePiece(rec: Record)
    ensures var without := CitationText(rec.(pubDate := ""));
            var k := |AuthorPrefix(CitationAuthors(rec)) + BookPiece(rec.title) + PublisherPiece(rec.publisher)|;
            k <= |without| &&
            CitationText(rec) == without[..k] + PubDatePiece(rec.pubDate) + without[k..]
  {
    CitationPieces(rec);
    CitationWithoutPubDate(rec);
    InsertAt(AuthorPrefix(CitationAuthors(rec)) + BookPiece(rec.title) + PublisherPiece(rec.publisher),
             PubDatePiece(rec.pubDate), PricePiece(rec.price, rec.isbn));
  }

  /** `make_citation_block`: no block for Interview records (exact spelling),
      one citation paragraph for every other record. */
  function CitationBlock(rec: Record): (r: seq<Block>)
    ensures r == [] <==> rec.recordType == "Interview"
    ensures r != [] ==> r == [Para(Citation, CitationText(rec))]
  {
    if rec.recordType != "Interview" then [Para(Citation, CitationText(rec))] else []
  }

  // ---------------------------------------------------------------------
  // Body

  /** The body paragraphs: the body with lower-case line breaks made
      paragraph breaks, split on `<p>`, empty pieces dropped. Each paragraph is
      non-empty and free of `<p>`, and together, in order, they are the body
      with its `<p>` tags deleted. */
  function BodyParagraphs(review: string): (r: seq<string>)
    ensures forall k :: 0 <= k < |r| ==> r[k] != "" && !Contains(r[k], "<p>")
    ensures Concat(r) == Replace(BreaksToParagraphs(review), "<p>", "")
    ensures review == "" ==> r == []
  {
    Parts(BreaksToParagraphs(review), "<p>")
  }

  /** Where the body is cut: text made of plain pieces separated by `<p>` or
      `<br>` gives exactly its non-empty pieces, in order. */
  lemma BodyParagraphsOfTagged(pieces: seq<string>, tags: seq<string>)
    requires PlainTagged(pieces, tags)
    ensures BodyParagraphs(Tagged(pieces, tags)) == NonEmpty(pieces)
  {
    BreaksOfTagged(pieces, tags);
    ParagraphTagUnbordered();
    forall k | 0 <= k < |pieces|
      ensures !Contains(pieces[k], "<p>")
    {
      NoOpener(pieces[k], "<p>");
    }
    PartsOfJoin(pieces, "<p>");
  }

  /** A body with a line break and a paragraph break gives three paragraphs. */
  lemma BodyParagraphsExample()
    ensures BodyParagraphs("Para one.<br>Para two.<p>Para three.") == ["Para one.", "Para two.", "Para three."]
  {
    var pieces := ["Para one.", "Para two.", "Para three."];
    var tags := ["<br>", "<p>"];
    ExampleTagged(pieces, tags);
    ExamplePlain(pieces, tags);
    ExamplePieces(pieces);
    BodyParagraphsOfTagged(pieces, tags);
  }

  lemma ExampleTagged(pieces: seq<string>, tags: seq<string>)
    requires pieces == ["Para one.", "Para two.", "Para three."] && tags == ["<br>", "<p>"]
    ensures Tagged(pieces, tags) == "Para one.<br>Para two.<p>Para three."
  {
    assert Tagged(pieces[2..], tags[2..]) == "Para three.";
    assert Tagged(pieces[1..], tags[1..]) == "Para two.<p>Para three.";
  }

  lemma ExamplePlain(pieces: seq<string>, tags: seq<string>)
    requires pieces == ["Para one.", "Para two.", "Para three."] && tags == ["<br>", "<p>"]
    ensures PlainTagged(pieces, tags)
  {
  }

  lemma ExamplePieces(pieces: seq<string>)
    requires pieces == ["Para one.", "Para two.", "Para three."]
    ensures NonEmpty(pieces) == pieces
  {
    assert NonEmpty(pieces[2..]) == pieces[2..];
    assert NonEmpty(pieces[1..]) == pieces[1..];
  }

  /** Only lower-case line breaks cut the body: an upper-case `<BR>` stays
      inside its paragraph. */
  lemma UpperCaseBreakKept()
    ensures BodyParagraphs("Para one.<BR>Para two.<p>Para three.") == ["Para one.<BR>Para two.", "Para three."]
  {
    var a, b := "Para one.<BR>Para two.", "Para three.";
    UpperCaseBody(a, b);
    UpperCaseParts(a, b);
  }

  lemma UpperCaseBody(a: string, b: string)
    requires a == "Para one.<BR>Para two." && b == "Para three."
    ensures a + "<p>" + b == "Para one.<BR>Para two.<p>Para three."
    ensures BreaksToParagraphs(a + "<p>" + b) == a + "<p>" + b
  {
    var body := a + "<p>" + b;
    assert body == "Para one.<BR>Para two.<p>Para three.";
    NoTagAfterOpener(body, "<br>");
    NoTagAfterOpener(body, "</br>");
  }

  lemma UpperCaseParts(a: string, b: string)
    requires a == "Para one.<BR>Para two." && b == "Para three."
    ensures Parts(a + "<p>" + b, "<p>") == [a, b]
  {
    NoTagAfterOpener(a, "<p>");
    NoTagAfterOpener(b, "<p>");
    ParagraphTagUnbordered();
    PartsOfSeparated(a, b, "<p>");
  }

  /** Each paragraph followed by a 0.2in spacer. */
  function Interleave(paragraphs: seq<string>): (r: seq<Block>)
    ensures |r| == 2 * |paragraphs|
    ensures forall i :: 0 <= i < |paragraphs| ==> r[2 * i] == Para(Justify, paragraphs[i]) && r[2 * i + 1] == Spacer(20)
    decreases |paragraphs|
  {
    if paragraphs == [] then []
    else [Para(Justify, paragraphs[0]), Spacer(20)] + Interleave(paragraphs[1..])
  }

  /** The interleaving holds one justified paragraph and one 0.2in spacer
      per paragraph and nothing else. */
  lemma {:induction false} InterleaveCounts(paragraphs: seq<string>)
    ensures forall st :: CountStyle(Interleave(paragraphs), st) == if st == Justify then |paragraphs| else 0
    ensures forall h :: CountSpacers(Interleave(paragraphs), h) == if h == 20 then |paragraphs| else 0
    decreases |paragraphs|
  {
    if paragraphs != [] {
      var pair := [Para(Justify, paragraphs[0]), Spacer(20)];
      assert pair[1..] == [Spacer(20)] && pair[1..][1..] == [];
      InterleaveCounts(paragraphs[1..]);
      CountAppend(pair, Interleave(paragraphs[1..]));
    }
  }

  /** `make_paragraph_block`: the body paragraphs, in order, alternating with
      0.2in spacers. */
  function ParagraphBlock(rec: Record): (r: seq<Block>)
    ensures var ps := BodyParagraphs(rec.review);
            && |r| == 2 * |ps|
            && (forall i :: 0 <= i < |ps| ==> r[2 * i] == Para(Justify, ps[i]) && r[2 * i + 1] == Spacer(20))
  {
    Interleave(BodyParagraphs(rec.review))
  }

  /** One justified paragraph and one 0.2in spacer per body paragraph and
      nothing else. */
  lemma ParagraphBlockCounts(rec: Record)
    ensures forall st :: CountStyle(ParagraphBlock(rec), st) == if st == Justify then |BodyParagraphs(rec.review)| else 0
    ensures forall h :: CountSpacers(ParagraphBlock(rec), h) == if h == 20 then |BodyParagraphs(rec.review)| else 0
  {
    InterleaveCounts(BodyParagraphs(rec.review));
  }

  // ---------------------------------------------------------------------
  // Templates

  lemma Count4(a: seq<Block>, b: seq<Block>, c: seq<Block>, d: seq<Block>, st: Style, h: nat)
    ensures CountStyle(a + b + c + d, st) == CountStyle(a, st) + CountStyle(b, st) + CountStyle(c, st) + CountStyle(d, st)
    ensures CountSpacers(a + b + c + d, h) == CountSpacers(a, h) + CountSpacers(b, h) + CountSpacers(c, h) + CountSpacers(d, h)
  {
    Count3(a, b, c, st, h);
    CountStyleAppend(a + b + c, d, st);
    CountSpacersAppend(a + b + c, d, h);
  }

  lemma Count5(a: seq<Block>, b: seq<Block>, c: seq<Block>, d: seq<Block>, e: seq<Block>, st: Style, h: nat)
    ensures CountStyle(a + b + c + d + e, st) ==
              CountStyle(a, st) + CountStyle(b, st) + CountStyle(c, st) + CountStyle(d, st) + CountStyle(e, st)
    ensures CountSpacers(a + b + c + d + e, h) ==
              CountSpacers(a, h) + CountSpacers(b, h) + CountSpacers(c, h) + CountSpacers(d, h) + CountSpacers(e, h)
  {
    Count4(a, b, c, d, st, h);
    CountStyleAppend(a + b + c + d, e, st);
    CountSpacersAppend(a + b + c + d, e, h);
  }

  /** The layout of a template: the pieces before the author lines open it,
      the date and citation pieces follow them, the last piece closes it. */
  lemma TemplateShape(a: seq<Block>, t: seq<Block>, au: seq<Block>, d: seq<Block>, c: seq<Block>, p: seq<Block>)
    ensures var r := a + (t + [Spacer(10)] + au + d) + c + p;
            var head := a + t + [Spacer(10)] + au;
            |r| >= |head| + |p| && r[..|head|] == head && r[|r| - |p|..] == p &&
            r[|head|..|r| - |p|] == d + c
  {
    var head := a + t + [Spacer(10)] + au;
    var r := a + (t + [Spacer(10)] + au + d) + c + p;
    assert r == head + (d + c) + p;
    SplitThree(head, d + c, p);
  }

  lemma BylineShape(t: seq<Block>, au: seq<Block>, d: seq<Block>, c: seq<Block>, p: seq<Block>)
    ensures var r := (t + [Spacer(10)] + au + d) + c + p;
            var head := t + [Spacer(10)] + au;
            |r| >= |head| + |p| && r[..|head|] == head && r[|r| - |p|..] == p &&
            r[|head|..|r| - |p|] == d + c
  {
    var head := t + [Spacer(10)] + au;
    var r := (t + [Spacer(10)] + au + d) + c + p;
    assert r == head + (d + c) + p;
    SplitThree(head, d + c, p);
  }

  /** A three-part concatenation gives back each of its parts. */
  lemma SplitThree(x: seq<Block>, y: seq<Block>, z: seq<Block>)
    ensures var r := x + y + z;
            r[..|x|] == x && r[|x|..|r| - |z|] == y && r[|r| - |z|..] == z
  {
  }

  /** The date line between its spacers: `gap` above, 0.5in below. */
  function DateLines(gap: nat, date: string): seq<Block> {
    [Spacer(gap), Para(AuthorBig, date), Spacer(50)]
  }

  lemma DateLinesCounts(gap: nat, date: string, st: Style, h: nat)
    ensures CountStyle(DateLines(gap, date), st) == if st == AuthorBig then 1 else 0
    ensures CountSpacers(DateLines(gap, date), h) ==
              (if h == gap then 1 else 0) + (if h == 50 then 1 else 0)
  {
    assert DateLines(gap, date) == [Spacer(gap)] + [Para(AuthorBig, date)] + [Spacer(50)];
    Count3([Spacer(gap)], [Para(AuthorBig, date)], [Spacer(50)], st, h);
    CountSingle(Spacer(gap), st, h);
    CountSingle(Para(AuthorBig, date), st, h);
    CountSingle(Spacer(50), st, h);
  }

  /** The title, author and date lines with their spacers, common to both
      templates; `gap` is the spacer between authors and date. */
  function Byline(rec: Record, gap: nat): seq<Block> {
    TitleBlock(rec) + [Spacer(10)] + AuthorBlock(rec) + DateLines(gap, rec.issueDate)
  }

  /** The byline holds only title, subtitle and author-style paragraphs, and
      spacers of 0.1in, 0.5in and the gap. */
  lemma BylineCounts(rec: Record, gap: nat, st: Style, h: nat)
    ensures st != TitleBig && st != SubTitleBig && st != AuthorBig ==> CountStyle(Byline(rec, gap), st) == 0
    ensures h != 10 && h != 50 && h != gap ==> CountSpacers(Byline(rec, gap), h) == 0
  {
    Count4(TitleBlock(rec), [Spacer(10)], AuthorBlock(rec), DateLines(gap, rec.issueDate), st, h);
    CountSingle(Spacer(10), st, h);
    DateLinesCounts(gap, rec.issueDate, st, h);
  }

  /** The citation section: the citation block and a spacer of the given
      height, left out entirely for Editorial records (exact spelling). */
  function CitationSection(rec: Record, spacer: nat): seq<Block> {
    if rec.recordType != "Editorial" then CitationBlock(rec) + [Spacer(spacer)] else []
  }

  lemma CitationSectionCounts(rec: Record, spacer: nat, st: Style)
    ensures CountStyle(CitationSection(rec, spacer), st) ==
              if st == Citation && rec.recordType != "Editorial" && rec.recordType != "Interview" then 1 else 0
    ensures CountSpacers(CitationSection(rec, spacer), spacer) == if rec.recordType == "Editorial" then 0 else 1
  {
    if rec.recordType != "Editorial" {
      CountStyleAppend(CitationBlock(rec), [Spacer(spacer)], st);
      CountSpacersAppend(CitationBlock(rec), [Spacer(spacer)], spacer);
      CountSingle(Spacer(spacer), st, spacer);
      if rec.recordType != "Interview" {
        CountSingle(Para(Citation, CitationText(rec)), st, spacer);
      }
    }
  }

  lemma AnnouncementCounts(rec: Record, st: Style, h: nat)
    ensures CountStyle(AnnouncementBlock(rec), st) == if st == Announcement then |AnnouncementBlock(rec)| else 0
    ensures CountSpacers(AnnouncementBlock(rec), h) == 0
  {
    var ann := AnnouncementBlock(rec);
    if ann != [] {
      CountSingle(ann[0], st, h);
      assert ann == [ann[0]];
    }
  }

  /** `make_normal_template`: announcement, then title, authors and date,
      then the citation with a 0.4in spacer, then the body. It opens with the
      announcement, a 0.1in spacer, the title lines, a 0.1in spacer and the
      author lines; the date line follows with 0.1in above it and 0.5in below,
      then the citation section; the body paragraphs close it. */
  function NormalTemplate(rec: Record): (r: seq<Block>)
    ensures var head := AnnouncementBlock(rec) + [Spacer(10)] + TitleBlock(rec) + [Spacer(10)] + AuthorBlock(rec);
            var p := ParagraphBlock(rec);
            |r| >= |head| + |p| && r[..|head|] == head && r[|r| - |p|..] == p
    ensures var head := AnnouncementBlock(rec) + [Spacer(10)] + TitleBlock(rec) + [Spacer(10)] + AuthorBlock(rec);
            var p := ParagraphBlock(rec);
            |r| >= |head| + |p| &&
            r[|head|..|r| - |p|] == [Spacer(10), Para(AuthorBig, rec.issueDate), Spacer(50)] + CitationSection(rec, 40)
  {
    TemplateShape(AnnouncementBlock(rec) + [Spacer(10)], TitleBlock(rec), AuthorBlock(rec), DateLines(10, rec.issueDate),
                  CitationSection(rec, 40), ParagraphBlock(rec));
    AnnouncementBlock(rec) + [Spacer(10)] + Byline(rec, 10) + CitationSection(rec, 40) + ParagraphBlock(rec)
  }

  /** `make_annotation_template`: title, authors and date, then the citation
      with a 0.2in spacer, then the body; no banner. It opens with the title
      lines, a 0.1in spacer and the author lines; the date line follows with
      0.05in above it and 0.5in below, then the citation section; the body
      paragraphs close it. */
  function AnnotationTemplate(rec: Record): (r: seq<Block>)
    ensures var head := TitleBlock(rec) + [Spacer(10)] + AuthorBlock(rec);
            var p := ParagraphBlock(rec);
            |r| >= |head| + |p| && r[..|head|] == head && r[|r| - |p|..] == p
    ensures var head := TitleBlock(rec) + [Spacer(10)] + AuthorBlock(rec);
            var p := ParagraphBlock(rec);
            |r| >= |head| + |p| &&
            r[|head|..|r| - |p|] == [Spacer(5), Para(AuthorBig, rec.issueDate), Spacer(50)] + CitationSection(rec, 20)
  {
    BylineShape(TitleBlock(rec), AuthorBlock(rec), DateLines(5, rec.issueDate), CitationSection(rec, 20), ParagraphBlock(rec));
    Byline(rec, 5) + CitationSection(rec, 20) + ParagraphBlock(rec)
  }

  /** The normal template has one citation unless the record is an Editorial
      or an Interview, has the 0.4in citation spacer unless it is an
      Editorial, has the announcement banner exactly when the type asks for
      one, and one justified paragraph per body paragraph. */
  lemma NormalTemplateCounts(rec: Record)
    ensures CountStyle(NormalTemplate(rec), Citation) ==
              if rec.recordType == "Editorial" || rec.recordType == "Interview" then 0 else 1
    ensures CountSpacers(NormalTemplate(rec), 40) == if rec.recordType == "Editorial" then 0 else 1
    ensures CountStyle(NormalTemplate(rec), Announcement) == |AnnouncementBlock(rec)|
    ensures CountStyle(NormalTemplate(rec), Justify) == |BodyParagraphs(rec.review)|
  {
    NormalTemplateCitations(rec);
    NormalTemplateBanner(rec);
    NormalTemplateBody(rec);
  }

  lemma NormalTemplateCitations(rec: Record)
    ensures CountStyle(NormalTemplate(rec), Citation) ==
              if rec.recordType == "Editorial" || rec.recordType == "Interview" then 0 else 1
    ensures CountSpacers(NormalTemplate(rec), 40) == if rec.recordType == "Editorial" then 0 else 1
  {
    NormalTemplateCount(rec, Citation, 40);
  }

  lemma NormalTemplateBanner(rec: Record)
    ensures CountStyle(NormalTemplate(rec), Announcement) == |AnnouncementBlock(rec)|
  {
    NormalTemplateCount(rec, Announcement, 40);
  }

  lemma NormalTemplateBody(rec: Record)
    ensures CountStyle(NormalTemplate(rec), Justify) == |BodyParagraphs(rec.review)|
  {
    NormalTemplateCount(rec, Justify, 40);
  }

  lemma NormalTemplateCount(rec: Record, st: Style, h: nat)
    requires st in {Citation, Announcement, Justify} && h == 40
    ensures CountStyle(NormalTemplate(rec), st) ==
              CountStyle(AnnouncementBlock(rec), st) + CountStyle(CitationSection(rec, 40), st) + CountStyle(ParagraphBlock(rec), st)
    ensures CountSpacers(NormalTemplate(rec), h) == CountSpacers(CitationSection(rec, 40), h)
    ensures CountStyle(AnnouncementBlock(rec), st) == if st == Announcement then |AnnouncementBlock(rec)| else 0
    ensures CountStyle(CitationSection(rec, 40), st) ==
              if st == Citation && rec.recordType != "Editorial" && rec.recordType != "Interview" then 1 else 0
    ensures CountSpacers(CitationSection(rec, 40), 40) == if rec.recordType == "Editorial" then 0 else 1
    ensures CountStyle(ParagraphBlock(rec), st) == if st == Justify then |BodyParagraphs(rec.review)| else 0
  {
    NormalTemplatePieces(rec, st, h);
    AnnouncementCounts(rec, st, h);
    CitationSectionCounts(rec, 40, st);
    ParagraphBlockCounts(rec);
  }

  lemma NormalTemplatePieces(rec: Record, st: Style, h: nat)
    requires st in {Citation, Announcement, Justify} && h == 40
    ensures CountStyle(NormalTemplate(rec), st) ==
              CountStyle(AnnouncementBlock(rec), st) + CountStyle(CitationSection(rec, 40), st) + CountStyle(ParagraphBlock(rec), st)
    ensures CountSpacers(NormalTemplate(rec), h) ==
              CountSpacers(AnnouncementBlock(rec), h) + CountSpacers(CitationSection(rec, 40), h) + CountSpacers(ParagraphBlock(rec), h)
  {
    Count5(AnnouncementBlock(rec), [Spacer(10)], Byline(rec, 10), CitationSection(rec, 40), ParagraphBlock(rec), st, h);
    CountSingle(Spacer(10), st, h);
    BylineCounts(rec, 10, st, h);
  }

  /** The annotation template never has a banner, has one citation unless the
      record is an Editorial or an Interview, and its 0.2in spacers are one per
      body paragraph plus the citation spacer, absent for Editorials. */
  lemma AnnotationTemplateCounts(rec: Record)
    ensures CountStyle(AnnotationTemplate(rec), Citation) ==
              if rec.recordType == "Editorial" || rec.recordType == "Interview" then 0 else 1
    ensures CountSpacers(AnnotationTemplate(rec), 20) ==
              |BodyParagraphs(rec.review)| + if rec.recordType == "Editorial" then 0 else 1
    ensures CountStyle(AnnotationTemplate(rec), Announcement) == 0
    ensures CountStyle(AnnotationTemplate(rec), Justify) == |BodyParagraphs(rec.review)|
  {
    AnnotationTemplateCitations(rec);
    AnnotationTemplateBanner(rec);
    AnnotationTemplateBody(rec);
  }

  lemma AnnotationTemplateCitations(rec: Record)
    ensures CountStyle(AnnotationTemplate(rec), Citation) ==
              if rec.recordType == "Editorial" || rec.recordType == "Interview" then 0 else 1
    ensures CountSpacers(AnnotationTemplate(rec), 20) ==
              |BodyParagraphs(rec.review)| + if rec.recordType == "Editorial" then 0 else 1
  {
    AnnotationTemplateCount(rec, Citation, 20);
  }

  lemma AnnotationTemplateBanner(rec: Record)
    ensures CountStyle(AnnotationTemplate(rec), Announcement) == 0
  {
    AnnotationTemplateCount(rec, Announcement, 20);
  }

  lemma AnnotationTemplateBody(rec: Record)
    ensures CountStyle(AnnotationTemplate(rec), Justify) == |BodyParagraphs(rec.review)|
  {
    AnnotationTemplateCount(rec, Justify, 20);
  }

  lemma AnnotationTemplateCount(rec: Record, st: Style, h: nat)
    requires st in {Citation, Announcement, Justify} && h == 20
    ensures CountStyle(AnnotationTemplate(rec), st) ==
              CountStyle(CitationSection(rec, 20), st) + CountStyle(ParagraphBlock(rec), st)
    ensures CountSpacers(AnnotationTemplate(rec), h) ==
              CountSpacers(CitationSection(rec, 20), h) + CountSpacers(ParagraphBlock(rec), h)
    ensures CountStyle(CitationSection(rec, 20), st) ==
              if st == Citation && rec.recordType != "Editorial" && rec.recordType != "Interview" then 1 else 0
    ensures CountSpacers(CitationSection(rec, 20), 20) == if rec.recordType == "Editorial" then 0 else 1
    ensures CountStyle(ParagraphBlock(rec), st) == if st == Justify then |BodyParagraphs(rec.review)| else 0
    ensures CountSpacers(ParagraphBlock(rec), 20) == |BodyParagraphs(rec.review)|
  {
    Count3(Byline(rec, 5), CitationSection(rec, 20), ParagraphBlock(rec), st, h);
    BylineCounts(rec, 5, st, h);
    CitationSectionCounts(rec, 20, st);
    ParagraphBlockCounts(rec);
  }

  // ---------------------------------------------------------------------
  // Annotation digests

  /** The records that `keep` selects and that were issued on `season`, in
      input order. */
  function Selected(records: seq<Record>, keep: Record -> bool, season: string): seq<Record>
    decreases |records|
  {
    if records == [] then []
    else
      var last := records[|records| - 1];
      Selected(records[..|records| - 1], keep, season) + (if keep(last) && last.issueDate == season then [last] else [])
  }

  /** A record is selected under `season` exactly when `keep` holds of it and
      it was issued on `season`. */
  lemma {:induction false} SelectedMembers(records: seq<Record>, keep: Record -> bool, season: string)
    ensures forall x :: x in Selected(records, keep, season) <==> x in records && keep(x) && x.issueDate == season
    decreases |records|
  {
    if records != [] {
      var init := records[..|records| - 1];
      SelectedMembers(init, keep, season);
      assert records == init + [records[|records| - 1]];
    }
  }

  /** A dictionary from issue dates to records, with its keys in insertion
      order. */
  datatype Grouping = Grouping(seasons: seq<string>, items: map<string, seq<Record>>)

  /** The loop of `group_all_annotations_by_season`, for any selection test:
      each selected record is appended to the list of its issue date, a new
      date opening a new list. The dates are distinct and are exactly the
      keys; every list is non-empty and holds exactly the selected records of
      its date, in input order; a date without a list has no selected
      record. */
  function GroupBy(records: seq<Record>, keep: Record -> bool): (g: Grouping)
    ensures Distinct(g.seasons)
    ensures forall s :: s in g.seasons <==> s in g.items
    ensures forall s :: s in g.items ==> g.items[s] == Selected(records, keep, s) && g.items[s] != []
    ensures forall s :: s !in g.items ==> Selected(records, keep, s) == []
    decreases |records|
  {
    if records == [] then Grouping([], map[])
    else
      var init := records[..|records| - 1];
      var last := records[|records| - 1];
      var g := GroupBy(init, keep);
      var season := last.issueDate;
      if !keep(last) then g
      else if season in g.items then Grouping(g.seasons, g.items[season := g.items[season] + [last]])
      else Grouping(g.seasons + [season], g.items[season := [last]])
  }

  /** The grouping test: the type is "annotation" in any letter case and with
      surrounding blanks. */
  predicate IsAnnotation(rec: Record) {
    IsAnnotationType(rec.recordType)
  }

  /** The annotation records of `records` issued on `season`, in input order. */
  function AnnotationsOn(records: seq<Record>, season: string): seq<Record> {
    Selected(records, IsAnnotation, season)
  }

  /** An annotation record is filed under its own issue date, and only
      annotation records of that date are filed there. */
  lemma AnnotationsOnMembers(records: seq<Record>, season: string)
    ensures forall x :: x in AnnotationsOn(records, season) <==>
              x in records && IsAnnotationType(x.recordType) && x.issueDate == season
  {
    SelectedMembers(records, IsAnnotation, season);
  }

  /** `group_all_annotations_by_season`. */
  function GroupBySeason(records: seq<Record>): (g: Grouping)
    ensures Distinct(g.seasons)
    ensures forall s :: s in g.seasons <==> s in g.items
    ensures forall s :: s in g.items ==> g.items[s] == AnnotationsOn(records, s) && g.items[s] != []
    ensures forall s :: s !in g.items ==> AnnotationsOn(records, s) == []
  {
    GroupBy(records, IsAnnotation)
  }

  function Identity(s: string): string {
    s
  }

  /** The keys of the grouping in ascending order: each date that has an
      annotation record, once. */
  function SortedSeasons(records: seq<Record>): (r: seq<string>)
    ensures Distinct(r) && SortedBy(r, Identity)
    ensures forall s :: s in r <==> AnnotationsOn(records, s) != []
  {
    var g := GroupBySeason(records);
    var r := SortBy(g.seasons, Identity);
    PermutationKeepsDistinct(g.seasons, r);
    assert forall s :: s in r <==> s in multiset(g.seasons);
    r
  }

  /** The file name of a digest: every `/` made `_`, then every space
      removed. A season without spaces keeps its length, and each of its
      characters stays in place, a `/` turned into `_`. */
  function SeasonFileName(season: string): (r: string)
    ensures r == DropChar(MapChar(season, '/', '_'), ' ')
    ensures ' ' !in season ==>
              |r| == |season| && forall i :: 0 <= i < |season| ==> r[i] == (if season[i] == '/' then '_' else season[i])
    ensures '/' !in r && ' ' !in r
    ensures |r| <= |season|
    ensures '/' !in season && ' ' !in season ==> r == season
  {
    var slashless := Replace(season, "/", "_");
    ReplaceCharRemoves(season, '/', "_");
    ReplaceCharRemoves(slashless, ' ', "");
    ReplaceKeepsOut(slashless, " ", "", '/');
    ContainsChar(season, '/');
    ContainsChar(slashless, ' ');
    ReplaceCharByChar(season, '/', '_');
    ReplaceCharByNothing(slashless, ' ');
    SpacelessKept(season);
    Replace(slashless, " ", "")
  }

  lemma SpacelessKept(season: string)
    ensures ' ' !in season ==> DropChar(MapChar(season, '/', '_'), ' ') == MapChar(season, '/', '_')
  {
    if ' ' !in season {
      DropCharAbsent(MapChar(season, '/', '_'), ' ');
    }
  }

  /** The annotation templates of the given records, one after the other. */
  function DigestBody(items: seq<Record>): seq<Block>
    decreases |items|
  {
    if items == [] then [] else AnnotationTemplate(items[0]) + DigestBody(items[1..])
  }

  /** A digest body has no banner. */
  lemma {:induction false} DigestBodyBanners(items: seq<Record>)
    ensures CountStyle(DigestBody(items), Announcement) == 0
    decreases |items|
  {
    if items != [] {
      DigestBodyBanners(items[1..]);
      AnnotationTemplateCount(items[0], Announcement, 20);
      CountStyleAppend(AnnotationTemplate(items[0]), DigestBody(items[1..]), Announcement);
    }
  }

  /** A digest body holds one citation per record when none of the records
      is an Editorial or an Interview. */
  lemma {:induction false} DigestBodyCitations(items: seq<Record>)
    requires forall k :: 0 <= k < |items| ==> !IsEditorialOrInterview(items[k].recordType)
    ensures CountStyle(DigestBody(items), Citation) == |items|
    decreases |items|
  {
    if items != [] {
      DigestBodyCitations(items[1..]);
      AnnotationTemplateCount(items[0], Citation, 20);
      CountStyleAppend(AnnotationTemplate(items[0]), DigestBody(items[1..]), Citation);
    }
  }

  /** An annotation record is never treated as an Editorial or an Interview:
      the stripped lower-case type has ten letters, those names nine. */
  lemma AnnotationIsNotEditorialNorInterview(recordType: string)
    ensures IsAnnotationType(recordType) ==> !IsEditorialOrInterview(recordType)
  {
    assert |Strip(Lower(recordType))| <= |recordType|;
  }

  const DigestHeader: seq<Block> := [Para(Announcement, "ANNOTATIONS"), Spacer(10)]

  function TitleKey(rec: Record): string {
    rec.title
  }

  /** `do_an_annotation_season`: one `ANNOTATIONS` banner and a 0.1in spacer,
      then the annotation template of every record, sorted stably by title
      (records with equal titles keep their order in `items`, the order the
      grouping met them), under the season's file name. */
  function AnnotationDigest(season: string, items: seq<Record>): (r: Document)
    ensures r.name == SeasonFileName(season)
    ensures exists sorted :: StablySorted(sorted, items, TitleKey) && r.blocks == DigestHeader + DigestBody(sorted)
  {
    var sorted := SortBy(items, TitleKey);
    assert StablySorted(sorted, items, TitleKey);
    Document(SeasonFileName(season), DigestHeader + DigestBody(sorted))
  }

  /** A permutation of annotation records holds no Editorial and no
      Interview. */
  lemma SortedAnnotations(items: seq<Record>, sorted: seq<Record>)
    requires multiset(sorted) == multiset(items)
    requires forall k :: 0 <= k < |items| ==> IsAnnotationType(items[k].recordType)
    ensures forall k :: 0 <= k < |sorted| ==> !IsEditorialOrInterview(sorted[k].recordType)
  {
    forall k | 0 <= k < |sorted|
      ensures !IsEditorialOrInterview(sorted[k].recordType)
    {
      assert sorted[k] in multiset(items);
      var j :| 0 <= j < |items| && items[j] == sorted[k];
      AnnotationIsNotEditorialNorInterview(items[j].recordType);
    }
  }

  /** A digest has exactly one banner. */
  lemma AnnotationDigestBanner(season: string, items: seq<Record>)
    ensures CountStyle(AnnotationDigest(season, items).blocks, Announcement) == 1
  {
    var body := DigestBody(SortBy(items, TitleKey));
    DigestBodyBanners(SortBy(items, TitleKey));
    CountStyleAppend(DigestHeader, body, Announcement);
    assert DigestHeader[1..][1..] == [];
  }

  /** Over annotation records only, a digest holds one citation per record. */
  lemma AnnotationDigestCitations(season: string, items: seq<Record>)
    requires forall k :: 0 <= k < |items| ==> IsAnnotationType(items[k].recordType)
    ensures CountStyle(AnnotationDigest(season, items).blocks, Citation) == |items|
  {
    var sorted := SortBy(items, TitleKey);
    var body := DigestBody(sorted);
    SortedAnnotations(items, sorted);
    DigestBodyCitations(sorted);
    CountStyleAppend(DigestHeader, body, Citation);
    assert DigestHeader[1..][1..] == [];
  }

  /** Every date of the sorted season list has its group, and the group is
      that date's annotation records. */
  lemma GroupOfSortedSeason(records: seq<Record>, k: int)
    requires 0 <= k < |SortedSeasons(records)|
    ensures var s := SortedSeasons(records)[k];
            s in GroupBySeason(records).items && GroupBySeason(records).items[s] == AnnotationsOn(records, s)
  {
    var s := SortedSeasons(records)[k];
    assert s in SortedSeasons(records);
  }

  /** `do_annotation_types`: one digest per date that has annotation records,
      in ascending date order, each over exactly that date's annotation
      records, taken from the grouping. */
  function AnnotationDocuments(records: seq<Record>): (docs: seq<Document>)
    ensures var seasons := SortedSeasons(records);
            && |docs| == |seasons|
            && forall k :: 0 <= k < |docs| ==>
                 docs[k] == AnnotationDigest(seasons[k], AnnotationsOn(records, seasons[k]))
  {
    var g := GroupBySeason(records);
    var seasons := SortedSeasons(records);
    forall k | 0 <= k < |seasons|
      ensures seasons[k] in g.items && g.items[seasons[k]] == AnnotationsOn(records, seasons[k])
    {
      GroupOfSortedSeason(records, k);
    }
    seq(|seasons|, k requires 0 <= k < |seasons| => AnnotationDigest(seasons[k], g.items[seasons[k]]))
  }

  // ---------------------------------------------------------------------
  // Normal documents

  /** The `do_normal_pdfs` filter: the type is not "annotation" in lower
      case (no stripping), and no finished document exists for the id. */
  predicate NeedsNormalDocument(rec: Record, built: string -> bool) {
    Lower(rec.recordType) != "annotation" && !built(rec.id)
  }

  /** The records `do_normal_pdfs` lays out: exactly those that pass the
      filter, in input order. */
  function ToBuild(records: seq<Record>, built: string -> bool): (r: seq<Record>)
    ensures |r| <= |records|
    ensures forall rec :: rec in r <==> rec in records && NeedsNormalDocument(rec, built)
    decreases |records|
  {
    if records == [] then []
    else
      var rest := ToBuild(records[1..], built);
      assert forall x :: x in records <==> x == records[0] || x in records[1..];
      if NeedsNormalDocument(records[0], built) then [records[0]] + rest else rest
  }

  /** The filter keeps input order: it works record by record, a record
      surviving exactly when it passes, and filtering a concatenation
      concatenates the filtered halves. */
  lemma {:induction false} ToBuildInOrder(a: seq<Record>, b: seq<Record>, built: string -> bool)
    ensures ToBuild(a + b, built) == ToBuild(a, built) + ToBuild(b, built)
    decreases |a|
  {
    if a == [] {
      assert a + b == b;
    } else {
      var x, t := a[0], a[1..];
      assert a == [x] + t;
      assert a + b == [x] + (t + b);
      ToBuildCons(x, t, built);
      ToBuildCons(x, t + b, built);
      ToBuildInOrder(t, b, built);
      var h := if NeedsNormalDocument(x, built) then [x] else [];
      AppendAfterHead(h, ToBuild(t, built), ToBuild(b, built), ToBuild(a, built), ToBuild(a + b, built));
    }
  }

  lemma AppendAfterHead<T>(h: seq<T>, t: seq<T>, u: seq<T>, v: seq<T>, w: seq<T>)
    requires v == h + t && w == h + (t + u)
    ensures w == v + u
  {
  }

  lemma ToBuildCons(x: Record, rest: seq<Record>, built: string -> bool)
    ensures ToBuild([x] + rest, built) == (if NeedsNormalDocument(x, built) then [x] else []) + ToBuild(rest, built)
  {
    assert ([x] + rest)[1..] == rest;
  }

  /** A single record survives exactly when it passes the filter. */
  lemma ToBuildOne(rec: Record, built: string -> bool)
    ensures ToBuild([rec], built) == if NeedsNormalDocument(rec, built) then [rec] else []
  {
    assert [rec][1..] == [];
  }

  /** `do_normal_pdfs`: a normal document, named by the record's id, for
      every record to build. The existence check is the predicate `built`. */
  function NormalDocuments(records: seq<Record>, built: string -> bool): (r: seq<Document>)
    ensures |r| <= |records|
    ensures forall d :: d in r <==>
              exists rec :: rec in records && NeedsNormalDocument(rec, built) && d == NormalDocument(rec)
  {
    var todo := ToBuild(records, built);
    var r := seq(|todo|, k requires 0 <= k < |todo| => NormalDocument(todo[k]));
    DocumentsOfEach(todo, r);
    r
  }

  /** Documents come out in the order of their records: the documents of a
      concatenation are those of each half, one after the other. */
  lemma NormalDocumentsInOrder(a: seq<Record>, b: seq<Record>, built: string -> bool)
    ensures NormalDocuments(a + b, built) == NormalDocuments(a, built) + NormalDocuments(b, built)
  {
    ToBuildInOrder(a, b, built);
    MapAppend(ToBuild(a, built), ToBuild(b, built),
              NormalDocuments(a, built), NormalDocuments(b, built), NormalDocuments(a + b, built), NormalDocument);
  }

  /** Mapping `f` over a concatenation maps each half. */
  lemma MapAppend<A, B>(s: seq<A>, t: seq<A>, x: seq<B>, y: seq<B>, r: seq<B>, f: A -> B)
    requires |x| == |s| && forall k :: 0 <= k < |s| ==> x[k] == f(s[k])
    requires |y| == |t| && forall k :: 0 <= k < |t| ==> y[k] == f(t[k])
    requires |r| == |s + t| && forall k :: 0 <= k < |s + t| ==> r[k] == f((s + t)[k])
    ensures r == x + y
  {
    forall k | 0 <= k < |r|
      ensures r[k] == (x + y)[k]
    {
      if k < |s| {
        assert (s + t)[k] == s[k];
      } else {
        assert (s + t)[k] == t[k - |s|];
      }
    }
  }

  /** A single record gives its one document exactly when it passes the
      filter. */
  lemma NormalDocumentOfOne(rec: Record, built: string -> bool)
    ensures NormalDocuments([rec], built) == if NeedsNormalDocument(rec, built) then [NormalDocument(rec)] else []
  {
    ToBuildOne(rec, built);
  }

  /** The normal document of a record: its template, named by its id. */
  function NormalDocument(rec: Record): Document {
    Document(rec.id, NormalTemplate(rec))
  }

  lemma DocumentsOfEach(todo: seq<Record>, docs: seq<Document>)
    requires |docs| == |todo| && forall k :: 0 <= k < |todo| ==> docs[k] == NormalDocument(todo[k])
    ensures forall d :: d in docs <==> exists rec :: rec in todo && d == NormalDocument(rec)
  {
    forall d | d in docs
      ensures exists rec :: rec in todo && d == NormalDocument(rec)
    {
      var k :| 0 <= k < |docs| && docs[k] == d;
      assert todo[k] in todo;
    }
    forall rec | rec in todo
      ensures NormalDocument(rec) in docs
    {
      var k :| 0 <= k < |todo| && todo[k] == rec;
      assert docs[k] == NormalDocument(rec);
    }
  }

  /** A second run, once every record built by the first run is reported as
      built (and everything built before still is), builds nothing. */
  lemma NormalDocumentsSettle(records: seq<Record>, built: string -> bool, rebuilt: string -> bool)
    requires forall id :: built(id) ==> rebuilt(id)
    requires forall rec :: rec in ToBuild(records, built) ==> rebuilt(rec.id)
    ensures ToBuild(records, rebuilt) == []
  {
    forall rec | rec in records
      ensures !NeedsNormalDocument(rec, rebuilt)
    {
      if NeedsNormalDocument(rec, built) {
        assert rec in ToBuild(records, built);
      }
    }
    if ToBuild(records, rebuilt) != [] {
      assert ToBuild(records, rebuilt)[0] in ToBuild(records, rebuilt);
    }
  }

  lemma LowerPaddedAnnotation()
    ensures Lower("Annotation ") == "annotation "
  {
  }

  lemma StripPaddedAnnotation(s: string)
    requires s == "annotation "
    ensures Strip(s) == "annotation"
  {
    assert !IsSpace(s[0]);
    assert LStrip(s) == s;
    var r := RStrip(s);
    assert !IsSpace(s[9]) && IsSpace(s[10]);
    assert |r| == 10;
    assert r == s[..10];
  }

  /** The two filters disagree on padded types: a record typed "Annotation "
      is grouped as an annotation and also gets a normal document. */
  lemma PaddedAnnotationTakesBothPaths(rec: Record, built: string -> bool)
    requires rec.recordType == "Annotation " && !built(rec.id)
    ensures IsAnnotationType(rec.recordType)
    ensures NeedsNormalDocument(rec, built)
  {
    LowerPaddedAnnotation();
    StripPaddedAnnotation(Lower(rec.recordType));
  }

  /** Without surrounding blanks the two filters agree: every annotation
      record is left out of the normal documents. */
  lemma NormalDocumentsSkipAnnotations(rec: Record, built: string -> bool)
    requires IsAnnotationType(rec.recordType)
    requires rec.recordType == "" || (!IsSpace(rec.recordType[0]) && !IsSpace(rec.recordType[|rec.recordType| - 1]))
    ensures !NeedsNormalDocument(rec, built)
  {
    var l := Lower(rec.recordType);
    assert l == "" || (!IsSpace(l[0]) && !IsSpace(l[|l| - 1]));
    assert LStrip(l) == l;
    assert RStrip(l) == l;
  }
}
