/** One bibliographic record and the markup rules that both scripts apply to
    it in the same way: tag stripping, break rewriting, the title taken from
    the `Title` field, and the choice of authors. */
module Records {
  import opened PyStr

  /** One row of the tab-delimited source file. The fields are those of its
      header: ID, Record_type, Issue_date, Title, Headline, Sub_headline,
      Auth_1..Auth_3, Reviewer, Publisher, Pub_date, Price, ISBN and Review
      (the body text). */
  datatype Record = Record(
    id: string,
    recordType: string,
    issueDate: string,
    title: string,
    headline: string,
    subHeadline: string,
    auth1: string,
    auth2: string,
    auth3: string,
    reviewer: string,
    publisher: string,
    pubDate: string,
    price: string,
    isbn: string,
    review: string)

  // ---------------------------------------------------------------------
  // Record types. Each test keeps the case sensitivity of the script that
  // makes it.

  /** `Record_type in ('Editorial', 'Interview')` (exact spelling). */
  predicate IsEditorialOrInterview(recordType: string) {
    recordType == "Editorial" || recordType == "Interview"
  }

  /** `Record_type in ('Review', 'Classics')` (exact spelling): the author
      shown is the reviewer. */
  predicate UsesReviewer(recordType: string) {
    recordType == "Review" || recordType == "Classics"
  }

  /** `Record_type.lower().strip() == 'annotation'`, the grouping test. */
  predicate IsAnnotationType(recordType: string) {
    Strip(Lower(recordType)) == "annotation"
  }

  // ---------------------------------------------------------------------
  // Tag stripping

  const BoldBreakTags: seq<string> := ["<br>", "</br>", "<BR>", "</BR>", "<b>", "</b>", "<B>", "</B>"]
  const ParagraphBreakTags: seq<string> := ["<br>", "</br>", "<p>", "</p>", "<BR>", "</BR>"]

  /** `for i in tags: text = text.replace(i, '')`. */
  function RemoveEach(text: string, tags: seq<string>): (r: string)
    requires forall k :: 0 <= k < |tags| ==> |tags[k]| > 0
    ensures |r| <= |text|
    ensures r == text <==> forall k :: 0 <= k < |tags| ==> !Contains(text, tags[k])
    decreases |tags|
  {
    if tags == [] then text
    else
      var once := Replace(text, tags[0], "");
      var r := RemoveEach(once, tags[1..]);
      assert forall k :: 1 <= k < |tags| ==> tags[1..][k - 1] == tags[k];
      r
  }

  /** `strip_bolds_breaks`: removes the line-break and bold tags, in both
      letter cases. It never lengthens the text, and returns it unchanged
      exactly when none of those tags occurs in it. */
  function StripBoldsBreaks(text: string): (r: string)
    ensures |r| <= |text|
    ensures r == text <==> forall k :: 0 <= k < |BoldBreakTags| ==> !Contains(text, BoldBreakTags[k])
  {
    RemoveEach(text, BoldBreakTags)
  }

  /** `strip_paragraphs_breaks`: removes the line-break tags in both cases and
      the lower-case paragraph tags. It never lengthens the text, and returns
      it unchanged exactly when none of those tags occurs in it. */
  function StripParagraphsBreaks(text: string): (r: string)
    ensures |r| <= |text|
    ensures r == text <==> forall k :: 0 <= k < |ParagraphBreakTags| ==> !Contains(text, ParagraphBreakTags[k])
  {
    RemoveEach(text, ParagraphBreakTags)
  }

  /** `.replace('<br>', '<p>').replace('</br>', '</p>')`: lower-case line breaks
      become paragraph breaks. It never lengthens the text nor empties it,
      and text without those tags is unchanged. */
  function BreaksToParagraphs(text: string): (r: string)
    ensures |r| <= |text| && (r == "" <==> text == "")
    ensures !Contains(text, "<br>") && !Contains(text, "</br>") ==> r == text
  {
    Replace(Replace(text, "<br>", "<p>"), "</br>", "</p>")
  }

  /** Body text as an editor writes it: plain pieces with a `<p>` or a `<br>`
      between each two. */
  function Tagged(pieces: seq<string>, tags: seq<string>): string
    requires |pieces| == |tags| + 1
    decreases |tags|
  {
    if tags == [] then pieces[0]
    else pieces[0] + tags[0] + Tagged(pieces[1..], tags[1..])
  }

  /** No piece holds a tag opener, and every tag is a paragraph or a
      lower-case line break. */
  predicate PlainTagged(pieces: seq<string>, tags: seq<string>) {
    && |pieces| == |tags| + 1
    && (forall k :: 0 <= k < |pieces| ==> '<' !in pieces[k])
    && (forall k :: 0 <= k < |tags| ==> tags[k] == "<p>" || tags[k] == "<br>")
  }

  lemma ParagraphTagUnbordered()
    ensures Unbordered("<p>")
  {
    var t := "<p>";
    forall m | 0 < m < |t|
      ensures t[m..] != t[..|t| - m]
    {
      assert t[..|t| - m][0] == '<' && t[m..][0] != '<';
    }
  }

  lemma BreakTagUnbordered()
    ensures Unbordered("<br>")
  {
    var t := "<br>";
    forall m | 0 < m < |t|
      ensures t[m..] != t[..|t| - m]
    {
      assert t[..|t| - m][0] == '<' && t[m..][0] != '<';
    }
  }

  /** Text without `<` holds no tag. */
  lemma NoOpener(s: string, t: string)
    requires |t| > 0 && t[0] == '<' && '<' !in s
    ensures !Contains(s, t)
  {
    forall j
      ensures !OccursAt(s, t, j)
    {
      if 0 <= j && j + |t| <= |s| {
        assert s[j..j + |t|][0] == s[j];
      }
    }
  }

  /** A tag does not occur where no `<` is followed by its second character. */
  lemma NoTagAfterOpener(s: string, t: string)
    requires |t| >= 2 && t[0] == '<'
    requires forall j :: 0 <= j < |s| - 1 && s[j] == '<' ==> s[j + 1] != t[1]
    ensures !Contains(s, t)
  {
    forall j
      ensures !OccursAt(s, t, j)
    {
      if 0 <= j && j + |t| <= |s| {
        assert s[j..j + |t|][0] == s[j] && s[j..j + |t|][1] == s[j + 1];
      }
    }
  }

  /** In `p + "<p>" + rest` with a plain `p`, no tag other than `<p>` starts
      before `rest`. */
  lemma NothingBefore(p: string, rest: string, t: string)
    requires '<' !in p && |t| >= 2 && t[0] == '<' && t[1] != 'p'
    ensures forall j :: 0 <= j < |p + "<p>"| ==> !OccursAt(p + "<p>" + rest, t, j)
  {
    var s := p + "<p>" + rest;
    forall j | 0 <= j < |p| + 3
      ensures !OccursAt(s, t, j)
    {
      assert j + 1 < |s| ==> s[j] != '<' || s[j + 1] != t[1] by {
        if j < |p| {
          assert s[j] == p[j];
        }
      }
      if j + |t| <= |s| {
        assert s[j..j + |t|][0] == s[j] && s[j..j + |t|][1] == s[j + 1];
      }
    }
  }

  /** Rewriting the breaks of tagged text turns every tag into `<p>`. */
  lemma {:induction false} BreaksOfTagged(pieces: seq<string>, tags: seq<string>)
    requires PlainTagged(pieces, tags)
    ensures BreaksToParagraphs(Tagged(pieces, tags)) == Join(pieces, "<p>")
    decreases |tags|
  {
    var p := pieces[0];
    NoOpener(p, "<br>");
    NoOpener(p, "</br>");
    if tags != [] {
      var rest := Tagged(pieces[1..], tags[1..]);
      var once := Replace(rest, "<br>", "<p>");
      assert Replace(p + tags[0] + rest, "<br>", "<p>") == p + "<p>" + once by {
        if tags[0] == "<br>" {
          BreakTagUnbordered();
          FindAfterPiece(p, "<br>", rest);
          var s := p + "<br>" + rest;
          ReplaceAt(s, "<br>", "<p>", |p|);
          assert s[..|p|] == p && s[|p| + 4..] == rest;
        } else {
          NothingBefore(p, rest, "<br>");
          ReplaceSkips(p + "<p>", rest, "<br>", "<p>");
        }
      }
      NothingBefore(p, once, "</br>");
      ReplaceSkips(p + "<p>", once, "</br>", "</p>");
      BreaksOfTagged(pieces[1..], tags[1..]);
    }
  }

  /** Plain pieces joined by `<p>` hold no closing paragraph tag. */
  lemma {:induction false} PlainJoinHasNoClose(pieces: seq<string>)
    requires forall k :: 0 <= k < |pieces| ==> '<' !in pieces[k]
    ensures !Contains(Join(pieces, "<p>"), "</p>")
    decreases |pieces|
  {
    if |pieces| == 1 {
      NoOpener(pieces[0], "</p>");
    } else if |pieces| > 1 {
      var p := pieces[0];
      var rest := Join(pieces[1..], "<p>");
      var s := p + "<p>" + rest;
      PlainJoinHasNoClose(pieces[1..]);
      NothingBefore(p, rest, "</p>");
      assert s[|p| + 3..|s|] == rest;
      forall j | |p| + 3 <= j
        ensures !OccursAt(s, "</p>", j)
      {
        OccursInSlice(s, "</p>", |p| + 3, |s|, j - |p| - 3);
      }
    }
  }

  // ---------------------------------------------------------------------
  // Title sources

  /** The title parts taken from the `Title` field: bold and line-break tags
      stripped, the `EDITORIAL:` and `INTERVIEW:` labels removed, then split on
      `<p>` with empty pieces dropped. */
  function TitleFieldParts(title: string): (r: seq<string>)
    ensures forall k :: 0 <= k < |r| ==> r[k] != "" && !Contains(r[k], "<p>")
    ensures var cleaned := Replace(Replace(StripBoldsBreaks(title), "EDITORIAL:", ""), "INTERVIEW:", "");
            Concat(r) == Replace(cleaned, "<p>", "")
  {
    var cleaned := Replace(Replace(StripBoldsBreaks(title), "EDITORIAL:", ""), "INTERVIEW:", "");
    Parts(cleaned, "<p>")
  }

  /** The non-empty `<p>`-separated parts of a headline field. */
  function HeadlineParts(headline: string): (r: seq<string>)
    ensures forall k :: 0 <= k < |r| ==> r[k] != "" && !Contains(r[k], "<p>")
    ensures Concat(r) == Replace(headline, "<p>", "")
  {
    Parts(headline, "<p>")
  }

  /** A headline is cut at each `<p>`: the parts of two texts joined by a
      `<p>` are the parts of the first followed by those of the second. */
  lemma HeadlinePartsOfSeparated(a: string, b: string)
    ensures HeadlineParts(a + "<p>" + b) == HeadlineParts(a) + HeadlineParts(b)
  {
    ParagraphTagUnbordered();
    PartsOfSeparated(a, b, "<p>");
  }

  // ---------------------------------------------------------------------
  // Authors

  function AuthorFields(rec: Record): seq<string> {
    [rec.auth1, rec.auth2, rec.auth3]
  }

  function AllBreaksToParagraphs(names: seq<string>): (r: seq<string>)
    ensures |r| == |names|
    ensures forall k :: 0 <= k < |names| ==> r[k] == BreaksToParagraphs(names[k])
  {
    seq(|names|, k requires 0 <= k < |names| => BreaksToParagraphs(names[k]))
  }

  /** The loop `for author in fields: if author: authors.append(...)`. */
  function AddAuthors(authors: seq<string>, fields: seq<string>): seq<string>
    decreases |fields|
  {
    if fields == [] then authors
    else
      var next := if fields[0] != "" then authors + [BreaksToParagraphs(fields[0])] else authors;
      AddAuthors(next, fields[1..])
  }

  lemma {:induction false} AddAuthorsKeepsNonEmpty(authors: seq<string>, fields: seq<string>)
    ensures AddAuthors(authors, fields) == authors + AllBreaksToParagraphs(NonEmpty(fields))
    decreases |fields|
  {
    if fields != [] {
      AddAuthorsKeepsNonEmpty(if fields[0] != "" then authors + [BreaksToParagraphs(fields[0])] else authors, fields[1..]);
      if fields[0] != "" {
        assert NonEmpty(fields) == [fields[0]] + NonEmpty(fields[1..]);
      }
    }
  }

  /** `pick_authors` (and the author loop of `make_author_block`): for Review
      and Classics records the reviewer alone, if given; otherwise every
      non-empty `Auth_i` in order, with line breaks turned into paragraph
      breaks. At most three names, none of them empty. */
  function PickAuthors(rec: Record): (r: seq<string>)
    ensures |r| <= 3
    ensures forall k :: 0 <= k < |r| ==> r[k] != ""
    ensures UsesReviewer(rec.recordType) ==> r == (if rec.reviewer == "" then [] else [rec.reviewer])
    ensures !UsesReviewer(rec.recordType) ==> r == AllBreaksToParagraphs(NonEmpty(AuthorFields(rec)))
  {
    if !UsesReviewer(rec.recordType) then
      AddAuthorsKeepsNonEmpty([], AuthorFields(rec));
      AddAuthors([], AuthorFields(rec))
    else if rec.reviewer != "" then [rec.reviewer]
    else []
  }
}
