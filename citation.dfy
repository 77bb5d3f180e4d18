/** The bibliographic citation string of one article
    (utils.py, `format_article_string_std`). */
module Citation {
  import opened Json
  import opened Text
  import opened SearchResults

  /** The marker that stands for the authors after the third ("et al."). */
  const EtAl: string := "и др."

  /** The author list as printed: commas removed from every name, and after the
      third name the rest replaced by the marker. */
  function FormatAuthors(authors: seq<string>): (r: seq<string>)
    ensures |authors| <= 3 ==> |r| == |authors|
    ensures |authors| > 3 ==> |r| == 4 && r[3] == EtAl
    ensures forall i :: 0 <= i < |r| && i < 3 ==> r[i] == RemoveCommas(authors[i]) && ',' !in r[i]
  {
    var cleaned := RemoveCommasAll(authors);
    if |cleaned| > 3 then cleaned[..3] + [EtAl] else cleaned
  }

  /** `[author.replace(",", "") for author in authors]`. */
  function RemoveCommasAll(authors: seq<string>): (r: seq<string>)
    ensures |r| == |authors|
    ensures forall i :: 0 <= i < |r| ==> r[i] == RemoveCommas(authors[i])
  {
    if |authors| == 0 then [] else [RemoveCommas(authors[0])] + RemoveCommasAll(authors[1..])
  }

  /** `str(year)`, or "" when there is no cover year. */
  function YearText(year: Option<nat>): string
  {
    match year
    case None => ""
    case Some(y) => Decimal(y)
  }

  function IssuePart(issue: string): string
  {
    if issue != "" then "No. " + issue + ". " else ""
  }

  function PagesPart(pages: string): string
  {
    if pages != "" then "pp. " + pages + ". " else ""
  }

  /** The authors and the title, closed by " //" and a line break. */
  function Head(e: EntryData, authors: seq<string>): string
  {
    Join(FormatAuthors(authors), ", ") + " " + e.title + " //\n"
  }

  /** The journal, year and volume lines. */
  function Body(e: EntryData): string
  {
    " " + e.journal + ".\n" + " " + YearText(e.year) + "." + " Vol. " + e.vol + "." + " "
  }

  function DoiUrl(doi: string): string
  {
    "https://doi.org/" + doi
  }

  /** `format_article_string_std(entry_data, authors)`. */
  function FormatArticle(e: EntryData, authors: seq<string>): string
  {
    Head(e, authors) + Body(e) + IssuePart(e.issue) + PagesPart(e.pages) + DoiUrl(e.doi)
  }

  /** The citation opens with the printed authors and the title followed by " //" and a
      line break, and closes with the DOI resolver address followed by the DOI. */
  lemma FormatArticleFrame(e: EntryData, authors: seq<string>)
    ensures var r, head, tail := FormatArticle(e, authors),
                                 Join(FormatAuthors(authors), ", ") + " " + e.title + " //\n",
                                 "https://doi.org/" + e.doi;
            |head| + |tail| <= |r| && r[..|head|] == head && r[|r| - |tail|..] == tail
  {
    var head, tail := Head(e, authors), DoiUrl(e.doi);
    var mid := Body(e) + IssuePart(e.issue) + PagesPart(e.pages);
    assert FormatArticle(e, authors) == head + mid + tail;
    assert (head + mid + tail)[..|head|] == head;
  }

  /** The issue part "No. <issue>. " is present only for a non-empty issue: with the
      issue emptied, the citation is the same text with exactly that part removed. */
  lemma FormatArticleIssue(e: EntryData, authors: seq<string>)
    ensures e.issue == "" ==> IssuePart(e.issue) == ""
    ensures e.issue != "" ==>
              exists x, y :: FormatArticle(e, authors) == x + ("No. " + e.issue + ". ") + y
                             && FormatArticle(e.(issue := ""), authors) == x + y
  {
    if e.issue != "" {
      var e' := e.(issue := "");
      var x := Head(e, authors) + Body(e);
      var y := PagesPart(e.pages) + DoiUrl(e.doi);
      assert Head(e', authors) + Body(e') == x;
      assert FormatArticle(e, authors) == x + ("No. " + e.issue + ". ") + y;
      assert FormatArticle(e', authors) == x + y;
    }
  }

  /** Likewise the pages part "pp. <pages>. " is present only for non-empty pages. */
  lemma FormatArticlePages(e: EntryData, authors: seq<string>)
    ensures e.pages == "" ==> PagesPart(e.pages) == ""
    ensures e.pages != "" ==>
              exists x, y :: FormatArticle(e, authors) == x + ("pp. " + e.pages + ". ") + y
                             && FormatArticle(e.(pages := ""), authors) == x + y
  {
    if e.pages != "" {
      var e' := e.(pages := "");
      var x := Head(e, authors) + Body(e) + IssuePart(e.issue);
      var y := DoiUrl(e.doi);
      assert Head(e', authors) + Body(e') + IssuePart(e'.issue) == x;
      assert FormatArticle(e, authors) == x + ("pp. " + e.pages + ". ") + y;
      assert FormatArticle(e', authors) == x + y;
    }
  }

  /** With four or more authors only the first three are printed, then the marker. */
  lemma FormatAuthorsFour(a: string, b: string, c: string, d: string)
    ensures Join(FormatAuthors([a, b, c, d]), ", ")
            == RemoveCommas(a) + ", " + RemoveCommas(b) + ", " + RemoveCommas(c) + ", " + EtAl
  {
    var r := FormatAuthors([a, b, c, d]);
    var first := [RemoveCommas(a), RemoveCommas(b), RemoveCommas(c)];
    assert r == first + [EtAl];
    JoinSnoc(first, EtAl, ", ");
    JoinSmall(first, ", ");
  }
}
