/** The command-line run of main.py: the search query built from the arguments, the
    handling of the first response, the walk over the result pages with the optional
    cap on the number of rows, and the report rows built from each entry. */
module Driver {
  import opened Json
  import opened Text
  import opened SearchResults
  import opened Citation
  import opened Metrics

  // ---------------------------------------------------------------------------
  // The search query
  // ---------------------------------------------------------------------------

  /** The parsed command-line arguments that shape the run. */
  datatype Args = Args(afId: Option<int>, year: Option<int>, rawQuery: string, maxFetch: Option<int>)

  /** `f"AF-ID({af_id})"`, or "" without an organisation id. */
  function AfIdPart(afId: Option<int>): (r: string)
    ensures r == "" <==> afId.None?
  {
    match afId
    case None => ""
    case Some(id) => "AF-ID(" + IntToString(id) + ")"
  }

  /** `f"PUBYEAR = {year}"`, or "" without a year. */
  function YearPart(year: Option<int>): (r: string)
    ensures r == "" <==> year.None?
  {
    match year
    case None => ""
    case Some(y) => "PUBYEAR = " + IntToString(y)
  }

  /** `[p for p in xs if p != ""]`. */
  function NonEmpty(xs: seq<string>): (r: seq<string>)
    ensures |r| <= |xs|
    ensures forall i :: 0 <= i < |r| ==> r[i] != ""
    ensures |r| == 0 <==> forall i :: 0 <= i < |xs| ==> xs[i] == ""
  {
    if |xs| == 0 then []
    else
      var rest := NonEmpty(xs[1..]);
      assert forall i :: 1 <= i < |xs| ==> xs[i] == xs[1..][i - 1];
      if xs[0] == "" then rest else [xs[0]] + rest
  }

  /** The query: the non-empty fragments joined with " AND "; None when every fragment
      is empty (the run stops with a message). */
  function BuildQuery(a: Args): (q: Option<string>)
    ensures q.None? <==> a.rawQuery == "" && a.afId.None? && a.year.None?
  {
    var xs := [a.rawQuery, AfIdPart(a.afId), YearPart(a.year)];
    var params := NonEmpty(xs);
    assert xs[0] == a.rawQuery && xs[1] == AfIdPart(a.afId) && xs[2] == YearPart(a.year);
    if |params| == 0 then None else Some(Join(params, " AND "))
  }

  /** The query for each combination of arguments: the fragments appear in the order raw
      query, organisation, year, each present one once, separated by " AND ". */
  lemma BuildQueryCases(a: Args)
    ensures var r, f, y := a.rawQuery, AfIdPart(a.afId), YearPart(a.year);
            && (r != "" && a.afId.None? && a.year.None? ==> BuildQuery(a) == Some(r))
            && (r == "" && a.afId.Some? && a.year.None? ==> BuildQuery(a) == Some(f))
            && (r == "" && a.afId.None? && a.year.Some? ==> BuildQuery(a) == Some(y))
            && (r != "" && a.afId.Some? && a.year.None? ==> BuildQuery(a) == Some(r + " AND " + f))
            && (r != "" && a.afId.None? && a.year.Some? ==> BuildQuery(a) == Some(r + " AND " + y))
            && (r == "" && a.afId.Some? && a.year.Some? ==> BuildQuery(a) == Some(f + " AND " + y))
            && (r != "" && a.afId.Some? && a.year.Some? ==> BuildQuery(a) == Some(r + " AND " + f + " AND " + y))
  {
    var r, f, y := a.rawQuery, AfIdPart(a.afId), YearPart(a.year);
    NonEmptyCons(y, []);
    NonEmptyCons(f, [y]);
    NonEmptyCons(r, [f, y]);
    assert [r] + [f, y] == [r, f, y] && [f] + [y] == [f, y] && [y] + [] == [y];
    JoinSmall(NonEmpty([r, f, y]), " AND ");
  }

  /** Filtering one more fragment in front. */
  lemma NonEmptyCons(x: string, xs: seq<string>)
    ensures NonEmpty([x] + xs) == (if x == "" then [] else [x]) + NonEmpty(xs)
  {
    assert ([x] + xs)[1..] == xs;
  }

  // ---------------------------------------------------------------------------
  // The first response
  // ---------------------------------------------------------------------------

  /** The statuses `raise_for_status` rejects (and for which `ok` is false). */
  predicate IsHttpError(status: int)
  {
    400 <= status < 600
  }

  /** How the run ends when it stops without writing a report. */
  datatype Exit =
    | EmptyQuery       // no query fragment
    | InvalidQuery     // status 400
    | BadApiKey        // status 401
    | QuotaExhausted   // status 429
    | OtherFailure     // any other failing status
    | NoResults        // the search found nothing

  /** The status check of main.py: None for a successful response, otherwise the
      message the run stops with. */
  function StatusExit(status: int): (x: Option<Exit>)
    ensures x.None? <==> !IsHttpError(status)
    ensures x == Some(InvalidQuery) <==> status == 400
    ensures x == Some(BadApiKey) <==> status == 401
    ensures x == Some(QuotaExhausted) <==> status == 429
    ensures x == Some(OtherFailure) <==> IsHttpError(status) && status != 400 && status != 401 && status != 429
  {
    if !IsHttpError(status) then None
    else if status == 400 then Some(InvalidQuery)
    else if status == 401 then Some(BadApiKey)
    else if status == 429 then Some(QuotaExhausted)
    else Some(OtherFailure)
  }

  // ---------------------------------------------------------------------------
  // Report rows
  // ---------------------------------------------------------------------------

  /** One cell of the report table. */
  datatype Cell =
    | StrCell(s: string)
    | IntCell(n: int)
    | JsonCell(v: Value)   // the CiteScore, as the metrics service delivered it
    | NaN                  // the quartile of an empty table

  /** The column headers of the report, in order. */
  const ReportColumns: seq<string> :=
    ["page_link", "scopus_id", "doi", "eid", "тип публикации", "citeScore", "квартиль", "год",
     "кол-во цитирований", "article full", "авторы", "название", "журнал", "текст о финансировании"]

  /** Everything the run learns about one search-result entry: the entry itself and what
      the metrics service, the ranking site and the document record page returned for it. */
  datatype Item = Item(
    entry: Payload,
    metrics: Value,
    journalLink: Option<string>,
    quartileTable: Option<seq<QuartileRow>>,
    authors: seq<string>,
    fundingText: string)

  /** `int(count) if count else 0`. */
  function CitedByCount(count: string): (r: Result<int>)
    ensures count == "" ==> r == Ok(0)
    ensures count != "" ==> (r.Ok? <==> ParseInt(count).Some?)
    ensures count != "" && r.Ok? ==> ParseInt(count) == Some(r.value)
  {
    if count == "" then Ok(0)
    else match ParseInt(count)
      case None => Err(BadInt(count))
      case Some(n) => Ok(n)
  }

  /** A citation count printed by `str` is read back as the same number. */
  lemma CitedByCountRoundTrip(n: int)
    ensures CitedByCount(IntToString(n)) == Ok(n)
  {
    ParseIntToString(n);
  }

  /** The fourteen cells of one report row. */
  function MakeRow(e: EntryData, score: Value, quartile: Option<string>, cited: int,
                   citation: string, authors: string, funding: string): seq<Cell>
  {
    [StrCell(e.docRecLink), StrCell(e.scopusId), StrCell(e.doi), StrCell(e.eid),
     StrCell(e.subtypeDescription), JsonCell(score),
     (match quartile case Some(q) => StrCell(q) case None => NaN),
     (match e.year case Some(y) => IntCell(y) case None => StrCell("")),
     IntCell(cited), StrCell(citation), StrCell(authors),
     StrCell(e.title), StrCell(e.journal), StrCell(funding)]
  }

  /** The body of the entry loop up to `data.append`: the entry is normalised, its
      CiteScore read and its quartile chosen, and its citation count converted; the
      first failure ends the run. */
  function RowOf(item: Item): (r: Result<seq<Cell>>)
    ensures r.Ok? ==> |r.value| == |ReportColumns|
  {
    var e :- CollectEntryData(item.entry);
    RowFrom(e, MaxQuartile(item.journalLink, item.quartileTable), item)
  }

  /** The row of an entry already normalised to `e`, whose journal has the quartile
      `quartile`. */
  function RowFrom(e: EntryData, quartile: Option<string>, item: Item): (r: Result<seq<Cell>>)
    ensures r.Ok? ==> |r.value| == 14
  {
    var score :- CiteScore(item.metrics);
    var cited :- CitedByCount(e.citedByCount);
    Ok(MakeRow(e, score, quartile, cited, FormatArticle(e, item.authors), Join(item.authors, ", "), item.fundingText))
  }

  /** A successful row starts with the identifiers of the normalised entry. */
  lemma RowIdentifiers(e: EntryData, quartile: Option<string>, item: Item)
    requires RowFrom(e, quartile, item).Ok?
    ensures var row := RowFrom(e, quartile, item).value;
            && row[0] == StrCell(e.docRecLink) && row[1] == StrCell(e.scopusId)
            && row[2] == StrCell(e.doi) && row[3] == StrCell(e.eid)
            && row[4] == StrCell(e.subtypeDescription)
  {
    assert CiteScore(item.metrics).Ok? && CitedByCount(e.citedByCount).Ok?;
  }

  /** The metric columns of a successful row: the CiteScore, and the quartile (NaN when
      the selection gives none, for an empty table). */
  lemma RowMetrics(e: EntryData, quartile: Option<string>, item: Item)
    requires RowFrom(e, quartile, item).Ok?
    ensures var row := RowFrom(e, quartile, item).value;
            && row[5] == JsonCell(CiteScore(item.metrics).value)
            && (row[6] == NaN <==> quartile.None?)
            && (quartile.Some? ==> row[6] == StrCell(quartile.value))
  {
  }

  /** The number columns of a successful row: the year as a number or "" without a cover
      date, and the citation count the entry's text denotes (0 when that text is empty). */
  lemma RowCounts(e: EntryData, quartile: Option<string>, item: Item)
    requires RowFrom(e, quartile, item).Ok?
    ensures var row := RowFrom(e, quartile, item).value;
            && (e.year.Some? ==> row[7] == IntCell(e.year.value))
            && (e.year.None? ==> row[7] == StrCell(""))
            && row[8].IntCell?
            && (e.citedByCount == "" ==> row[8].n == 0)
            && (e.citedByCount != "" ==> ParseInt(e.citedByCount) == Some(row[8].n))
  {
    assert CiteScore(item.metrics).Ok? && CitedByCount(e.citedByCount).Ok?;
  }

  /** The text columns of a successful row: the citation string, the authors joined with
      ", ", the title, the journal and the funding text. */
  lemma RowTexts(e: EntryData, quartile: Option<string>, item: Item)
    requires RowFrom(e, quartile, item).Ok?
    ensures var row := RowFrom(e, quartile, item).value;
            && row[9] == StrCell(FormatArticle(e, item.authors))
            && row[10] == StrCell(Join(item.authors, ", "))
            && row[11] == StrCell(e.title) && row[12] == StrCell(e.journal)
            && row[13] == StrCell(item.fundingText)
  {
  }

  /** The failures come in the order of the loop body: a malformed entry first, then a
      malformed metrics response, then a citation count that is not a number. These
      are the only failures: the "N/A" sentinels of the CiteScore and the quartile, and
      an empty quartile table, never stop a row from being written. */
  lemma RowOfFaults(item: Item)
    ensures var c := CollectEntryData(item.entry);
            && (c.Err? ==> RowOf(item) == Err(c.fault))
            && (c.Ok? && CiteScore(item.metrics).Err? ==> RowOf(item) == Err(CiteScore(item.metrics).fault))
            && (c.Ok? && CiteScore(item.metrics).Ok? && CitedByCount(c.value.citedByCount).Err? ==>
                  RowOf(item) == Err(BadInt(c.value.citedByCount)))
            && (RowOf(item).Ok? <==>
                  c.Ok? && CiteScore(item.metrics).Ok? && CitedByCount(c.value.citedByCount).Ok?)
  {
  }

  // ---------------------------------------------------------------------------
  // The page loop
  // ---------------------------------------------------------------------------

  /** The "search-results" object of one response. */
  datatype Page = Page(totalResults: string, entries: seq<Item>, links: seq<Payload>)

  /** How a run ends. */
  datatype Outcome =
    | Terminated(exit: Exit)          // stopped with a message, nothing written
    | Crashed(fault: Fault)           // an exception escaped
    | Report(rows: seq<seq<Cell>>)    // the report was written with these rows

  /** `results_count >= max_fetch`, checked after each appended row. */
  predicate CapReached(cap: Option<int>, count: int)
  {
    cap.Some? && count >= cap.value
  }

  /** After the last row: the next link is still looked up, and only its failure matters. */
  function Finish(links: seq<Payload>, rows: seq<seq<Cell>>): Outcome
  {
    match NextLink(links)
    case Err(f) => Crashed(f)
    case Ok(_) => Report(rows)
  }

  /** The rest of the page loop from entry `i` of page `k`, with `rows` already appended
      and `conv` turning an entry into its row (the run passes RowOf).
      `pages[k + 1]` is the response to the next link of page `k`; a run that follows a
      link past the last given page ends with NoPage. */
  function Consume(conv: Item -> Result<seq<Cell>>, pages: seq<Page>, k: nat, i: nat, cap: Option<int>, rows: seq<seq<Cell>>): (r: Outcome)
    requires k < |pages| && i <= |pages[k].entries|
    ensures !r.Terminated?
    decreases |pages| - k, |pages[k].entries| - i
  {
    var page := pages[k];
    if i < |page.entries| then
      match conv(page.entries[i])
      case Err(f) => Crashed(f)
      case Ok(row) =>
        if CapReached(cap, |rows| + 1) then Finish(page.links, rows + [row])
        else Consume(conv, pages, k, i + 1, cap, rows + [row])
    else
      match NextLink(page.links)
      case Err(f) => Crashed(f)
      case Ok(None) => Report(rows)
      case Ok(Some(_)) =>
        if k + 1 < |pages| then Consume(conv, pages, k + 1, 0, cap, rows) else Crashed(NoPage)
  }

  /** The whole run of main.py given the arguments, the status of the first response and
      the pages the run receives (the first one from the search, the others from the
      next links), with `conv` building the row of an entry. main.py builds rows with
      RowOf (see Run); the properties below hold for any `conv`. */
  function RunSpec(conv: Item -> Result<seq<Cell>>, a: Args, status: int, pages: seq<Page>): Outcome
    requires |pages| > 0
  {
    match BuildQuery(a)
    case None => Terminated(EmptyQuery)
    case Some(_) =>
      if IsHttpError(status) then Crashed(HttpStatus(status))
      else match StatusExit(status)
        case Some(x) => Terminated(x)
        case None =>
          match ParseInt(pages[0].totalResults)
          case None => Crashed(BadInt(pages[0].totalResults))
          case Some(total) =>
            if total == 0 then Terminated(NoResults)
            else Consume(conv, pages, 0, 0, a.maxFetch, [])
  }

  /** `main`: the query, the first response, then the page loop with its inner entry loop,
      the cap check after every row and the next-link lookup after every page. */
  method Run(a: Args, status: int, pages: seq<Page>) returns (out: Outcome)
    requires |pages| > 0
    ensures out == RunSpec(RowOf, a, status, pages)
  {
    var query := BuildQuery(a);
    if query.None? {
      return Terminated(EmptyQuery);
    }
    // fetch_query calls raise_for_status, so a failing status is an exception here and
    // the status messages of main.py are never reached (RunStatusMessagesUnreachable)
    if IsHttpError(status) {
      return Crashed(HttpStatus(status));
    }
    var total := ParseInt(pages[0].totalResults);
    if total.None? {
      return Crashed(BadInt(pages[0].totalResults));
    }
    if total.value == 0 {
      return Terminated(NoResults);
    }
    var data: seq<seq<Cell>> := [];
    var pageCount := 1;
    var resultsCount := 0;
    var runFetch := true;
    var k := 0;
    var page := pages[0];
    ghost var spec := RunSpec(RowOf, a, status, pages);
    while runFetch
      invariant 0 <= k < |pages| && page == pages[k]
      invariant pageCount == k + 1 && resultsCount == |data|
      invariant runFetch
      invariant spec == Consume(RowOf, pages, k, 0, a.maxFetch, data)
      decreases |pages| - k
    {
      var entries := page.entries;
      var i := 0;
      while i < |entries|
        invariant 0 <= i <= |entries|
        invariant resultsCount == |data| && runFetch
        invariant spec == Consume(RowOf, pages, k, i, a.maxFetch, data)
      {
        var row := RowOf(entries[i]);
        if row.Err? {
          return Crashed(row.fault);
        }
        ghost var step := Consume(RowOf, pages, k, i + 1, a.maxFetch, data + [row.value]);
        assert !CapReached(a.maxFetch, |data| + 1) ==> spec == step;
        data := data + [row.value];
        resultsCount := resultsCount + 1;
        if a.maxFetch.Some? && resultsCount >= a.maxFetch.value {
          runFetch := false;
          break;
        }
        i := i + 1;
      }
      var next := FindNextLink(page.links);
      if next.Err? {
        return Crashed(next.fault);
      }
      if runFetch && next.value.Some? {
        if k + 1 == |pages| {
          return Crashed(NoPage);
        }
        k := k + 1;
        page := pages[k];
        pageCount := pageCount + 1;
      } else {
        break;
      }
    }
    return Report(data);
  }

  // ---------------------------------------------------------------------------
  // Properties of the page loop
  // ---------------------------------------------------------------------------

  /** All entries of the pages, in page order. */
  function Flatten(pages: seq<Page>): seq<Item>
  {
    if |pages| == 0 then [] else pages[0].entries + Flatten(pages[1..])
  }

  /** The entries the loop has not reached yet when it stands at entry `i` of page `k`. */
  function Remaining(pages: seq<Page>, k: nat, i: nat): seq<Item>
    requires k < |pages| && i <= |pages[k].entries|
  {
    pages[k].entries[i..] + Flatten(pages[k + 1..])
  }

  /** The rows the report ends with are the rows already appended followed by the rows of
      the next entries, in order, one per entry. */
  lemma {:induction false} ConsumeRows(conv: Item -> Result<seq<Cell>>, pages: seq<Page>, k: nat, i: nat, cap: Option<int>, rows: seq<seq<Cell>>)
    requires k < |pages| && i <= |pages[k].entries|
    ensures var out, rest := Consume(conv, pages, k, i, cap, rows), Remaining(pages, k, i);
            out.Report? ==>
              && |rows| <= |out.rows| <= |rows| + |rest|
              && out.rows[..|rows|] == rows
              && forall j :: |rows| <= j < |out.rows| ==> conv(rest[j - |rows|]) == Ok(out.rows[j])
    decreases |pages| - k, |pages[k].entries| - i, 1
  {
    var page := pages[k];
    var rest := Remaining(pages, k, i);
    var out := Consume(conv, pages, k, i, cap, rows);
    if i < |page.entries| {
      var r := conv(page.entries[i]);
      if r.Ok? && out.Report? {
        if !CapReached(cap, |rows| + 1) {
          ConsumeRowsStep(conv, pages, k, i, cap, rows);
        } else {
          RemainingStep(pages, k, i);
          assert out.rows == rows + [r.value];
        }
      }
    } else if NextLink(page.links).Ok? && NextLink(page.links).value.Some? && k + 1 < |pages| {
      assert page.entries[i..] == [];
      assert pages[k + 1..][1..] == pages[k + 2..];
      assert Remaining(pages, k + 1, 0) == rest;
      ConsumeRows(conv, pages, k + 1, 0, cap, rows);
    }
  }

  /** The step of ConsumeRows at an entry whose row is appended without reaching the cap. */
  lemma {:induction false} ConsumeRowsStep(conv: Item -> Result<seq<Cell>>, pages: seq<Page>, k: nat, i: nat, cap: Option<int>, rows: seq<seq<Cell>>)
    requires k < |pages| && i < |pages[k].entries|
    requires conv(pages[k].entries[i]).Ok? && !CapReached(cap, |rows| + 1)
    ensures var out, rest := Consume(conv, pages, k, i, cap, rows), Remaining(pages, k, i);
            out.Report? ==>
              && |rows| <= |out.rows| <= |rows| + |rest|
              && out.rows[..|rows|] == rows
              && forall j :: |rows| <= j < |out.rows| ==> conv(rest[j - |rows|]) == Ok(out.rows[j])
    decreases |pages| - k, |pages[k].entries| - i, 0
  {
    var rest := Remaining(pages, k, i);
    var tail := Remaining(pages, k, i + 1);
    RemainingStep(pages, k, i);
    var row := conv(pages[k].entries[i]).value;
    var n := |rows|;
    var out := Consume(conv, pages, k, i + 1, cap, rows + [row]);
    assert Consume(conv, pages, k, i, cap, rows) == out;
    ConsumeRows(conv, pages, k, i + 1, cap, rows + [row]);
    if out.Report? {
      ShiftRows(conv, rows, row, pages[k].entries[i], tail, out.rows);
    }
  }

  /** Rows that continue `rows + [row]` with the rows of `tail` continue `rows` with the
      rows of `[x] + tail`, when `row` is the row of `x`. */
  lemma ShiftRows(conv: Item -> Result<seq<Cell>>, rows: seq<seq<Cell>>, row: seq<Cell>, x: Item, tail: seq<Item>,
                  out: seq<seq<Cell>>)
    requires conv(x) == Ok(row)
    requires |rows| + 1 <= |out| <= |rows| + 1 + |tail| && out[..|rows| + 1] == rows + [row]
    requires forall j :: |rows| + 1 <= j < |out| ==> conv(tail[j - (|rows| + 1)]) == Ok(out[j])
    ensures out[..|rows|] == rows
    ensures forall j :: |rows| <= j < |out| ==> conv(([x] + tail)[j - |rows|]) == Ok(out[j])
  {
    var n := |rows|;
    assert out[..n] == (rows + [row])[..n];
    forall j | n <= j < |out|
      ensures conv(([x] + tail)[j - n]) == Ok(out[j])
    {
      if j == n {
        assert out[j] == (rows + [row])[n];
      } else {
        assert ([x] + tail)[j - n] == tail[j - (n + 1)];
      }
    }
  }

  /** With a cap of m rows the report holds at most m rows, and at least one row is
      always taken before the cap is checked. */
  lemma {:induction false} ConsumeCap(conv: Item -> Result<seq<Cell>>, pages: seq<Page>, k: nat, i: nat, m: int, rows: seq<seq<Cell>>)
    requires k < |pages| && i <= |pages[k].entries|
    requires |rows| < Max(m, 1)
    ensures var out := Consume(conv, pages, k, i, Some(m), rows);
            out.Report? ==> |out.rows| <= Max(m, 1)
    decreases |pages| - k, |pages[k].entries| - i
  {
    var page := pages[k];
    if i < |page.entries| {
      var r := conv(page.entries[i]);
      if r.Ok? && !CapReached(Some(m), |rows| + 1) {
        ConsumeCap(conv, pages, k, i + 1, m, rows + [r.value]);
      }
    } else if NextLink(page.links).Ok? && NextLink(page.links).value.Some? && k + 1 < |pages| {
      ConsumeCap(conv, pages, k + 1, 0, m, rows);
    }
  }

  function Max(a: int, b: int): int
  {
    if a < b then b else a
  }

  function Min(a: int, b: int): int
  {
    if a < b then a else b
  }

  /** Every page but the last names a next page, the last names none, and every link
      lookup succeeds. */
  predicate Chained(pages: seq<Page>)
  {
    && (forall k :: 0 <= k < |pages| - 1 ==> NextLink(pages[k].links).Ok? && NextLink(pages[k].links).value.Some?)
    && (|pages| > 0 ==> NextLink(pages[|pages| - 1].links) == Ok(None))
  }

  /** Every entry converts to a row. */
  predicate AllConvert(conv: Item -> Result<seq<Cell>>, items: seq<Item>)
  {
    forall j :: 0 <= j < |items| ==> conv(items[j]).Ok?
  }

  /** The rows of entries that all convert. */
  function Rows(conv: Item -> Result<seq<Cell>>, items: seq<Item>): (r: seq<seq<Cell>>)
    requires AllConvert(conv, items)
    ensures |r| == |items|
  {
    if |items| == 0 then []
    else
      assert forall j :: 1 <= j < |items| ==> items[j] == items[1..][j - 1];
      [conv(items[0]).value] + Rows(conv, items[1..])
  }

  /** Before the first entry, every entry remains. */
  lemma RemainingAll(pages: seq<Page>)
    requires |pages| > 0
    ensures Remaining(pages, 0, 0) == Flatten(pages)
  {
    assert pages[0].entries[0..] == pages[0].entries;
    assert pages[1..] == pages[0 + 1..];
  }

  /** Row `j` is the row of entry `j`. */
  lemma {:induction false} RowsAt(conv: Item -> Result<seq<Cell>>, items: seq<Item>)
    requires AllConvert(conv, items)
    ensures forall j :: 0 <= j < |items| ==> conv(items[j]) == Ok(Rows(conv, items)[j])
  {
    if |items| > 0 {
      assert forall j :: 1 <= j < |items| ==> items[j] == items[1..][j - 1];
      RowsAt(conv, items[1..]);
    }
  }

  /** What the chain says about the next link of page `k`. */
  lemma ChainedLink(pages: seq<Page>, k: nat)
    requires Chained(pages) && k < |pages|
    ensures NextLink(pages[k].links).Ok?
    ensures NextLink(pages[k].links).value.Some? <==> k + 1 < |pages|
  {
  }

  /** One more row under the cap: the last one when the cap is reached, otherwise one of
      the rows still to take. */
  lemma TakeStep(cap: Option<int>, count: int, n: int)
    requires n >= 1 && count >= 0
    requires cap.Some? ==> count < Max(cap.value, 1)
    ensures CapReached(cap, count + 1) ==> Take(cap, count, n) == 1
    ensures !CapReached(cap, count + 1) ==>
              Take(cap, count, n) == Take(cap, count + 1, n - 1) + 1
              && (cap.Some? ==> count + 1 < Max(cap.value, 1))
  {
  }

  /** Stepping over one entry: it is the first of the remaining entries. */
  lemma RemainingStep(pages: seq<Page>, k: nat, i: nat)
    requires k < |pages| && i < |pages[k].entries|
    ensures Remaining(pages, k, i) == [pages[k].entries[i]] + Remaining(pages, k, i + 1)
  {
    var e := pages[k].entries;
    assert e[i..] == [e[i]] + e[i + 1..];
  }

  /** The rows of one more entry in front. */
  lemma RowsCons(conv: Item -> Result<seq<Cell>>, x: Item, xs: seq<Item>)
    requires AllConvert(conv, [x] + xs)
    ensures conv(x).Ok? && AllConvert(conv, xs)
    ensures Rows(conv, [x] + xs) == [conv(x).value] + Rows(conv, xs)
  {
    assert ([x] + xs)[0] == x;
    assert ([x] + xs)[1..] == xs;
    assert forall j :: 0 <= j < |xs| ==> xs[j] == ([x] + xs)[j + 1];
  }

  /** How many of `n` remaining rows a run takes after `count` rows under the cap. */
  function Take(cap: Option<int>, count: int, n: int): int
  {
    match cap
    case None => n
    case Some(m) => Min(n, Max(m, 1) - count)
  }

  /** When every entry converts and the pages are chained, the loop appends the rows of
      the remaining entries until the cap is reached or the entries run out. */
  lemma {:induction false} ConsumeAll(conv: Item -> Result<seq<Cell>>, pages: seq<Page>, k: nat, i: nat, cap: Option<int>, rows: seq<seq<Cell>>)
    requires k < |pages| && i <= |pages[k].entries|
    requires Chained(pages)
    requires AllConvert(conv, Remaining(pages, k, i))
    requires cap.Some? ==> |rows| < Max(cap.value, 1)
    ensures var all := Rows(conv, Remaining(pages, k, i));
            Consume(conv, pages, k, i, cap, rows) == Report(rows + all[..Take(cap, |rows|, |all|)])
    decreases |pages| - k, |pages[k].entries| - i, 2
  {
    var page := pages[k];
    var rest := Remaining(pages, k, i);
    if i < |page.entries| {
      ConsumeAllEntry(conv, pages, k, i, cap, rows);
    } else {
      var all := Rows(conv, rest);
      assert page.entries[i..] == [];
      ChainedLink(pages, k);
      if k + 1 < |pages| {
        assert pages[k + 1..][1..] == pages[k + 2..];
        assert Remaining(pages, k + 1, 0) == rest;
        ConsumeAll(conv, pages, k + 1, 0, cap, rows);
        assert Consume(conv, pages, k, i, cap, rows) == Consume(conv, pages, k + 1, 0, cap, rows);
      } else {
        assert pages[k + 1..] == [];
        assert all == [];
        assert Take(cap, |rows|, 0) == 0;
        assert rows + all[..0] == rows;
      }
    }
  }

  /** The step of ConsumeAll at an entry: its row is appended, then either the cap ends
      the run or the loop goes on with the next entry (ConsumeAllMore). */
  lemma {:induction false} ConsumeAllEntry(conv: Item -> Result<seq<Cell>>, pages: seq<Page>, k: nat, i: nat, cap: Option<int>, rows: seq<seq<Cell>>)
    requires k < |pages| && i < |pages[k].entries|
    requires Chained(pages)
    requires AllConvert(conv, Remaining(pages, k, i))
    requires cap.Some? ==> |rows| < Max(cap.value, 1)
    ensures var all := Rows(conv, Remaining(pages, k, i));
            Consume(conv, pages, k, i, cap, rows) == Report(rows + all[..Take(cap, |rows|, |all|)])
    decreases |pages| - k, |pages[k].entries| - i, 1
  {
    if CapReached(cap, |rows| + 1) {
      var page := pages[k];
      ChainedLink(pages, k);
      var tail := Remaining(pages, k, i + 1);
      RemainingStep(pages, k, i);
      RowsCons(conv, page.entries[i], tail);
      var row := conv(page.entries[i]).value;
      var all := Rows(conv, Remaining(pages, k, i));
      TakeStep(cap, |rows|, |all|);
      assert Consume(conv, pages, k, i, cap, rows) == Finish(page.links, rows + [row]);
      assert all[..1] == [row];
    } else {
      ConsumeAllMore(conv, pages, k, i, cap, rows);
    }
  }

  /** The step of ConsumeAll at an entry whose row leaves the cap unreached. */
  lemma {:induction false} ConsumeAllMore(conv: Item -> Result<seq<Cell>>, pages: seq<Page>, k: nat, i: nat, cap: Option<int>, rows: seq<seq<Cell>>)
    requires k < |pages| && i < |pages[k].entries|
    requires Chained(pages)
    requires AllConvert(conv, Remaining(pages, k, i))
    requires cap.Some? ==> |rows| < Max(cap.value, 1)
    requires !CapReached(cap, |rows| + 1)
    ensures var all := Rows(conv, Remaining(pages, k, i));
            Consume(conv, pages, k, i, cap, rows) == Report(rows + all[..Take(cap, |rows|, |all|)])
    decreases |pages| - k, |pages[k].entries| - i, 0
  {
    var page := pages[k];
    var tail := Remaining(pages, k, i + 1);
    RemainingStep(pages, k, i);
    RowsCons(conv, page.entries[i], tail);
    var row := conv(page.entries[i]).value;
    var all := Rows(conv, Remaining(pages, k, i));
    TakeStep(cap, |rows|, |all|);
    var more := rows + [row];
    assert Consume(conv, pages, k, i, cap, rows) == Consume(conv, pages, k, i + 1, cap, more);
    ConsumeAll(conv, pages, k, i + 1, cap, more);
    var tr := Rows(conv, tail);
    var t := Take(cap, |more|, |tr|);
    assert Take(cap, |rows|, |all|) == t + 1;
    assert all[..t + 1] == [row] + tr[..t];
    assert more + tr[..t] == rows + ([row] + tr[..t]);
  }

  /** Pages are fetched only on demand: an outcome reached with the first `n` pages (one
      that never follows a link past them) is the outcome whatever pages would follow. */
  lemma {:induction false} ConsumeFetchedOnly(conv: Item -> Result<seq<Cell>>, pages: seq<Page>, n: nat, k: nat, i: nat,
                                              cap: Option<int>, rows: seq<seq<Cell>>)
    requires k < n <= |pages| && i <= |pages[k].entries|
    requires Consume(conv, pages[..n], k, i, cap, rows) != Crashed(NoPage)
    ensures Consume(conv, pages, k, i, cap, rows) == Consume(conv, pages[..n], k, i, cap, rows)
    decreases |pages| - k, |pages[k].entries| - i
  {
    var page := pages[k];
    assert pages[..n][k] == page;
    if i < |page.entries| {
      if conv(page.entries[i]).Ok? && !CapReached(cap, |rows| + 1) {
        ConsumeFetchedOnly(conv, pages, n, k, i + 1, cap, rows + [conv(page.entries[i]).value]);
      }
    } else if NextLink(page.links).Ok? && NextLink(page.links).value.Some? && k + 1 < n {
      assert pages[..n][k + 1] == pages[k + 1];
      ConsumeFetchedOnly(conv, pages, n, k + 1, 0, cap, rows);
    }
  }

  // ---------------------------------------------------------------------------
  // Properties of the run
  // ---------------------------------------------------------------------------

  /** A written report holds one row per entry, in the order of the pages and of the
      entries within them, for a prefix of all entries. */
  lemma RunRowsInOrder(conv: Item -> Result<seq<Cell>>, a: Args, status: int, pages: seq<Page>)
    requires |pages| > 0
    ensures var out := RunSpec(conv, a, status, pages);
            out.Report? ==>
              && |out.rows| <= |Flatten(pages)|
              && forall j :: 0 <= j < |out.rows| ==> conv(Flatten(pages)[j]) == Ok(out.rows[j])
  {
    ConsumeRows(conv, pages, 0, 0, a.maxFetch, []);
    RemainingAll(pages);
  }

  /** `--max-fetch m` bounds the report: at most m rows, and at most one when m is not
      positive. */
  lemma RunCap(conv: Item -> Result<seq<Cell>>, a: Args, status: int, pages: seq<Page>)
    requires |pages| > 0 && a.maxFetch.Some?
    ensures var out := RunSpec(conv, a, status, pages);
            out.Report? ==> |out.rows| <= Max(a.maxFetch.value, 1)
  {
    ConsumeCap(conv, pages, 0, 0, a.maxFetch.value, []);
  }

  /** When the query is non-empty, the first response succeeds with a positive count,
      the pages are chained and every entry converts, the report holds the rows of all
      entries, cut after the first `max(m, 1)` rows under `--max-fetch m`. */
  lemma RunComplete(conv: Item -> Result<seq<Cell>>, a: Args, status: int, pages: seq<Page>)
    requires |pages| > 0 && BuildQuery(a).Some? && !IsHttpError(status)
    requires ParseInt(pages[0].totalResults).Some? && ParseInt(pages[0].totalResults).value != 0
    requires Chained(pages)
    requires AllConvert(conv, Flatten(pages))
    ensures var all := Rows(conv, Flatten(pages));
            RunSpec(conv, a, status, pages) == Report(all[..Take(a.maxFetch, 0, |all|)])
  {
    RemainingAll(pages);
    ConsumeAll(conv, pages, 0, 0, a.maxFetch, []);
    assert [] + Rows(conv, Flatten(pages))[..Take(a.maxFetch, 0, |Flatten(pages)|)]
        == Rows(conv, Flatten(pages))[..Take(a.maxFetch, 0, |Flatten(pages)|)];
  }

  /** The run stops without a report only for an empty query, a response without
      results, or never at all for a failing status: `raise_for_status` turns a failing
      status into an exception before the status messages are reached. */
  lemma RunStatusMessagesUnreachable(conv: Item -> Result<seq<Cell>>, a: Args, status: int, pages: seq<Page>)
    requires |pages| > 0
    ensures var out := RunSpec(conv, a, status, pages);
            out.Terminated? ==> out.exit == EmptyQuery || out.exit == NoResults
    ensures BuildQuery(a).Some? && IsHttpError(status) ==> RunSpec(conv, a, status, pages) == Crashed(HttpStatus(status))
  {
  }

  /** The run reads a page only when it follows the link to it: a run that does not need
      more than the first `n` pages ends the same way whatever pages follow them. */
  lemma RunFetchedOnly(conv: Item -> Result<seq<Cell>>, a: Args, status: int, pages: seq<Page>, n: nat)
    requires 0 < n <= |pages|
    requires RunSpec(conv, a, status, pages[..n]) != Crashed(NoPage)
    ensures RunSpec(conv, a, status, pages) == RunSpec(conv, a, status, pages[..n])
  {
    assert pages[..n][0] == pages[0];
    if BuildQuery(a).Some? && !IsHttpError(status) && ParseInt(pages[0].totalResults).Some?
       && ParseInt(pages[0].totalResults).value != 0 {
      ConsumeFetchedOnly(conv, pages, n, 0, 0, a.maxFetch, []);
    }
  }

  /** The run stops before any row when the query is empty, and after the first response
      when the search reports no results. */
  lemma RunEarlyExits(conv: Item -> Result<seq<Cell>>, a: Args, status: int, pages: seq<Page>)
    requires |pages| > 0
    ensures BuildQuery(a).None? ==> RunSpec(conv, a, status, pages) == Terminated(EmptyQuery)
    ensures BuildQuery(a).Some? && !IsHttpError(status) && ParseInt(pages[0].totalResults) == Some(0) ==>
              RunSpec(conv, a, status, pages) == Terminated(NoResults)
    ensures BuildQuery(a).Some? && !IsHttpError(status) && ParseInt(pages[0].totalResults).None? ==>
              RunSpec(conv, a, status, pages) == Crashed(BadInt(pages[0].totalResults))
  {
  }
}
