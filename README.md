# scopus_api — a Dafny model of the search-to-report rules

scopus_api is a command-line tool. It sends a search query to the Scopus search
service, walks the result pages and writes one report row per found article. Each
row holds identifiers, the journal's CiteScore and best quartile, the citation
count, a bibliographic citation string, the authors and the funding text. The
project models the deterministic rules inside that pipeline. The network, the HTML
pages and the spreadsheet are replaced by their contents, given as inputs.

- `json.dfy` (`Json`) holds decoded JSON values (`Str`, `List`, `Obj`), payloads
  as `map<string, Value>`, and `Result`/`Fault`. Each Python exception the code can
  raise is one `Fault`, and `TextOr` models `d.get(key, default)`.
- `text.dfy` (`Text`) holds the Python string built-ins the code relies on:
  - `", ".join` (`Join`), `str.split` on one character (`Split`) and `replace(",", "")` (`RemoveCommas`)
  - string order (`LexLeq`), `isspace` and `strip` (`IsBlank`, `Strip`)
  - `str(int)` and `int(str)` (`IntToString`, `ParseInt`)
- `search_results.dfy` (`SearchResults`): `find_next_link` and `collect_entry_data`.
- `citation.dfy` (`Citation`): `format_article_string_std`.
- `metrics.dfy` (`Metrics`) covers two metrics:
  - the choice of the quartile at the end of `sjr_parse_max_quartile`
  - the nested key lookup of `parse_cite_score`
- `crossref.dfy` (`Crossref`): `crossref_work_parse_authors`, and
  `crossref_work_parse_funders` with its append loop.
- `phrases.dfy` (`Phrases`): the line filter of `load_filter_phrases`.
- `driver.dfy` (`Driver`) covers main.py:
  - the query builder and the status messages
  - the page loop with its `max_fetch` cap, as the method `Run`
  - the 14-cell row built for each entry

`Run` is proved equal to the functional description `RunSpec`, applied to the
entry-to-row conversion `RowOf`. The lemmas about `RunSpec` hold for any conversion
and state what a report contains:
- rows come in page-then-entry order
- the cap bounds the row count
- a complete run holds every entry's row
- pages are fetched only on demand
- the early exits

## Model

| member | source | states |
|---|---|---|
| Json.TextOr | utils.py:89-99 | `d.get(key, default)` on a string field: the default for a missing key, the string itself when present, a failure for a non-string value |
| SearchResults.NextLink | utils.py:32-37 | `find_next_link` as a function: the "@href" of the first link whose "@ref" is "next", None when there is none, a KeyError for a link read without "@ref" or "@href"; NextLinkFound and NextLinkAbsent characterise it |
| SearchResults.FindNextLink | utils.py:32-37 | the loop with early return yields exactly `NextLink`: the first "next" link's href, None, or the KeyError of a link without "@ref"/"@href" |
| SearchResults.NextLinkFound | utils.py:32-37 | the result is `Some(h)` iff some link is the first tagged "next", all links before it carry a tag, and its "@href" is `h` |
| SearchResults.NextLinkAbsent | utils.py:32-37 | the result is None iff every link carries a tag and none is "next" |
| SearchResults.CollectEntryData | utils.py:73-100 | `collect_entry_data`: the cover year, the scopus id, the "scopus" link and ten defaulted fields, failing in that order; its lemmas below state each field |
| SearchResults.CollectEntryScopusId | utils.py:79-80 | a missing identifier (read as "") fails; on success the identifier holds exactly one colon and the scopus id is the text after it |
| SearchResults.CollectEntryLink | utils.py:82-84 | on success `doc_rec_link` is the "@href" of the first link tagged "scopus"; an entry whose tagged links include no "scopus" link fails |
| SearchResults.ScopusHrefsFirst | utils.py:82-84 | the head of the filtered href list comes from the first "scopus"-tagged link |
| SearchResults.ScopusHrefsNone | utils.py:82-84 | tagged links none of which is "scopus" give an empty list (the `[0]` then fails) |
| SearchResults.CollectEntryDefaults | utils.py:86-100 | every plain field of the record is the entry's string under its key, or "" when the key is absent |
| SearchResults.CollectEntryYear | utils.py:76-77 | the year is absent iff the cover date is absent or empty; otherwise the date has the `YYYY-MM-DD` shape, the year is the number its first four digits denote, and for years 1000 and later it prints back as those four characters |
| Citation.FormatArticle | utils.py:103-120 | `format_article_string_std`: authors, title, journal, year, volume, the optional issue and pages parts, and the DOI URL, in this order; the FormatArticle* lemmas state its frame and optional parts |
| Citation.FormatAuthors | utils.py:106-108 | commas are removed from every printed name; at most three names are kept, in order, then "и др." when there were more than three |
| Citation.RemoveCommasAll | utils.py:106 | one comma-free name per author, in order |
| Citation.FormatAuthorsFour | utils.py:106-109 | four authors print as the first three, comma-free, then "и др.", joined with ", " |
| Citation.FormatArticleFrame | utils.py:109-120 | the citation starts with the joined authors, the title and " //\n", and ends with "https://doi.org/" followed by the doi |
| Citation.FormatArticleIssue | utils.py:111-118 | "No. <issue>. " appears only for a non-empty issue; emptying the issue removes exactly that part |
| Citation.FormatArticlePages | utils.py:112-118 | "pp. <pages>. " appears only for non-empty pages; emptying the pages removes exactly that part |
| Metrics.MaxYear | utils.py:210 | `df.year.max()`: a year of the table that is greatest in string order |
| Metrics.MinQuart | utils.py:210 | `quart.min()` over the rows of one year: a quartile of such a row, least in string order; None when no row has that year |
| Metrics.MaxQuartile | utils.py:205-210 | "N/A (no links)" without a journal link, "N/A" without a table, NaN for an empty table, else the least quartile of the latest year |
| Metrics.BestOfLatestUnique | utils.py:210 | the property MaxQuartile promises determines the quartile uniquely |
| Metrics.MaxQuartileExample | utils.py:205-210 | for rows (A, 2021, Q1), (A, 2022, Q3), (B, 2022, Q2) the result is Q2: the better quartile of the older year is ignored, and the best field of 2022 is chosen |
| Metrics.CiteScore | utils.py:145-153 | a response without "serial-metadata-response" gives "N/A"; a response that is not an object fails |
| Metrics.CiteScorePath | utils.py:146-153 | on any response whose "entry" list is non-empty: a missing key below the first entry gives "N/A", a value that cannot be subscripted fails, and a complete path gives the metric itself, whatever other keys the objects carry |
| Metrics.CiteScoreEntry | utils.py:146-153 | on any response with "serial-metadata-response": a missing "entry" key or an "entry" object (its `[0]` is a KeyError) gives "N/A"; an empty "entry" list raises an error that is not caught |
| Crossref.WorkMessage | utils.py:222 | without status "ok" the work is rejected ("No data"); on success the message object is returned |
| Crossref.Records | utils.py:228-239 | iterating a list yields its items; an empty string or object yields nothing; any other value fails |
| Crossref.AuthorName | utils.py:227-228 | the f-string of one author record; AuthorNameDefaults states it for every record |
| Crossref.AuthorNames | utils.py:227-231 | one name per author record, in order; succeeds iff every record does |
| Crossref.CrossrefAuthors | utils.py:221-231 | status checked first; "" when "author" is absent |
| Crossref.AuthorNameDefaults | utils.py:227-228 | any author record renders as its family name, a space and its given name, with "" for a missing family and " " for a missing given name, whatever other keys it has; a name that is not a string fails |
| Crossref.CrossrefAuthorsEmpty | utils.py:223-231 | the author string is "" iff there is no "author" key or it holds an empty list, string or object |
| Crossref.Strings | utils.py:244 | the awards as strings, one per item, in order |
| Crossref.FunderLine | utils.py:240-247 | one funder line: the name, a space and the awards joined with ", " |
| Crossref.FundersText | utils.py:233-249 | the value `crossref_work_parse_funders` returns, against which CrossrefFunders is proved |
| Crossref.CrossrefFunders | utils.py:233-249 | the append loop computes `FundersText`: the funder lines joined with "; ", "" without a "funder" key |
| Crossref.FunderLinesShape | utils.py:240-247 | one line per funder record, each the name, a space and the awards joined with ", " ("" without awards) |
| Crossref.FundersEmpty | utils.py:235-249 | the funder string is "" iff there is no "funder" key or it holds an empty list, string or object |
| Phrases.FilterPhrases | utils.py:29 | every phrase has no leading or trailing whitespace |
| Phrases.FilterPhrasesMembers | utils.py:29 | a phrase is produced iff it is the stripped form of some line that is not whitespace only |
| Phrases.FilterPhrasesCount | utils.py:29 | no line but a blank one is dropped: the count is the line count minus the blank lines |
| Phrases.FilterPhrasesSnoc | utils.py:29 | one more line appends its stripped form after the earlier phrases, or nothing when it is blank, so the phrases follow the file order, one per non-blank line |
| Phrases.NoEmptyPhrase | utils.py:28-29 | lines read from a file are non-empty, so "" is never a phrase |
| Phrases.StrippedFixed | utils.py:29 | a phrase is a fixed point of `strip` |
| Text.Split | utils.py:80 | `str.split` on one character: one more part than separators, none containing the separator; SplitJoin shows the parts rebuild the text |
| Text.Strip | utils.py:29 | `str.strip`: the text without leading and trailing whitespace; StripSlice, StripIdempotent and StripBlank characterise it |
| Text.LexLeq | utils.py:210 | Python's `<=` on strings, code point by code point with a proper prefix first; proved reflexive, transitive, total and antisymmetric |
| Text.SplitJoin | utils.py:80 | joining the parts of `split(c)` with `c` gives back the text |
| Text.RemoveCommas | utils.py:106 | no comma is left, and every other character keeps its count |
| Text.RemoveCommasConcat | utils.py:106 | deleting commas distributes over concatenation, drops a comma and keeps any other character, so the remaining characters keep their order |
| Text.StripIdempotent | utils.py:29 | stripping twice is stripping once |
| Text.StripBlank | utils.py:29 | stripping gives "" iff the text is empty or whitespace only |
| Text.ParseInt | main.py:130 | `int(s)` on an optional sign and decimal digits, None where Python raises ValueError |
| Text.ParseIntToString | main.py:130 | `int(str(n)) == n` |
| Driver.AfIdPart | main.py:66 | the organisation fragment is "" iff no organisation id is given |
| Driver.YearPart | main.py:67 | the year fragment is "" iff no year is given |
| Driver.NonEmpty | main.py:69 | the kept fragments are all non-empty, and none is left iff all were empty |
| Driver.BuildQuery | main.py:66-77 | the run is refused iff the raw query, organisation id and year are all missing |
| Driver.BuildQueryCases | main.py:66-77 | for each of the seven combinations, the query is the given fragments in the order raw query, AF-ID, PUBYEAR, each once, joined with " AND " |
| Driver.StatusExit | main.py:81-92 | 400 gives the invalid-query message, 401 the API-key message, 429 the quota message, every other failing status the generic one, and a success none; each iff |
| Driver.RunStatusMessagesUnreachable | main.py:80-92 | because `fetch_query` raises on 400-599 (utils.py:68), the status messages are never reached: a failing status crashes the run, and the run ends with a message only for an empty query or zero results |
| Driver.RunEarlyExits | main.py:71-73 | an empty query ends the run before any request; zero results end it after the first response; a non-numeric total crashes it |
| Driver.CitedByCount | main.py:129-131 | an empty count gives 0; otherwise the count is accepted iff it is an integer literal, and the result is its value |
| Driver.CitedByCountRoundTrip | main.py:129-131 | a count printed from a number is read back as that number |
| Driver.RowOf | main.py:112-149 | every row has exactly as many cells as the 14 report columns |
| Driver.RowFrom | main.py:129-149 | the row of a normalised entry has 14 cells |
| Driver.RowIdentifiers | main.py:134-138 | cells 0-4 are the link, scopus id, doi, eid and publication type of the normalised entry |
| Driver.RowMetrics | main.py:139-140 | cell 5 is the CiteScore; cell 6 is the chosen quartile, NaN iff the selection gives none |
| Driver.RowCounts | main.py:129-142 | cell 7 is the year, or "" without a cover date; cell 8 is 0 for an empty count, else the number the count text denotes |
| Driver.RowTexts | main.py:143-147 | cells 9-13 are the citation string, the authors joined with ", ", the title, the journal and the funding text |
| Driver.RowOfFaults | main.py:111-131 | failures arise in loop-body order (malformed entry, then malformed metrics, then a non-numeric count), and a row is written iff none of them occurs, whatever the quartile or CiteScore sentinel |
| Driver.MakeRow | main.py:132-149 | the fourteen cells appended for one entry, in column order |
| Driver.Finish | main.py:157-163 | after the cap stops the loop, the next link is still looked up, and only its failure changes the outcome |
| Driver.RunSpec | main.py:66-163 | the whole run as a function: the empty-query exit, the status check, the total check, then the page loop; the Run* lemmas state its properties |
| Driver.Consume | main.py:107-163 | the page loop never ends with a message, only with a report or a crash |
| Driver.Run | main.py:66-163 | the imperative loop with its counters, `run_fetch` flag and breaks computes exactly `RunSpec` |
| Driver.ConsumeRows | main.py:111-150 | the rows already appended are kept; each later row is the row of the next remaining entry, in order |
| Driver.ConsumeCap | main.py:150-155 | under a cap of m rows the loop appends at most max(m, 1) rows |
| Driver.ConsumeAll | main.py:107-163 | with chained pages and convertible entries, the rows of all remaining entries are appended up to the cap |
| Driver.ConsumeFetchedOnly | main.py:157-161 | an outcome that needs only the first n pages does not depend on later pages |
| Driver.RunRowsInOrder | main.py:111-150 | report row j is the row of entry j over all pages, in page-then-entry order, so `results_count` equals the number of rows |
| Driver.RunCap | main.py:150-158 | with `--max-fetch m` the report holds at most max(m, 1) rows |
| Driver.RunComplete | main.py:107-163 | chained pages with convertible entries give all rows, cut to min(total, max(m, 1)) under a cap |
| Driver.RunFetchedOnly | main.py:157-161 | no page after the last one followed is read |

## Left out

- HTTP is not modelled: `fetch_query`, the `requests.get` calls in
  `parse_cite_score`, `sjr_search`, `crossref_work`, `parse_document_record` and
  main.py:159. The model takes instead:
  - the first response's status
  - the sequence of result pages, the first from the search and each later one
    answering the previous page's next link
  - per entry, the metrics response, the journal link, the quartile table, and the
    authors and funding text of the document page
- HTML parsing is not modelled: the XPath queries of `parse_document_record`, and
  `sjr_parse_journal_page_link` and `sjr_parse_q_table`. Their results are given
  as `Item` fields.
- The ISSN choice of main.py:114 is not modelled. It only selects which metrics and
  quartile responses are fetched, and those are inputs.
- pandas and Excel are not modelled: the DataFrame, `df.index += 1` and
  `to_excel` (main.py:181-186). The report is the sequence of rows, whose column
  names are `ReportColumns`.
- `get_quota_info`, argparse, the environment file, tqdm, `print`, and the reading
  of the phrase file are not modelled. `exit()` is the `Terminated` outcome.
- The filter phrases are loaded but unused in main.py, since the filter at
  main.py:119-128 is commented out. The model does not connect them to the run.
- Text-valued JSON fields that hold a non-string value are a failure
  (`WrongType`) in the model. Python would format the value with `repr`, or
  iterate over it (awards given as a string or an object). JSON `null` is not among
  the modelled values, so an "author" or "funder" of null, which the source treats
  as absent, is not covered.
- Every page is taken to be well formed: its "search-results" object holds
  "opensearch:totalResults" as a string and "entry" and "link" as lists of objects.
  The KeyError and TypeError a malformed page would raise at main.py:97-99, 109 and
  157 are not modelled.
- `strptime` is modelled only by the zero-padded `YYYY-MM-DD` shape, with month
  1-12 and day 1-31. Day-in-month checks and non-padded forms are left out.
- `int()` is modelled as an optional sign followed by ASCII digits. Surrounding
  whitespace, underscores and non-ASCII digits are left out.
- Order within JSON objects is not modelled, since payloads are maps. No rule
  modelled here depends on key order.
- Crashed(NoPage) is not an outcome of the program. It marks a run that follows a
  next link beyond the pages given to the model.
- Driver.Run has no branch for the status messages. `IsHttpError` already covers
  every status for which `ok` is false, so those lines are dead in the program.
  `RunSpec` keeps them as written, and `RunStatusMessagesUnreachable` proves them
  unreachable.
