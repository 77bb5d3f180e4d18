/** Reading one page of search results: the pagination link of a page and
    the normalised record of one entry (utils.py, `find_next_link` and
    `collect_entry_data`). */
module SearchResults {
  import opened Json
  import opened Text

  /** The link record carries the relation tag `tag` in its "@ref" key. */
  predicate Tagged(link: Payload, tag: string)
  {
    "@ref" in link && link["@ref"] == Str(tag)
  }

  // ---------------------------------------------------------------------------
  // find_next_link
  // ---------------------------------------------------------------------------

  /** What `find_next_link` returns: the "@href" of the first link tagged "next",
      None when no link is, and a KeyError when a link it inspects lacks "@ref"
      or the chosen link lacks "@href". */
  function NextLink(links: seq<Payload>): Result<Option<Value>>
  {
    if |links| == 0 then Ok(None)
    else if "@ref" !in links[0] then Err(KeyMissing("@ref"))
    else if Tagged(links[0], "next") then
      (if "@href" in links[0] then Ok(Some(links[0]["@href"])) else Err(KeyMissing("@href")))
    else NextLink(links[1..])
  }

  /** The loop of `find_next_link`, with its early return. */
  method FindNextLink(links: seq<Payload>) returns (r: Result<Option<Value>>)
    ensures r == NextLink(links)
  {
    var i := 0;
    while i < |links|
      invariant 0 <= i <= |links|
      invariant NextLink(links[i..]) == NextLink(links)
    {
      var link := links[i];
      assert links[i..][1..] == links[i + 1..];
      if "@ref" !in link {
        return Err(KeyMissing("@ref"));
      }
      if link["@ref"] == Str("next") {
        if "@href" !in link {
          return Err(KeyMissing("@href"));
        }
        return Ok(Some(link["@href"]));
      }
      i := i + 1;
    }
    return Ok(None);
  }

  /** Link `i` is the first one tagged `tag`, and every link before it has a tag. */
  predicate FirstTagged(links: seq<Payload>, i: int, tag: string)
  {
    0 <= i < |links| && Tagged(links[i], tag)
    && forall j :: 0 <= j < i ==> "@ref" in links[j] && !Tagged(links[j], tag)
  }

  /** A next link is found exactly when some link is the first tagged "next" and
      carries an "@href"; the result is that "@href". */
  lemma {:induction false} NextLinkFound(links: seq<Payload>, h: Value)
    ensures NextLink(links) == Ok(Some(h)) <==>
            exists i :: FirstTagged(links, i, "next") && "@href" in links[i] && links[i]["@href"] == h
  {
    if |links| > 0 && "@ref" in links[0] && !Tagged(links[0], "next") {
      NextLinkFound(links[1..], h);
      if NextLink(links) == Ok(Some(h)) {
        var i :| FirstTagged(links[1..], i, "next") && "@href" in links[1..][i] && links[1..][i]["@href"] == h;
        assert FirstTagged(links, i + 1, "next");
      }
      if exists i :: FirstTagged(links, i, "next") && "@href" in links[i] && links[i]["@href"] == h {
        var i :| FirstTagged(links, i, "next") && "@href" in links[i] && links[i]["@href"] == h;
        assert i > 0;
        assert FirstTagged(links[1..], i - 1, "next");
      }
    } else if |links| > 0 && "@ref" in links[0] {
      assert FirstTagged(links, 0, "next");
    } else if |links| > 0 {
      assert forall i :: FirstTagged(links, i, "next") ==> i == 0;
    }
  }

  /** No next link is reported exactly when every link has a tag and none is "next". */
  lemma {:induction false} NextLinkAbsent(links: seq<Payload>)
    ensures NextLink(links) == Ok(None) <==>
            forall i :: 0 <= i < |links| ==> "@ref" in links[i] && !Tagged(links[i], "next")
  {
    if |links| > 0 {
      NextLinkAbsent(links[1..]);
      if "@ref" in links[0] && !Tagged(links[0], "next") {
        assert forall i :: 1 <= i < |links| ==> links[i] == links[1..][i - 1];
      }
    }
  }

  // ---------------------------------------------------------------------------
  // collect_entry_data
  // ---------------------------------------------------------------------------

  /** The normalised record of one search-result entry. `year` is None where the
      source stores "" (no cover date). */
  datatype EntryData = EntryData(
    docRecLink: string,
    scopusId: string,
    doi: string,
    eid: string,
    subtypeDescription: string,
    creator: string,
    title: string,
    journal: string,
    year: Option<nat>,
    vol: string,
    issue: string,
    pages: string,
    citedByCount: string)

  /** The shape `strptime(d, "%Y-%m-%d")` accepts, zero-padded: four year digits
      (year at least 1), a month 01..12 and a day 01..31. */
  predicate IsCoverDate(d: string)
  {
    |d| == 10 && d[4] == '-' && d[7] == '-'
    && AllDigits(d[..4]) && AllDigits(d[5..7]) && AllDigits(d[8..])
    && DigitsValue(d[..4]) >= 1
    && 1 <= DigitsValue(d[5..7]) <= 12
    && 1 <= DigitsValue(d[8..]) <= 31
  }

  /** `strptime(d, "%Y-%m-%d").year if d else ""`. */
  function CoverYear(d: string): Result<Option<nat>>
  {
    if d == "" then Ok(None)
    else if IsCoverDate(d) then Ok(Some(DigitsValue(d[..4])))
    else Err(BadDate(d))
  }

  /** The "@href" values of every link tagged "scopus", in order. The whole list is
      walked, so a link without "@ref", or a "scopus" link without "@href", fails
      even when an earlier link already matched. */
  function ScopusHrefs(items: seq<Value>): Result<seq<Value>>
  {
    if |items| == 0 then Ok([])
    else match items[0]
      case Obj(link) =>
        if "@ref" !in link then Err(KeyMissing("@ref"))
        else if Tagged(link, "scopus") then
          if "@href" !in link then Err(KeyMissing("@href"))
          else
            var rest :- ScopusHrefs(items[1..]);
            Ok([link["@href"]] + rest)
        else ScopusHrefs(items[1..])
      case _ => Err(WrongType("link"))
  }

  /** `[l["@href"] for l in entry["link"] if l["@ref"] == "scopus"][0]`. */
  function DocRecLink(entry: Payload): Result<string>
  {
    if "link" !in entry then Err(KeyMissing("link"))
    else match entry["link"]
      case List(items) =>
        var hrefs :- ScopusHrefs(items);
        if |hrefs| == 0 then Err(NoScopusLink)
        else (match hrefs[0]
          case Str(h) => Ok(h)
          case _ => Err(WrongType("@href")))
      case _ => Err(WrongType("link"))
  }

  /** `collect_entry_data`: the cover year, the id after the colon of
      "dc:identifier", the "scopus" link, and every other field with default "". The
      steps fail in this order. */
  function CollectEntryData(entry: Payload): Result<EntryData>
  {
    var year :- EntryYear(entry);
    var scopusId :- ScopusId(entry);
    var link :- DocRecLink(entry);
    EntryRecord(entry, link, scopusId, year)
  }

  /** The year of the "prism:coverDate" field, None when it is absent or "". */
  function EntryYear(entry: Payload): Result<Option<nat>>
  {
    var coverDate :- TextOr(entry, "prism:coverDate", "");
    CoverYear(coverDate)
  }

  /** `_, scopus_id = entry.get("dc:identifier", "").split(":")`: the unpacking fails
      unless the split yields exactly two parts. */
  function ScopusId(entry: Payload): Result<string>
  {
    var identifier :- TextOr(entry, "dc:identifier", "");
    var parts := Split(identifier, ':');
    if |parts| != 2 then Err(BadUnpack(|parts|)) else Ok(parts[1])
  }

  /** The record, with the fields read after the link each defaulting to "". */
  function EntryRecord(entry: Payload, link: string, scopusId: string, year: Option<nat>): (r: Result<EntryData>)
    ensures r.Ok? ==> r.value.docRecLink == link && r.value.scopusId == scopusId && r.value.year == year
  {
    var doi :- TextOr(entry, "prism:doi", "");
    var eid :- TextOr(entry, "eid", "");
    var subtype :- TextOr(entry, "subtypeDescription", "");
    var creator :- TextOr(entry, "dc:creator", "");
    var title :- TextOr(entry, "dc:title", "");
    var journal :- TextOr(entry, "prism:publicationName", "");
    var vol :- TextOr(entry, "prism:volume", "");
    var issue :- TextOr(entry, "prism:issueIdentifier", "");
    var pages :- TextOr(entry, "prism:pageRange", "");
    var cited :- TextOr(entry, "citedby-count", "");
    Ok(EntryData(link, scopusId, doi, eid, subtype, creator, title, journal, year, vol, issue, pages, cited))
  }

  /** The field holds the string under `key`, or "" when the key is absent. */
  predicate Defaulted(entry: Payload, key: string, v: string)
  {
    if key in entry then entry[key] == Str(v) else v == ""
  }

  /** The scopus id is the text after the only colon of "dc:identifier"; an entry
      without an identifier (read as "", which splits into one part) is rejected. */
  lemma CollectEntryScopusId(entry: Payload)
    ensures "dc:identifier" !in entry ==> CollectEntryData(entry).Err?
    ensures CollectEntryData(entry).Ok? ==>
              "dc:identifier" in entry && entry["dc:identifier"].Str?
              && var id, sid := entry["dc:identifier"].s, CollectEntryData(entry).value.scopusId;
                 Count(id, ':') == 1
                 && exists k :: 0 <= k < |id| && id[k] == ':' && id[k + 1..] == sid && ':' !in id[..k]
  {
    if CollectEntryData(entry).Ok? {
      var id := entry["dc:identifier"].s;
      SplitInTwo(id, ':');
      var parts := Split(id, ':');
      var k := |parts[0]|;
      assert id[k] == ':' && id[k + 1..] == parts[1] && id[..k] == parts[0];
    }
  }

  /** Every record field other than the link, id and year is the entry's string
      under its key, or "" when the key is absent. */
  lemma CollectEntryDefaults(entry: Payload)
    ensures CollectEntryData(entry).Ok? ==>
              var e := CollectEntryData(entry).value;
              Defaulted(entry, "prism:doi", e.doi) && Defaulted(entry, "eid", e.eid)
              && Defaulted(entry, "subtypeDescription", e.subtypeDescription)
              && Defaulted(entry, "dc:creator", e.creator) && Defaulted(entry, "dc:title", e.title)
              && Defaulted(entry, "prism:publicationName", e.journal)
              && Defaulted(entry, "prism:volume", e.vol)
              && Defaulted(entry, "prism:issueIdentifier", e.issue)
              && Defaulted(entry, "prism:pageRange", e.pages)
              && Defaulted(entry, "citedby-count", e.citedByCount)
  {
    if CollectEntryData(entry).Ok? {
      var link, sid, year := DocRecLink(entry).value, ScopusId(entry).value, EntryYear(entry).value;
      assert CollectEntryData(entry) == EntryRecord(entry, link, sid, year);
      EntryRecordDefaults(entry, link, sid, year);
    }
  }

  /** The fields EntryRecord reads are the entry's strings, or "" for absent keys. */
  lemma EntryRecordDefaults(entry: Payload, link: string, scopusId: string, year: Option<nat>)
    requires EntryRecord(entry, link, scopusId, year).Ok?
    ensures var e := EntryRecord(entry, link, scopusId, year).value;
            Defaulted(entry, "prism:doi", e.doi) && Defaulted(entry, "eid", e.eid)
            && Defaulted(entry, "subtypeDescription", e.subtypeDescription)
            && Defaulted(entry, "dc:creator", e.creator) && Defaulted(entry, "dc:title", e.title)
            && Defaulted(entry, "prism:publicationName", e.journal)
            && Defaulted(entry, "prism:volume", e.vol)
            && Defaulted(entry, "prism:issueIdentifier", e.issue)
            && Defaulted(entry, "prism:pageRange", e.pages)
            && Defaulted(entry, "citedby-count", e.citedByCount)
  {
  }

  /** The year is absent exactly when the cover date is absent or empty; otherwise the
      cover date has the `YYYY-MM-DD` shape, the year is the number its first four
      digits denote, and for years 1000 and later the year printed back is those four
      characters. */
  lemma CollectEntryYear(entry: Payload)
    ensures CollectEntryData(entry).Ok? ==>
              var y := CollectEntryData(entry).value.year;
              (y.None? <==> ("prism:coverDate" !in entry || entry["prism:coverDate"] == Str("")))
              && (y.Some? ==>
                    "prism:coverDate" in entry && entry["prism:coverDate"].Str?
                    && var d := entry["prism:coverDate"].s;
                       IsCoverDate(d) && y.value == DigitsValue(d[..4])
                       && (d[0] != '0' ==> Decimal(y.value) == d[..4]))
  {
    if CollectEntryData(entry).Ok? && CollectEntryData(entry).value.year.Some? {
      var d := entry["prism:coverDate"].s;
      if d[0] != '0' {
        assert d[..4][0] == d[0];
        DecimalOfDigits(d[..4]);
      }
    }
  }

  /** A record's link came from the first link of the entry tagged "scopus". */
  lemma {:induction false} ScopusHrefsFirst(items: seq<Value>)
    requires ScopusHrefs(items).Ok? && |ScopusHrefs(items).value| > 0
    ensures exists i :: 0 <= i < |items| && FirstScopus(items, i)
                        && items[i].fields["@href"] == ScopusHrefs(items).value[0]
  {
    var link := items[0].fields;
    if !Tagged(link, "scopus") {
      ScopusHrefsFirst(items[1..]);
      var i :| 0 <= i < |items[1..]| && FirstScopus(items[1..], i)
                && items[1..][i].fields["@href"] == ScopusHrefs(items[1..]).value[0];
      assert FirstScopus(items, i + 1);
    } else {
      assert FirstScopus(items, 0);
    }
  }

  /** Item `i` is the first link object tagged "scopus" (with an "@href"), and every
      item before it is a link object with a different tag. */
  predicate FirstScopus(items: seq<Value>, i: int)
  {
    0 <= i < |items| && items[i].Obj? && Tagged(items[i].fields, "scopus") && "@href" in items[i].fields
    && forall j :: 0 <= j < i ==> items[j].Obj? && "@ref" in items[j].fields && !Tagged(items[j].fields, "scopus")
  }

  /** Link objects that all carry a tag, none of them "scopus", yield no href. */
  lemma {:induction false} ScopusHrefsNone(items: seq<Value>)
    requires forall j :: 0 <= j < |items| ==> items[j].Obj? && "@ref" in items[j].fields
    requires forall j :: 0 <= j < |items| ==> !Tagged(items[j].fields, "scopus")
    ensures ScopusHrefs(items) == Ok([])
  {
    if |items| > 0 {
      ScopusHrefsNone(items[1..]);
    }
  }

  /** `doc_rec_link` is the "@href" of the first link tagged "scopus"; when the entry's
      links all carry tags and none is "scopus", the entry is rejected. */
  lemma CollectEntryLink(entry: Payload)
    ensures CollectEntryData(entry).Ok? ==>
              "link" in entry && entry["link"].List?
              && exists i :: FirstScopus(entry["link"].items, i)
                             && entry["link"].items[i].fields["@href"] == Str(CollectEntryData(entry).value.docRecLink)
    ensures ("link" in entry && entry["link"].List?
             && (forall j :: 0 <= j < |entry["link"].items| ==>
                   entry["link"].items[j].Obj? && "@ref" in entry["link"].items[j].fields
                   && !Tagged(entry["link"].items[j].fields, "scopus")))
            ==> CollectEntryData(entry).Err?
  {
    if CollectEntryData(entry).Ok? {
      ScopusHrefsFirst(entry["link"].items);
    }
    if "link" in entry && entry["link"].List?
       && (forall j :: 0 <= j < |entry["link"].items| ==>
             entry["link"].items[j].Obj? && "@ref" in entry["link"].items[j].fields
             && !Tagged(entry["link"].items[j].fields, "scopus")) {
      ScopusHrefsNone(entry["link"].items);
    }
  }
}
