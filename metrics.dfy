/** Journal metrics attached to every report row: the quartile chosen from the
    ranking site's table (utils.py, `sjr_parse_max_quartile`) and the CiteScore
    read from the metrics service's response (utils.py, `parse_cite_score`). */
module Metrics {
  import opened Json
  import opened Text

  // ---------------------------------------------------------------------------
  // Quartile selection
  // ---------------------------------------------------------------------------

  /** One row of the quartile table: subject field, year and quartile, as stripped text. */
  datatype QuartileRow = QuartileRow(field: string, year: string, quart: string)

  /** Returned when the search page yields no journal link. */
  const NoLinks: string := "N/A (no links)"

  /** Returned when the journal page has no quartile table. */
  const NoTable: string := "N/A"

  /** `df.year.max()`: the greatest year in string order. */
  function MaxYear(rows: seq<QuartileRow>): (y: string)
    requires |rows| > 0
    ensures exists i :: 0 <= i < |rows| && rows[i].year == y
    ensures forall i :: 0 <= i < |rows| ==> LexLeq(rows[i].year, y)
  {
    if |rows| == 1 then
      LexLeqRefl(rows[0].year);
      rows[0].year
    else
      var m := MaxYear(rows[1..]);
      assert forall i :: 1 <= i < |rows| ==> rows[i] == rows[1..][i - 1];
      if LexLeq(m, rows[0].year) then
        LexLeqRefl(rows[0].year);
        forall i | 1 <= i < |rows|
          ensures LexLeq(rows[i].year, rows[0].year)
        {
          LexLeqTrans(rows[i].year, m, rows[0].year);
        }
        rows[0].year
      else
        LexLeqTotal(m, rows[0].year);
        var k :| 0 <= k < |rows[1..]| && rows[1..][k].year == m;
        assert rows[k + 1].year == m;
        m
  }

  /** `df[df.year == year].quart.min()`: the least quartile, in string order, among the
      rows of that year; None when no row has that year (pandas gives NaN). */
  function MinQuart(rows: seq<QuartileRow>, year: string): (q: Option<string>)
    ensures q.None? <==> forall i :: 0 <= i < |rows| ==> rows[i].year != year
    ensures q.Some? ==> exists i :: 0 <= i < |rows| && rows[i].year == year && rows[i].quart == q.value
    ensures q.Some? ==> forall i :: 0 <= i < |rows| && rows[i].year == year ==> LexLeq(q.value, rows[i].quart)
  {
    if |rows| == 0 then None
    else
      var rest := MinQuart(rows[1..], year);
      assert forall i :: 1 <= i < |rows| ==> rows[i] == rows[1..][i - 1];
      if rows[0].year != year then
        (if rest.Some? then
           var k :| 0 <= k < |rows[1..]| && rows[1..][k].year == year && rows[1..][k].quart == rest.value;
           assert rows[k + 1].year == year;
           rest
         else rest)
      else if rest.None? then
        LexLeqRefl(rows[0].quart);
        Some(rows[0].quart)
      else if LexLeq(rows[0].quart, rest.value) then
        LexLeqRefl(rows[0].quart);
        forall i | 1 <= i < |rows| && rows[i].year == year
          ensures LexLeq(rows[0].quart, rows[i].quart)
        {
          LexLeqTrans(rows[0].quart, rest.value, rows[i].quart);
        }
        Some(rows[0].quart)
      else
        LexLeqTotal(rows[0].quart, rest.value);
        var k :| 0 <= k < |rows[1..]| && rows[1..][k].year == year && rows[1..][k].quart == rest.value;
        assert rows[k + 1].year == year;
        rest
  }

  /** `q` is the least quartile among the rows of the latest year of the table. */
  predicate BestOfLatest(rows: seq<QuartileRow>, q: string)
  {
    exists i :: 0 <= i < |rows| && rows[i].quart == q
      && (forall j :: 0 <= j < |rows| ==> LexLeq(rows[j].year, rows[i].year))
      && (forall j :: 0 <= j < |rows| && rows[j].year == rows[i].year ==> LexLeq(q, rows[j].quart))
  }

  /** The end of `sjr_parse_max_quartile`: a sentinel when the journal link or the table
      is missing, otherwise the least quartile of the latest year; None stands for the
      NaN pandas produces for a table without rows. */
  function MaxQuartile(journalLink: Option<string>, table: Option<seq<QuartileRow>>): (r: Option<string>)
    ensures journalLink.None? ==> r == Some(NoLinks)
    ensures journalLink.Some? && table.None? ==> r == Some(NoTable)
    ensures journalLink.Some? && table.Some? ==> (r.None? <==> |table.value| == 0)
    ensures journalLink.Some? && table.Some? && r.Some? ==> BestOfLatest(table.value, r.value)
  {
    if journalLink.None? then Some(NoLinks)
    else if table.None? then Some(NoTable)
    else
      var rows := table.value;
      if |rows| == 0 then None
      else
        var y := MaxYear(rows);
        var q := MinQuart(rows, y);
        var k :| 0 <= k < |rows| && rows[k].year == y && rows[k].quart == q.value;
        assert BestOfLatest(rows, q.value) by {
          forall j | 0 <= j < |rows|
            ensures LexLeq(rows[j].year, rows[k].year)
          {
          }
        }
        q
  }

  /** BestOfLatest pins the quartile down: two quartiles that both satisfy it are equal,
      so the contract of MaxQuartile determines its result. */
  lemma BestOfLatestUnique(rows: seq<QuartileRow>, q1: string, q2: string)
    requires BestOfLatest(rows, q1) && BestOfLatest(rows, q2)
    ensures q1 == q2
  {
    var i1 :| 0 <= i1 < |rows| && rows[i1].quart == q1
      && (forall j :: 0 <= j < |rows| ==> LexLeq(rows[j].year, rows[i1].year))
      && (forall j :: 0 <= j < |rows| && rows[j].year == rows[i1].year ==> LexLeq(q1, rows[j].quart));
    var i2 :| 0 <= i2 < |rows| && rows[i2].quart == q2
      && (forall j :: 0 <= j < |rows| ==> LexLeq(rows[j].year, rows[i2].year))
      && (forall j :: 0 <= j < |rows| && rows[j].year == rows[i2].year ==> LexLeq(q2, rows[j].quart));
    LexLeqAntisym(rows[i1].year, rows[i2].year);
    LexLeqAntisym(q1, q2);
  }

  /** A worked case: an older year with a better quartile is ignored, and the best of the
      two subject fields of the latest year is chosen. */
  lemma MaxQuartileExample(rows: seq<QuartileRow>)
    requires rows == [QuartileRow("A", "2021", "Q1"), QuartileRow("A", "2022", "Q3"), QuartileRow("B", "2022", "Q2")]
    ensures MaxQuartile(Some("journal"), Some(rows)) == Some("Q2")
  {
    ExampleBest(rows);
    BestOfLatestUnique(rows, MaxQuartile(Some("journal"), Some(rows)).value, "Q2");
  }

  /** The third row of the worked case is the best of the latest year. */
  lemma ExampleBest(rows: seq<QuartileRow>)
    requires rows == [QuartileRow("A", "2021", "Q1"), QuartileRow("A", "2022", "Q3"), QuartileRow("B", "2022", "Q2")]
    ensures BestOfLatest(rows, "Q2")
  {
    ExampleOrder();
    LexLeqRefl("2022");
    LexLeqRefl("Q2");
    assert rows[2].quart == "Q2" && rows[2].year == "2022";
    assert forall j :: 0 <= j < |rows| ==> LexLeq(rows[j].year, rows[2].year);
    assert forall j :: 0 <= j < |rows| && rows[j].year == rows[2].year ==> LexLeq("Q2", rows[j].quart);
  }

  /** The two string comparisons the worked case relies on. */
  lemma ExampleOrder()
    ensures LexLeq("2021", "2022") && LexLeq("Q2", "Q3")
  {
    assert LexLeq("1", "2");
    assert "2021"[1..] == "021" && "2022"[1..] == "022";
    assert "021"[1..] == "21" && "022"[1..] == "22";
    assert "21"[1..] == "1" && "22"[1..] == "2";
    assert LexLeq("21", "22");
    assert LexLeq("021", "022");
    assert LexLeq("2021", "2022");
    assert "Q2"[1..] == "2" && "Q3"[1..] == "3";
    assert LexLeq("2", "3");
  }

  // ---------------------------------------------------------------------------
  // CiteScore lookup
  // ---------------------------------------------------------------------------

  /** Returned when a key on the way to the metric is missing. */
  const NoScore: Value := Str("N/A")

  /** `v[key]` on a decoded value: None for a KeyError (caught by the caller),
      a failure for a value that cannot be subscripted by a string. */
  function Member(v: Value, key: string): Result<Option<Value>>
  {
    match v
    case Obj(fields) => Ok(if key in fields then Some(fields[key]) else None)
    case _ => Err(WrongType(key))
  }

  /** `v[0]`: an empty list raises IndexError (not caught); an object has no key 0,
      which raises the KeyError the caller catches. */
  function First(v: Value, key: string): Result<Option<Value>>
  {
    match v
    case List(items) => if |items| == 0 then Err(EmptyList(key)) else Ok(Some(items[0]))
    case Obj(_) => Ok(None)
    case Str(_) => Err(WrongType(key))
  }

  /** `resp["serial-metadata-response"]["entry"][0]["citeScoreYearInfoList"]["citeScoreCurrentMetric"]`,
      with a KeyError anywhere on the way turned into "N/A". */
  function CiteScore(resp: Value): (r: Result<Value>)
    ensures resp.Obj? && "serial-metadata-response" !in resp.fields ==> r == Ok(NoScore)
    ensures !resp.Obj? ==> r.Err?
  {
    var smr :- Member(resp, "serial-metadata-response");
    if smr.None? then Ok(NoScore) else
    var entries :- Member(smr.value, "entry");
    if entries.None? then Ok(NoScore) else
    var first :- First(entries.value, "entry");
    if first.None? then Ok(NoScore) else
    var info :- Member(first.value, "citeScoreYearInfoList");
    if info.None? then Ok(NoScore) else
    var metric :- Member(info.value, "citeScoreCurrentMetric");
    if metric.None? then Ok(NoScore) else Ok(metric.value)
  }

  /** Below "entry": a missing "entry" key, or an "entry" object (whose `[0]` is a
      KeyError), gives "N/A"; an empty "entry" list is an IndexError that is not caught;
      any other objects may carry further keys. */
  lemma CiteScoreEntry(resp: Value)
    requires resp.Obj? && "serial-metadata-response" in resp.fields
    ensures var smr := resp.fields["serial-metadata-response"];
            && (!smr.Obj? ==> CiteScore(resp).Err?)
            && (smr.Obj? && "entry" !in smr.fields ==> CiteScore(resp) == Ok(NoScore))
            && (smr.Obj? && "entry" in smr.fields && smr.fields["entry"].Obj? ==> CiteScore(resp) == Ok(NoScore))
            && (smr.Obj? && "entry" in smr.fields && smr.fields["entry"] == List([]) ==>
                  CiteScore(resp) == Err(EmptyList("entry")))
  {
  }

  /** Along the path through the first entry: a missing key gives "N/A", a value that is
      not an object fails, and a complete path gives the metric itself, whatever other
      keys the objects on the way carry. */
  lemma CiteScorePath(resp: Value, smr: Payload, first: Value, rest: seq<Value>)
    requires resp.Obj? && "serial-metadata-response" in resp.fields
    requires resp.fields["serial-metadata-response"] == Obj(smr)
    requires "entry" in smr && smr["entry"] == List([first] + rest)
    ensures !first.Obj? ==> CiteScore(resp).Err?
    ensures first.Obj? && "citeScoreYearInfoList" !in first.fields ==> CiteScore(resp) == Ok(NoScore)
    ensures first.Obj? && "citeScoreYearInfoList" in first.fields ==>
              var info := first.fields["citeScoreYearInfoList"];
              && (!info.Obj? ==> CiteScore(resp).Err?)
              && (info.Obj? && "citeScoreCurrentMetric" !in info.fields ==> CiteScore(resp) == Ok(NoScore))
              && (info.Obj? && "citeScoreCurrentMetric" in info.fields ==>
                    CiteScore(resp) == Ok(info.fields["citeScoreCurrentMetric"]))
  {
    assert ([first] + rest)[0] == first;
  }
}
