/** Joining the author and funder records of a CrossRef work into display strings
    (utils.py, `crossref_work_parse_authors` and `crossref_work_parse_funders`). */
module Crossref {
  import opened Json
  import opened Text

  /** The "message" object of a work; the work must carry status "ok". */
  function WorkMessage(work: Payload): (r: Result<Payload>)
    ensures "status" !in work ==> r == Err(KeyMissing("status"))
    ensures "status" in work && work["status"] != Str("ok") ==> r == Err(NoData)
    ensures r.Ok? ==> "message" in work && work["message"] == Obj(r.value)
  {
    if "status" !in work then Err(KeyMissing("status"))
    else if work["status"] != Str("ok") then Err(NoData)
    else if "message" !in work then Err(KeyMissing("message"))
    else match work["message"]
      case Obj(m) => Ok(m)
      case _ => Err(WrongType("message"))
  }

  /** `for rec in value`: a list yields its items; iterating an empty string or an empty
      object yields nothing, while a non-empty one yields strings, on which the `.get`
      of the loop body fails. */
  function Records(v: Value, key: string): (r: Result<seq<Value>>)
    ensures r.Ok? <==> v.List? || v == Str("") || v == Obj(map[])
    ensures r.Ok? ==> (r.value == [] <==> v == List([]) || v == Str("") || v == Obj(map[]))
  {
    match v
    case List(items) => Ok(items)
    case Str(s) => if s == "" then Ok([]) else Err(WrongType(key))
    case Obj(f) => if f == map[] then Ok([]) else Err(WrongType(key))
  }

  // ---------------------------------------------------------------------------
  // Authors
  // ---------------------------------------------------------------------------

  /** `f"{rec.get('family', '')} {rec.get('given', ' ')}"`. */
  function AuthorName(rec: Value): Result<string>
  {
    match rec
    case Obj(a) =>
      var family :- TextOr(a, "family", "");
      var given :- TextOr(a, "given", " ");
      Ok(family + " " + given)
    case _ => Err(WrongType("author"))
  }

  /** The names of all author records, in order. */
  function AuthorNames(recs: seq<Value>): (r: Result<seq<string>>)
    ensures r.Ok? <==> forall i :: 0 <= i < |recs| ==> AuthorName(recs[i]).Ok?
    ensures r.Ok? ==> |r.value| == |recs| && forall i :: 0 <= i < |recs| ==> AuthorName(recs[i]) == Ok(r.value[i])
  {
    if |recs| == 0 then Ok([])
    else
      assert forall i :: 1 <= i < |recs| ==> recs[i] == recs[1..][i - 1];
      var first :- AuthorName(recs[0]);
      var rest :- AuthorNames(recs[1..]);
      Ok([first] + rest)
  }

  /** `crossref_work_parse_authors`: "" without an "author" key, otherwise the names
      joined with ", ". */
  function CrossrefAuthors(work: Payload): (r: Result<string>)
    ensures "status" !in work ==> r == Err(KeyMissing("status"))
    ensures "status" in work && work["status"] != Str("ok") ==> r == Err(NoData)
    ensures WorkMessage(work).Ok? && "author" !in WorkMessage(work).value ==> r == Ok("")
  {
    var m :- WorkMessage(work);
    if "author" !in m then Ok("")
    else
      var recs :- Records(m["author"], "author");
      var names :- AuthorNames(recs);
      Ok(Join(names, ", "))
  }

  /** An author record renders as its family name, a space and its given name, with
      "" for a missing family name and " " for a missing given name; other keys of the
      record play no part, and a name that is not a string fails. */
  lemma AuthorNameDefaults(a: Payload)
    ensures ("family" in a && !a["family"].Str?) || ("given" in a && !a["given"].Str?) ==>
              AuthorName(Obj(a)).Err?
    ensures ("family" !in a || a["family"].Str?) && ("given" !in a || a["given"].Str?) ==>
              AuthorName(Obj(a)) == Ok((if "family" in a then a["family"].s else "") + " "
                                       + (if "given" in a then a["given"].s else " "))
  {
  }

  /** The author string is empty exactly when the work has no authors: the "author" key
      is absent or holds something empty to iterate over. Every author contributes at
      least a space. */
  lemma CrossrefAuthorsEmpty(work: Payload)
    requires WorkMessage(work).Ok?
    ensures var m := WorkMessage(work).value;
            CrossrefAuthors(work) == Ok("") <==>
              ("author" !in m || m["author"] in {List([]), Str(""), Obj(map[])})
  {
    var m := WorkMessage(work).value;
    if "author" in m && m["author"].List? && |m["author"].items| > 0 && CrossrefAuthors(work).Ok? {
      var recs := m["author"].items;
      var names := AuthorNames(recs).value;
      assert names[0] != "" by {
        assert AuthorName(recs[0]) == Ok(names[0]);
      }
      JoinNonEmpty(names, ", ");
    }
  }

  // ---------------------------------------------------------------------------
  // Funders
  // ---------------------------------------------------------------------------

  /** `", ".join(rec.get('award', []))` when the awards are non-empty, else "". */
  function AwardsText(rec: Payload): Result<string>
  {
    if "award" !in rec then Ok("")
    else match rec["award"]
      case List(items) =>
        var awards :- Strings(items, "award");
        Ok(Join(awards, ", "))
      case _ => Err(WrongType("award"))
  }

  /** A list of JSON strings as Dafny strings. */
  function Strings(items: seq<Value>, key: string): (r: Result<seq<string>>)
    ensures r.Ok? ==> |r.value| == |items| && forall i :: 0 <= i < |items| ==> items[i] == Str(r.value[i])
  {
    if |items| == 0 then Ok([])
    else match items[0]
      case Str(s) =>
        var rest :- Strings(items[1..], key);
        Ok([s] + rest)
      case _ => Err(WrongType(key))
  }

  /** `f"{rec.get('name', '')} {awards_str}"`. */
  function FunderLine(rec: Value): Result<string>
  {
    match rec
    case Obj(f) =>
      var name :- TextOr(f, "name", "");
      var awards :- AwardsText(f);
      Ok(name + " " + awards)
    case _ => Err(WrongType("funder"))
  }

  /** The lines of all funder records, in order; the first failing record decides. */
  function FunderLines(recs: seq<Value>): Result<seq<string>>
  {
    if |recs| == 0 then Ok([])
    else
      var first :- FunderLine(recs[0]);
      var rest :- FunderLines(recs[1..]);
      Ok([first] + rest)
  }

  /** What `crossref_work_parse_funders` returns. */
  function FundersText(work: Payload): Result<string>
  {
    var m :- WorkMessage(work);
    if "funder" !in m then Ok("")
    else
      var recs :- Records(m["funder"], "funder");
      var lines :- FunderLines(recs);
      Ok(Join(lines, "; "))
  }

  /** `FunderLines` on a suffix, continued from the lines already built. */
  function Continue(done: seq<string>, rest: Result<seq<string>>): Result<seq<string>>
  {
    match rest
    case Ok(lines) => Ok(done + lines)
    case Err(f) => Err(f)
  }

  /** `crossref_work_parse_funders`: the loop that appends one line per funder. */
  method CrossrefFunders(work: Payload) returns (r: Result<string>)
    ensures r == FundersText(work)
  {
    var m :- WorkMessage(work);
    if "funder" !in m {
      return Ok("");
    }
    var recs :- Records(m["funder"], "funder");
    var funds: seq<string> := [];
    var i := 0;
    assert recs[0..] == recs;
    assert FunderLines(recs).Ok? ==> [] + FunderLines(recs).value == FunderLines(recs).value;
    while i < |recs|
      invariant 0 <= i <= |recs|
      invariant FunderLines(recs) == Continue(funds, FunderLines(recs[i..]))
    {
      assert recs[i..][0] == recs[i] && recs[i..][1..] == recs[i + 1..];
      var line := FunderLine(recs[i]);
      if line.Err? {
        return Err(line.fault);
      }
      var rest := FunderLines(recs[i + 1..]);
      assert rest.Ok? ==> funds + ([line.value] + rest.value) == (funds + [line.value]) + rest.value;
      funds := funds + [line.value];
      i := i + 1;
    }
    assert recs[i..] == [];
    assert funds + [] == funds;
    assert FunderLines(recs) == Ok(funds);
    return Ok(Join(funds, "; "));
  }

  /** Every funder line is the funder's name, a space, and its awards joined with ", ". */
  lemma {:induction false} FunderLinesShape(recs: seq<Value>)
    requires FunderLines(recs).Ok?
    ensures var lines := FunderLines(recs).value;
            |lines| == |recs|
            && forall i :: 0 <= i < |recs| ==>
                 recs[i].Obj? && FunderLine(recs[i]) == Ok(lines[i])
                 && exists name, awards :: lines[i] == name + " " + awards
                                           && TextOr(recs[i].fields, "name", "") == Ok(name)
                                           && AwardsText(recs[i].fields) == Ok(awards)
  {
    if |recs| > 0 {
      FunderLinesShape(recs[1..]);
      assert forall i :: 1 <= i < |recs| ==> recs[i] == recs[1..][i - 1];
    }
  }

  /** The funder string is empty exactly when the work has no funders: the "funder" key
      is absent or holds something empty to iterate over. */
  lemma FundersEmpty(work: Payload)
    requires WorkMessage(work).Ok?
    ensures var m := WorkMessage(work).value;
            FundersText(work) == Ok("") <==>
              ("funder" !in m || m["funder"] in {List([]), Str(""), Obj(map[])})
  {
    var m := WorkMessage(work).value;
    if "funder" in m && m["funder"].List? && |m["funder"].items| > 0 && FundersText(work).Ok? {
      var recs := m["funder"].items;
      FunderLinesShape(recs);
      var lines := FunderLines(recs).value;
      assert lines[0] != "";
      JoinNonEmpty(lines, "; ");
    }
  }
}
