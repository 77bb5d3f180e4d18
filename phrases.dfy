/** The funding-text filter phrases read from a file, one per line
    (utils.py, `load_filter_phrases`). The file's lines, each with its line break,
    are the input. */
module Phrases {
  import opened Text

  /** `[line.strip() for line in lines if not line.isspace()]`. */
  function FilterPhrases(lines: seq<string>): (r: seq<string>)
    ensures forall i :: 0 <= i < |r| ==> Stripped(r[i])
  {
    if |lines| == 0 then []
    else
      var rest := FilterPhrases(lines[1..]);
      if IsBlank(lines[0]) then rest
      else
        StrippedStrip(lines[0]);
        [Strip(lines[0])] + rest
  }

  /** The text neither starts nor ends with whitespace. */
  predicate Stripped(s: string)
  {
    s == [] || (!IsSpace(s[0]) && !IsSpace(s[|s| - 1]))
  }

  /** Stripping leaves no outer whitespace. */
  lemma StrippedStrip(s: string)
    ensures Stripped(Strip(s))
  {
    StripSlice(s);
  }

  /** A text without outer whitespace is left as it is by stripping, so every phrase
      is already in stripped form. */
  lemma StrippedFixed(s: string)
    requires Stripped(s)
    ensures Strip(s) == s
  {
    if s != [] {
      assert StripLeft(s) == s;
    }
  }

  /** `line` is kept by the filter and yields the phrase `p`. */
  predicate Yields(line: string, p: string)
  {
    !IsBlank(line) && Strip(line) == p
  }

  /** A phrase is kept exactly when it is the stripped form of some line that is not
      whitespace only. */
  lemma {:induction false} FilterPhrasesMembers(lines: seq<string>, p: string)
    ensures p in FilterPhrases(lines) <==> exists i :: 0 <= i < |lines| && Yields(lines[i], p)
  {
    if |lines| > 0 {
      var tail := lines[1..];
      FilterPhrasesMembers(tail, p);
      assert p in FilterPhrases(lines) <==> Yields(lines[0], p) || p in FilterPhrases(tail);
      if exists i :: 0 <= i < |lines| && Yields(lines[i], p) {
        var i :| 0 <= i < |lines| && Yields(lines[i], p);
        if i > 0 {
          assert Yields(tail[i - 1], p);
        }
      }
      if p in FilterPhrases(tail) {
        var j :| 0 <= j < |tail| && Yields(tail[j], p);
        assert Yields(lines[j + 1], p);
      }
    }
  }

  /** Nothing but blank lines is dropped: the number of phrases is the number of lines
      that are not whitespace only. */
  lemma {:induction false} FilterPhrasesCount(lines: seq<string>)
    ensures |FilterPhrases(lines)| == |lines| - BlankCount(lines)
  {
    if |lines| > 0 {
      FilterPhrasesCount(lines[1..]);
    }
  }

  /** Reading one more line appends its phrase, if it has one, after the phrases of the
      earlier lines: the phrases follow the order of the file, one per non-blank line. */
  lemma {:induction false} FilterPhrasesSnoc(lines: seq<string>, line: string)
    ensures FilterPhrases(lines + [line]) == FilterPhrases(lines) + (if IsBlank(line) then [] else [Strip(line)])
  {
    if |lines| > 0 {
      assert (lines + [line])[1..] == lines[1..] + [line];
      FilterPhrasesSnoc(lines[1..], line);
    } else {
      assert (lines + [line])[1..] == [];
    }
  }

  /** The number of whitespace-only lines. */
  function BlankCount(lines: seq<string>): nat
  {
    if |lines| == 0 then 0 else (if IsBlank(lines[0]) then 1 else 0) + BlankCount(lines[1..])
  }

  /** A non-empty line whose stripped form is "" is all whitespace, so the filter
      drops it. */
  lemma NotYieldsEmpty(line: string)
    requires line != ""
    ensures !Yields(line, "")
  {
    StripBlank(line);
  }

  /** Lines read from a file are never empty (each holds at least its line break or one
      character), so no phrase is the empty string. */
  lemma NoEmptyPhrase(lines: seq<string>)
    requires forall i :: 0 <= i < |lines| ==> lines[i] != ""
    ensures "" !in FilterPhrases(lines)
  {
    forall i | 0 <= i < |lines|
      ensures !Yields(lines[i], "")
    {
      NotYieldsEmpty(lines[i]);
    }
    FilterPhrasesMembers(lines, "");
  }
}
