/**
 * `is_inspection_row` and `extract_score_data`: find the inspection rows of a
 * listing, parse the third cell of each as an integer and fold the parsed scores
 * into a count, a total and a high score with a floor of 0.
 */
module Scores {
  import opened Wrappers
  import opened Tree
  import opened Text

  /** The exception that escapes `is_inspection_row`: `td_children[0]` on a row without cells. */
  datatype ScrapeError = IndexError

  /** The word an inspection row's first cell must contain, but not start with. */
  const Keyword: string := "inspection"

  /** The lower-cased cleaned text of the first direct cell. */
  function FirstCellText(e: Element): string
    requires DirectTds(e) != []
  {
    Lower(Clean(DirectTds(e)[0].text))
  }

  /** `is_inspection_row`, with the uncaught `IndexError` as `Err`. */
  function IsInspectionRow(e: Element): (r: Result<bool, ScrapeError>)
    ensures r.Err? <==> e.name == "tr" && DirectTds(e) == []
    ensures r == Ok(true) ==> |DirectTds(e)| == 4
  {
    if e.name != "tr" then Ok(false)
    else
      var tds := DirectTds(e);
      if |tds| == 0 then Err(IndexError)
      else
        var text := FirstCellText(e);
        Ok(|tds| == 4 && Contains(text, Keyword) && !StartsWith(text, Keyword))
  }

  /**
   * An inspection row is a `tr` with four direct cells whose first cell's text has
   * `inspection` somewhere after its first character and not at the start.
   */
  lemma InspectionRowIff(e: Element)
    ensures IsInspectionRow(e) == Ok(true) <==>
      && e.name == "tr" && |DirectTds(e)| == 4
      && (exists i :: 1 <= i && OccursAt(FirstCellText(e), Keyword, i))
      && !OccursAt(FirstCellText(e), Keyword, 0)
  {
    if e.name == "tr" && |DirectTds(e)| == 4 {
      var t := FirstCellText(e);
      if i :| 1 <= i && OccursAt(t, Keyword, i) {
        assert 0 <= i <= |t| - |Keyword|;
      }
    }
  }

  /** The header text "Inspection Type" has nothing to strip. */
  lemma HeaderTextIsClean()
    ensures Clean(Some("Inspection Type")) == "Inspection Type"
  {
    var s := "Inspection Type";
    assert s[0..|s|] == s;
    StripUnique(s, 0, s);
  }

  /** Lower-cased, the header text "Inspection Type" starts with the keyword. */
  lemma HeaderTextStartsWithKeyword()
    ensures StartsWith(Lower("Inspection Type"), "inspection")
  {
    var s := "Inspection Type";
    var t := Lower(s);
    forall k | 0 <= k < 10 ensures t[k] == "inspection"[k] {
      assert t[k] == LowerChar(s[k]);
    }
    assert t[..10] == "inspection";
  }

  /** A row whose first cell reads "Inspection Type" (a header row) is never an inspection row. */
  lemma HeaderRowExcluded(e: Element)
    requires e.name == "tr" && DirectTds(e) != []
    requires DirectTds(e)[0].text == Some("Inspection Type")
    ensures IsInspectionRow(e) == Ok(false)
  {
    HeaderTextIsClean();
    HeaderTextStartsWithKeyword();
  }

  predicate IsCandidateRow(e: Element)
  {
    IsInspectionRow(e) == Ok(true)
  }

  /** `find_all(is_inspection_row)` over `es`: the predicate is applied to each in turn, and its exception escapes. */
  function SelectInspectionRows(es: seq<Element>): (r: Result<seq<Element>, ScrapeError>)
    ensures r.Err? <==> exists x :: x in es && IsInspectionRow(x).Err?
    ensures r.Ok? ==> r.value == Filter(IsCandidateRow, es)
  {
    if es == [] then Ok([])
    else match IsInspectionRow(es[0])
      case Err(err) => Err(err)
      case Ok(keep) =>
        match SelectInspectionRows(es[1..])
        case Err(err) => Err(err)
        case Ok(rest) => Ok((if keep then [es[0]] else []) + rest)
  }

  /** `element.find_all(is_inspection_row)`. */
  function InspectionRows(element: Element): Result<seq<Element>, ScrapeError>
  {
    SelectInspectionRows(Descendants(element))
  }

  /**
   * The search raises exactly when the listing holds a `tr` without direct cells;
   * otherwise every row it returns has four direct cells.
   */
  lemma InspectionRowsOutcome(element: Element)
    ensures InspectionRows(element).Err? <==>
      exists x :: x in Descendants(element) && x.name == "tr" && DirectTds(x) == []
    ensures InspectionRows(element).Ok? ==>
      forall x :: x in InspectionRows(element).value ==> |DirectTds(x)| == 4
  {
  }

  /** `clean_data(row.find_all('td')[2])`, taken here as the third direct cell. */
  function ScoreText(row: Element): string
    requires |DirectTds(row)| > 2
  {
    Clean(DirectTds(row)[2].text)
  }

  function ScoreTexts(rows: seq<Element>): (r: seq<string>)
    requires forall x :: x in rows ==> |DirectTds(x)| > 2
    ensures |r| == |rows|
    ensures forall i :: 0 <= i < |rows| ==> r[i] == ScoreText(rows[i])
  {
    seq(|rows|, i requires 0 <= i < |rows| => ScoreText(rows[i]))
  }

  /** The scores that parse, in row order. */
  function ParsedScores(texts: seq<string>): seq<int>
  {
    if texts == [] then []
    else
      var earlier := ParsedScores(texts[..|texts| - 1]);
      match ParseInt(texts[|texts| - 1])
      case None => earlier
      case Some(v) => earlier + [v]
  }

  /** The number of texts that do not parse. */
  function Failures(texts: seq<string>): nat
  {
    if texts == [] then 0
    else Failures(texts[..|texts| - 1]) + (if ParseInt(texts[|texts| - 1]).None? then 1 else 0)
  }

  function Sum(s: seq<int>): int
  {
    if s == [] then 0 else Sum(s[..|s| - 1]) + s[|s| - 1]
  }

  /** The running high score: starts at 0 and is raised by every larger score. */
  function HighScore(s: seq<int>): int
  {
    if s == [] then 0
    else
      var h := HighScore(s[..|s| - 1]);
      if s[|s| - 1] > h then s[|s| - 1] else h
  }

  /** `total / float(samples)`, and 0 when no score parsed. */
  function Average(s: seq<int>): real
  {
    if |s| == 0 then 0.0 else Sum(s) as real / |s| as real
  }

  /** `Average Score`, `High Score` and `Total Inspections`. */
  datatype ScoreSummary = ScoreSummary(average: real, high: int, count: int)

  /** Every text either parses or is counted as a failure. */
  lemma {:induction false} ParsedPlusFailures(texts: seq<string>)
    ensures |ParsedScores(texts)| + Failures(texts) == |texts|
  {
    if texts != [] {
      ParsedPlusFailures(texts[..|texts| - 1]);
    }
  }

  /** The high score is the maximum of 0 and all scores. */
  lemma {:induction false} HighScoreIsMax(s: seq<int>)
    ensures HighScore(s) >= 0
    ensures forall k :: 0 <= k < |s| ==> s[k] <= HighScore(s)
    ensures HighScore(s) == 0 || HighScore(s) in s
  {
    if s != [] {
      HighScoreIsMax(s[..|s| - 1]);
      assert forall k :: 0 <= k < |s| - 1 ==> s[k] == s[..|s| - 1][k];
    }
  }

  /** The scores come from cleaned texts, so none of them is negative. */
  lemma {:induction false} ScoresNonNegative(rows: seq<Element>)
    requires forall x :: x in rows ==> |DirectTds(x)| > 2
    ensures forall k :: 0 <= k < |ParsedScores(ScoreTexts(rows))| ==> ParsedScores(ScoreTexts(rows))[k] >= 0
  {
    var texts := ScoreTexts(rows);
    forall j | 0 <= j < |texts| ensures ParseInt(texts[j]).Some? ==> ParseInt(texts[j]).value >= 0 {
      CleanedNeverNegative(DirectTds(rows[j])[2].text);
    }
    ParsedNonNegative(texts);
  }

  lemma {:induction false} ParsedNonNegative(texts: seq<string>)
    requires forall j :: 0 <= j < |texts| ==> ParseInt(texts[j]).Some? ==> ParseInt(texts[j]).value >= 0
    ensures forall k :: 0 <= k < |ParsedScores(texts)| ==> ParsedScores(texts)[k] >= 0
  {
    if texts != [] {
      ParsedNonNegative(texts[..|texts| - 1]);
    }
  }

  /** A sum of scores none of which exceeds `h` is at most `|s| * h`. */
  lemma {:induction false} SumAtMost(s: seq<int>, h: int)
    requires forall k :: 0 <= k < |s| ==> s[k] <= h
    ensures Sum(s) <= |s| * h
  {
    if s != [] {
      var t := s[..|s| - 1];
      SumAtMost(t, h);
      assert (|t| + 1) * h == |t| * h + h;
    }
  }

  lemma {:induction false} SumNonNegative(s: seq<int>)
    requires forall k :: 0 <= k < |s| ==> s[k] >= 0
    ensures Sum(s) >= 0
  {
    if s != [] {
      SumNonNegative(s[..|s| - 1]);
    }
  }

  lemma DivideAtMost(a: real, n: real, h: real)
    requires n > 0.0 && a <= n * h
    ensures a / n <= h
  {
    assert a / n * n == a;
  }

  /** For scores that are not negative, the average lies between 0 and the high score. */
  lemma AverageBounds(s: seq<int>)
    requires forall k :: 0 <= k < |s| ==> s[k] >= 0
    ensures 0.0 <= Average(s) <= HighScore(s) as real
  {
    HighScoreIsMax(s);
    if |s| > 0 {
      SumAtMost(s, HighScore(s));
      SumNonNegative(s);
      var n := |s| as real;
      assert Sum(s) as real <= n * HighScore(s) as real;
      DivideAtMost(Sum(s) as real, n, HighScore(s) as real);
    }
  }

  /** Scores "12", "abc", "0", "7": three parse, the high score is 12 and the average 19/3. */
  lemma ScoreExample()
    ensures ParsedScores(["12", "abc", "0", "7"]) == [12, 0, 7]
    ensures Failures(["12", "abc", "0", "7"]) == 1
    ensures HighScore([12, 0, 7]) == 12
    ensures Average([12, 0, 7]) == 19.0 / 3.0
  {
    var texts := ["12", "abc", "0", "7"];
    assert ParsedScores([]) == [] && Failures([]) == 0;
    assert DigitsValue("12") == 12 by { assert "12"[..1] == "1"; assert "1"[..0] == ""; }
    assert ParseInt("12") == Some(12);
    assert ParseInt("abc") == None by { assert !IsDigit('a'); }
    assert ParseInt("0") == Some(0) by { assert "0"[..0] == ""; }
    assert ParseInt("7") == Some(7) by { assert "7"[..0] == ""; }
    assert texts[..3] == ["12", "abc", "0"];
    assert texts[..3][..2] == ["12", "abc"];
    assert texts[..3][..2][..1] == ["12"];
    assert ["12"][..0] == [];
    assert ParsedScores(["12"]) == [12] && Failures(["12"]) == 0;
    assert ParsedScores(["12", "abc"]) == [12] && Failures(["12", "abc"]) == 1;
    assert ParsedScores(["12", "abc", "0"]) == [12, 0] && Failures(["12", "abc", "0"]) == 1;
    assert [12, 0, 7][..2] == [12, 0] && [12, 0][..1] == [12] && [12][..0] == [];
  }

  lemma ScoreTextAt(rows: seq<Element>, i: nat)
    requires forall x :: x in rows ==> |DirectTds(x)| > 2
    requires i < |rows|
    ensures |DirectTds(rows[i])| > 2
    ensures ScoreTexts(rows)[i] == Clean(DirectTds(rows[i])[2].text)
  {
    assert rows[i] in rows;
  }

  /** One more row: a score that parses is added to the scores, one that does not is a failure. */
  lemma NextScore(texts: seq<string>, i: nat)
    requires i < |texts|
    ensures ParseInt(texts[i]).None? ==>
      && ParsedScores(texts[..i + 1]) == ParsedScores(texts[..i])
      && Failures(texts[..i + 1]) == Failures(texts[..i]) + 1
    ensures ParseInt(texts[i]).Some? ==>
      && ParsedScores(texts[..i + 1]) == ParsedScores(texts[..i]) + [ParseInt(texts[i]).value]
      && Failures(texts[..i + 1]) == Failures(texts[..i])
      && Sum(ParsedScores(texts[..i + 1])) == Sum(ParsedScores(texts[..i])) + ParseInt(texts[i]).value
      && HighScore(ParsedScores(texts[..i + 1]))
         == if ParseInt(texts[i]).value > HighScore(ParsedScores(texts[..i])) then ParseInt(texts[i]).value
            else HighScore(ParsedScores(texts[..i]))
  {
    assert texts[..i + 1][..i] == texts[..i];
    if ParseInt(texts[i]).Some? {
      var s := ParsedScores(texts[..i]);
      assert (s + [ParseInt(texts[i]).value])[..|s|] == s;
    }
  }

  /** The fold of `extract_score_data` over the inspection rows it found. */
  method AggregateScores(inspectionRows: seq<Element>) returns (summary: ScoreSummary)
    requires forall x :: x in inspectionRows ==> |DirectTds(x)| > 2
    ensures var texts := ScoreTexts(inspectionRows);
      var scores := ParsedScores(texts);
      && summary.count == |texts| - Failures(texts) == |scores|
      && summary.high == HighScore(scores)
      && summary.average == Average(scores)
  {
    ghost var texts := ScoreTexts(inspectionRows);
    var samples := |inspectionRows|;
    var total, highScore := 0, 0;
    for i := 0 to |inspectionRows|
      invariant samples == |inspectionRows| - Failures(texts[..i])
      invariant total == Sum(ParsedScores(texts[..i]))
      invariant highScore == HighScore(ParsedScores(texts[..i]))
    {
      ScoreTextAt(inspectionRows, i);
      var strval := Clean(DirectTds(inspectionRows[i])[2].text);
      NextScore(texts, i);
      match ParseInt(strval)
      case None =>
        samples := samples - 1;
      case Some(intval) =>
        assert intval == ParseInt(texts[i]).value;
        assert Sum(ParsedScores(texts[..i + 1])) == total + intval;
        total := total + intval;
        highScore := if intval > highScore then intval else highScore;
    }
    assert texts[..|inspectionRows|] == texts;
    ParsedPlusFailures(texts);
    var average := 0.0;
    if samples != 0 {
      average := total as real / samples as real;
    }
    summary := ScoreSummary(average, highScore, samples);
  }

  /** `extract_score_data`. */
  method ExtractScoreData(element: Element) returns (r: Result<ScoreSummary, ScrapeError>)
    ensures r.Err? <==> exists x :: x in Descendants(element) && x.name == "tr" && DirectTds(x) == []
    ensures r.Ok? ==>
      && InspectionRows(element).Ok?
      && forall x :: x in InspectionRows(element).value ==> |DirectTds(x)| == 4
    ensures r.Ok? ==>
      var texts := ScoreTexts(InspectionRows(element).value);
      var scores := ParsedScores(texts);
      && r.value.count == |texts| - Failures(texts) == |scores|
      && r.value.high == HighScore(scores)
      && r.value.average == Average(scores)
  {
    InspectionRowsOutcome(element);
    var found := InspectionRows(element);
    if found.Err? {
      return Err(found.error);
    }
    var summary := AggregateScores(found.value);
    r := Ok(summary);
  }
}
