# basic-scraper in Dafny

This project models the extraction core of `src/scraper.py` from the basic-scraper repository. That script scrapes the King County restaurant health-inspection search pages. It finds the restaurant listings on a parsed page, reads each listing's metadata table into a dictionary of label to values, and summarises the inspection scores as an average, a high score and a count.

The parsed HTML is abstracted as a tree of `Element(name, id, text, children)`:

- `text` stands for BeautifulSoup's `.string`. `None` means the element has no single string.
- `find_all`/`find` search the descendants in document (pre-)order. `Tree.Preorder` gives that order; the element itself is never included, as in BeautifulSoup.
- `recursive=False` filters the direct children only.

Python exceptions and `None` become `Wrappers.Result` and `Wrappers.Option`.

Modules:

- `Wrappers`: `Option` and `Result`.
- `Tree`: the element tree, preorder, `Filter`, `First`, `FindAll`, `Find`, `FindChildren` and `DirectTds`.
- `Text`:
  - `clean_data`: `Strip` over the character set space, newline, `:` and `-`; `Clean` maps a missing string to `""`.
  - ASCII `lower()`.
  - substring search.
  - a model of Python's `int()` on strings (`ParseInt`) with its printing partner `Show`.
- `Listings`:
  - the regular expression `PR[\d]+~` searched anywhere inside an id (`re.search` semantics, as BeautifulSoup uses);
  - `extract_data_listings`.
- `Metadata`:
  - `has_two_tds`;
  - the metadata-row selection;
  - `extract_restraunt_metadata` as an imperative loop. Its result keeps the dictionary's insertion order (`labels`) beside the map (`values`).
  - `CurrentLabel`, `ValuesUnder` and `LabelOrder` are the reference definitions, and the loop is proved against them.
- `Scores`:
  - `is_inspection_row`;
  - the inspection-row search;
  - `extract_score_data` as the search followed by the score-folding loop `AggregateScores`. The loop is proved against `ParsedScores`, `Failures`, `HighScore` and `Average`.

## Model

| member | source | states |
|---|---|---|
| Text.Strip | src/scraper.py:123 | the result has no leading or trailing character from " \n:-", and it is the input with only such characters removed around it |
| Text.StripUnique | src/scraper.py:123 | any trimmed substring that is surrounded only by strip characters is exactly what strip returns (strip is uniquely determined) |
| Text.Clean | src/scraper.py:119-125 | a missing string (the AttributeError path) cleans to ""; a present one cleans to a trimmed string no longer than the input |
| Text.CleanIdempotent | src/scraper.py:119-125 | cleaning an already cleaned value changes nothing |
| Text.CleanExample | src/scraper.py:123 | "  : Score- \n" cleans to "Score" |
| Text.ParseInt | src/scraper.py:169-171 | int() succeeds exactly on an optional sign followed by decimal digits; a negative result only comes from a leading '-' |
| Text.ParseShow | src/scraper.py:169 | parsing the decimal rendering of any integer gives that integer back |
| Text.DigitsValueShowNat | src/scraper.py:169 | the digit value of the decimal rendering of n is n |
| Text.CleanedNeverNegative | src/scraper.py:123-169 | under the modelled integer grammar (sign, then ASCII digits), a cleaned cell never parses to a negative number, because strip removes every leading '-' |
| Listings.MatchesAtIff | src/scraper.py:107 | the greedy match at position i agrees with the regular expression PR, one or more digits, then '~' |
| Listings.ExtractDataListings | src/scraper.py:105-108 | an element is returned exactly when it is a descendant div whose id matches the pattern somewhere; with no such div the result is empty |
| Listings.ListingsInDocumentOrder | src/scraper.py:108 | listings come out in document order: splitting the descendants splits the result the same way |
| Listings.IdExamples | src/scraper.py:107 | "PR0012345~abc" matches, "PR12" (no '~') does not |
| Metadata.MetadataRows | src/scraper.py:111-134 | with no tbody the rows are empty (the AttributeError path); otherwise the rows are exactly the tbody's direct tr children with exactly two direct td cells |
| Metadata.CleanRow | src/scraper.py:138-139 | both cleaned cells of a row are trimmed |
| Metadata.ExtractRestaurantMetadata | src/scraper.py:128-142 | the dictionary's keys, in insertion order, are LabelOrder of the cleaned rows, and each key maps to ValuesUnder that label; with no tbody the result is empty |
| Metadata.LabelOrderIff | src/scraper.py:140-141 | a label is a key of the result exactly when some value was filed under it |
| Metadata.CurrentLabelIsMostRecent | src/scraper.py:140 | the current label is "" iff no row so far had a label; otherwise it is the label of the last row whose label was non-empty |
| Metadata.CarryOver | src/scraper.py:140-141 | rows with an empty label keep the current label, and their values are appended under it |
| Metadata.ValuesBeforeAnyLabel | src/scraper.py:136-141 | values that come before any labelled row are filed under the empty label "" |
| Metadata.LabelOnFirstRowOnly | src/scraper.py:137-141 | a label on the first of three rows collects all three values |
| Metadata.LabelOrderDistinct | src/scraper.py:141 | no label is inserted twice |
| Metadata.EveryRowFiledOnce | src/scraper.py:137-141 | the values under all keys together number exactly the rows: no row is lost or filed twice |
| Metadata.SetdefaultAppend | src/scraper.py:141 | setdefault-then-append adds the key, appends the value to its list and leaves every other key unchanged |
| Metadata.GroupsNextRow | src/scraper.py:140-141 | one loop step keeps the map equal to the grouping of the rows seen so far |
| Scores.IsInspectionRow | src/scraper.py:145-159 | it raises (uncaught IndexError) exactly on a tr with no direct td; True needs exactly four cells |
| Scores.InspectionRowIff | src/scraper.py:145-159 | True exactly for a tr with four cells whose lower-cased cleaned first cell contains "inspection" but not at its start |
| Scores.HeaderRowExcluded | src/scraper.py:157-158 | a row whose first cell reads "Inspection Type" is not an inspection row |
| Scores.HeaderTextStartsWithKeyword | src/scraper.py:154-158 | "Inspection Type" lower-cased starts with "inspection" |
| Scores.SelectInspectionRows | src/scraper.py:163 | the search fails iff some candidate raises; otherwise it keeps exactly the rows that test True, in order |
| Scores.InspectionRowsOutcome | src/scraper.py:163 | the search over the descendants fails iff some descendant tr has no direct td; on success every found row has four cells |
| Scores.ScoreTexts | src/scraper.py:167 | one cleaned third-cell text per row, in row order |
| Scores.ParsedPlusFailures | src/scraper.py:164-171 | parsed scores plus failed parses account for every row |
| Scores.HighScoreIsMax | src/scraper.py:165-174 | the high score is at least 0 and at least every parsed score, and it is 0 or one of them |
| Scores.ScoresNonNegative | src/scraper.py:167-169 | under the modelled integer grammar, every score parsed from a cleaned cell is non-negative |
| Scores.SumAtMost | src/scraper.py:173 | the total is at most the count times any bound on the scores |
| Scores.AverageBounds | src/scraper.py:175-176 | the average of non-negative scores lies between 0 and the high score |
| Scores.ScoreExample | src/scraper.py:166-176 | cells "12", "abc", "0", "7" give scores [12, 0, 7], one failure, high score 12 and average 19/3 |
| Scores.AggregateScores | src/scraper.py:164-181 | the loop's count is the number of rows that parse, its high score is HighScore and its average is Average of the parsed scores |
| Scores.ExtractScoreData | src/scraper.py:162-182 | fails iff some descendant tr has no direct td; otherwise it summarises the rows that pass is_inspection_row as AggregateScores does |

## Left out

- `get_inspection_page` and the `INSPECTION_*` constants: they send an HTTP request, so they are network I/O.
- `load_inspection_page`: reads a file from disk, which is I/O.
- `parse_source`: html5lib parsing is replaced by the abstract element tree. Encodings, malformed HTML and text nodes are not modelled.
- The `__main__` block: it only drives the functions above and prints.
- `.string` becomes the `text` field. It is given, not derived from the element's children.
- `Text.Lower`: lower-cases ASCII letters only. Python's `lower()` also folds other Unicode letters.
- `Listings.DigitRunEnd`: `\d` is taken as an ASCII digit. In a Python 3 `str` pattern `\d` matches any Unicode decimal digit, so an id such as `PR١٢~` is a listing for the source but not for the model.
- `Text.ParseInt`: accepts only an optional sign and ASCII digits. Python's `int()` also allows surrounding whitespace (tab, carriage return and others), underscores between digits and non-ASCII digits. A cleaned cell can still carry a tab or a carriage return, which Python would ignore and the model rejects.
- `Text.CleanedNeverNegative`: holds only for the modelled integer grammar. `strip(" \n:-")` keeps a leading tab, carriage return or non-breaking space, and Python's `int()` skips that whitespace, so a cell reading `"\t-5"` gives -5 in the source. The model's `ParseInt` rejects that text, so the model never sees a negative score.
- `Scores.ScoresNonNegative`: the same restriction. In the source a cell like `"\t-5"` yields a negative score; the 0 floor of the high score then matters, and the average score can be negative.
- `Scores.ScoreText`: `row.find_all('td')[2]` searches all descendants. The model takes the third direct td cell, so td cells nested inside the first two are not modelled.
- `Scores.AggregateScores`: the average is an exact `real`. The source uses a floating-point division, so rounding is not modelled.
- `Scores.ExtractScoreData`: the result is a summary record, not a dictionary keyed by the three display strings.
- Geocoding, and merging the metadata with the score summary into one record: `src/scraper.py` does neither; its main block prints the two dictionaries separately.

### Notes on the source's behaviour

- The id pattern: BeautifulSoup applies the compiled regular expression with `search`, not `match`, so `PR[\d]+~` may occur anywhere in the id. The model searches every position.
- Parsing a score: Python's `int()` accepts either sign before the digits, and the model's `ParseInt` does too. Under that grammar `Text.CleanedNeverNegative` proves that a cleaned cell never parses to a negative score, since strip removes every leading `-`. With the whitespace `int()` also skips, the source can still produce one (see `Text.CleanedNeverNegative` under "## Left out").
