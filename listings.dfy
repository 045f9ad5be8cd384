/**
 * `extract_data_listings`: the `div` elements whose `id` contains a match of the
 * regular expression `PR[\d]+~`, in document order.  The expression is applied with
 * a search, so the match may start anywhere in the id.
 */
module Listings {
  import opened Tree
  import Text

  /** End of the run of digits in `s` that starts at position `k`. */
  function DigitRunEnd(s: string, k: nat): (e: nat)
    requires k <= |s|
    ensures k <= e <= |s|
    ensures forall m :: k <= m < e ==> Text.IsDigit(s[m])
    ensures e < |s| ==> !Text.IsDigit(s[e])
    decreases |s| - k
  {
    if k < |s| && Text.IsDigit(s[k]) then DigitRunEnd(s, k + 1) else k
  }

  /** The matcher for `PR[\d]+~` at position `i`: `PR`, the longest digit run, then `~`. */
  predicate MatchesAt(s: string, i: nat)
  {
    i + 2 <= |s| && s[i] == 'P' && s[i + 1] == 'R' &&
    var e := DigitRunEnd(s, i + 2);
    i + 2 < e < |s| && s[e] == '~'
  }

  /** The pattern read literally: `s[i..j + 1]` is `PR`, one or more digits, then `~`. */
  ghost predicate PatternSpans(s: string, i: nat, j: nat)
  {
    i + 2 < j < |s| && s[i] == 'P' && s[i + 1] == 'R'
    && (forall m :: i + 2 <= m < j ==> Text.IsDigit(s[m]))
    && s[j] == '~'
  }

  /** Taking the longest digit run loses no match, because `~` is not a digit. */
  lemma MatchesAtIff(s: string, i: nat)
    ensures MatchesAt(s, i) <==> exists j :: PatternSpans(s, i, j)
  {
    if MatchesAt(s, i) {
      assert PatternSpans(s, i, DigitRunEnd(s, i + 2));
    }
    if j: nat :| PatternSpans(s, i, j) {
      var e := DigitRunEnd(s, i + 2);
      assert e == j;
    }
  }

  /** `re.search(r'PR[\d]+~', id)` succeeds. */
  predicate IdMatches(id: string)
  {
    exists i | 0 <= i < |id| :: MatchesAt(id, i)
  }

  /** `find_all('div', id=...)` accepts an element: a `div` that has an id, and the id matches. */
  predicate IsListing(e: Element)
  {
    e.name == "div" && e.id.Some? && IdMatches(e.id.value)
  }

  /** `extract_data_listings`. */
  function ExtractDataListings(doc: Element): (r: seq<Element>)
    ensures forall x :: x in r <==> x in Descendants(doc) && IsListing(x)
    ensures (forall x :: x in Descendants(doc) ==> !IsListing(x)) ==> r == []
  {
    var r := FindAll(IsListing, doc);
    assert r != [] ==> r[0] in r;
    r
  }

  /** A listing that comes earlier in the document comes earlier in the result. */
  lemma ListingsInDocumentOrder(doc: Element, before: seq<Element>, after: seq<Element>)
    requires Descendants(doc) == before + after
    ensures ExtractDataListings(doc) == Filter(IsListing, before) + Filter(IsListing, after)
  {
    FilterAppend(IsListing, before, after);
  }

  /** An id such as `PR0012345~abc` is a listing id; one without the `~` is not. */
  lemma IdExamples()
    ensures IdMatches("PR0012345~abc")
    ensures !IdMatches("PR12")
  {
    var s := "PR0012345~abc";
    assert DigitRunEnd(s, 2) == 9;
    assert MatchesAt(s, 0);
    var t := "PR12";
    forall i | 0 <= i < |t| ensures !MatchesAt(t, i) {
      if i == 0 { assert DigitRunEnd(t, 2) == 4; }
    }
  }
}
