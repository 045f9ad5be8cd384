/**
 * The parsed document, reduced to what the scraper looks at: an element has a tag
 * name, an optional `id` attribute, the optional single text string that the parser
 * reports as `.string`, and its child elements in document order.  The searches the
 * scraper uses (`find`, `find_all`, `find_all(..., recursive=False)`) are defined here
 * on that tree.
 */
module Tree {
  import opened Wrappers

  datatype Element = Element(name: string, id: Option<string>, text: Option<string>, children: seq<Element>)

  /** Every element of `forest` and all elements below them, in document (pre-)order. */
  function Preorder(forest: seq<Element>): (r: seq<Element>)
    ensures forall x :: x in forest ==> x in r
    decreases forest
  {
    if forest == [] then []
    else [forest[0]] + Preorder(forest[0].children) + Preorder(forest[1..])
  }

  /** The elements strictly below `e`, in document order: what a search from `e` visits. */
  function Descendants(e: Element): seq<Element>
  {
    Preorder(e.children)
  }

  /** The elements of `s` that satisfy `p`, in their order in `s`. */
  function Filter(p: Element -> bool, s: seq<Element>): (r: seq<Element>)
    ensures |r| <= |s|
    ensures forall x :: x in r <==> x in s && p(x)
  {
    if s == [] then [] else (if p(s[0]) then [s[0]] else []) + Filter(p, s[1..])
  }

  /** Filtering keeps order: what it keeps from an earlier part comes before what it keeps from a later part. */
  lemma {:induction false} FilterAppend(p: Element -> bool, a: seq<Element>, b: seq<Element>)
    ensures Filter(p, a + b) == Filter(p, a) + Filter(p, b)
  {
    if a == [] {
      assert a + b == b;
    } else {
      assert (a + b)[1..] == a[1..] + b;
      FilterAppend(p, a[1..], b);
    }
  }

  /** The first element of `s` that satisfies `p`, if there is one. */
  function First(p: Element -> bool, s: seq<Element>): (r: Option<Element>)
    ensures r.None? <==> forall x :: x in s ==> !p(x)
    ensures r.Some? ==> exists i :: 0 <= i < |s| && s[i] == r.value && p(s[i]) && forall j :: 0 <= j < i ==> !p(s[j])
  {
    if s == [] then None
    else if p(s[0]) then Some(s[0])
    else
      var r := First(p, s[1..]);
      assert r.Some? ==> exists i :: 1 <= i < |s| && s[i] == r.value && p(s[i]) && forall j :: 0 <= j < i ==> !p(s[j]) by {
        if r.Some? {
          var i :| 0 <= i < |s[1..]| && s[1..][i] == r.value && p(s[1..][i]) && forall j :: 0 <= j < i ==> !p(s[1..][j]);
          assert forall j :: 1 <= j < i + 1 ==> !p(s[j]) by {
            forall j | 1 <= j < i + 1 ensures !p(s[j]) { assert s[j] == s[1..][j - 1]; }
          }
        }
      }
      r
  }

  /** `e.find_all(p)`: the descendants of `e` that satisfy `p`, in document order. */
  function FindAll(p: Element -> bool, e: Element): seq<Element>
  {
    Filter(p, Descendants(e))
  }

  /** `e.find(p)`: the first descendant of `e` that satisfies `p`. */
  function Find(p: Element -> bool, e: Element): Option<Element>
  {
    First(p, Descendants(e))
  }

  /** `e.find_all(p, recursive=False)`: the children of `e` that satisfy `p`, in order. */
  function FindChildren(p: Element -> bool, e: Element): seq<Element>
  {
    Filter(p, e.children)
  }

  predicate IsTd(e: Element)
  {
    e.name == "td"
  }

  /** `e.find_all('td', recursive=False)`: the table cells directly under `e`. */
  function DirectTds(e: Element): (r: seq<Element>)
    ensures forall x :: x in r <==> x in e.children && x.name == "td"
  {
    FindChildren(IsTd, e)
  }
}
