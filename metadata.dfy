/**
 * `extract_restraunt_metadata`: one forward pass over the two-cell rows directly
 * under the first `tbody` of a listing.  A row's cleaned first cell, when it is not
 * empty, becomes the current label; the row's cleaned second cell is appended to
 * the list kept for the current label.  The current label starts as `""`.
 */
module Metadata {
  import opened Tree
  import opened Text

  predicate IsTbody(e: Element)
  {
    e.name == "tbody"
  }

  /** `has_two_tds`: a `tr` with exactly two direct `td` cells. */
  predicate HasTwoTds(e: Element)
  {
    e.name == "tr" && |DirectTds(e)| == 2
  }

  /**
   * `element.find('tbody').find_all(has_two_tds, recursive=False)`, with the
   * `AttributeError` of a missing `tbody` turned into no rows.
   */
  function MetadataRows(element: Element): (rows: seq<Element>)
    ensures forall x :: x in rows ==> HasTwoTds(x)
    ensures Find(IsTbody, element).None? ==> rows == []
    ensures Find(IsTbody, element).Some? ==>
      forall x :: x in rows <==> x in Find(IsTbody, element).value.children && HasTwoTds(x)
  {
    match Find(IsTbody, element)
    case None => []
    case Some(tbody) => FindChildren(HasTwoTds, tbody)
  }

  /** A metadata row after cleaning: the key cell and the value cell. */
  datatype Row = Row(key: string, value: string)

  function CleanRow(row: Element): (r: Row)
    requires HasTwoTds(row)
    ensures Trimmed(r.key) && Trimmed(r.value)
  {
    var tds := DirectTds(row);
    Row(Clean(tds[0].text), Clean(tds[1].text))
  }

  function CleanRows(rows: seq<Element>): (r: seq<Row>)
    requires forall x :: x in rows ==> HasTwoTds(x)
    ensures |r| == |rows|
    ensures forall i :: 0 <= i < |rows| ==> r[i] == CleanRow(rows[i])
  {
    seq(|rows|, i requires 0 <= i < |rows| => CleanRow(rows[i]))
  }

  /** Row `i`'s cleaned cells, as the extraction loop computes them. */
  lemma CleanRowAt(rows: seq<Element>, i: nat)
    requires forall x :: x in rows ==> HasTwoTds(x)
    requires i < |rows|
    ensures |DirectTds(rows[i])| == 2
    ensures CleanRows(rows)[i] == Row(Clean(DirectTds(rows[i])[0].text), Clean(DirectTds(rows[i])[1].text))
  {
    assert rows[i] in rows;
  }

  /** The value cells of `rows`, in order. */
  function Values(rows: seq<Row>): (r: seq<string>)
    ensures |r| == |rows|
    ensures forall i :: 0 <= i < |rows| ==> r[i] == rows[i].value
  {
    seq(|rows|, i requires 0 <= i < |rows| => rows[i].value)
  }

  /** The label in force after `rows`: the most recent non-empty label cell, or `""`. */
  function CurrentLabel(rows: seq<Row>): string
  {
    if rows == [] then ""
    else if rows[|rows| - 1].key != "" then rows[|rows| - 1].key
    else CurrentLabel(rows[..|rows| - 1])
  }

  /** The values that end up under `lbl`: those of the rows during which `lbl` is in force. */
  function ValuesUnder(rows: seq<Row>, lbl: string): seq<string>
  {
    if rows == [] then []
    else ValuesUnder(rows[..|rows| - 1], lbl)
         + (if CurrentLabel(rows) == lbl then [rows[|rows| - 1].value] else [])
  }

  /** The labels in the order in which they first come into force. */
  function LabelOrder(rows: seq<Row>): seq<string>
  {
    if rows == [] then []
    else
      var earlier := LabelOrder(rows[..|rows| - 1]);
      if CurrentLabel(rows) in earlier then earlier else earlier + [CurrentLabel(rows)]
  }

  predicate Distinct(s: seq<string>)
  {
    forall i, j :: 0 <= i < j < |s| ==> s[i] != s[j]
  }

  /** One more row: how the label in force, the grouped values and the label order change. */
  lemma NextRow(rows: seq<Row>, i: nat)
    requires i < |rows|
    ensures CurrentLabel(rows[..i + 1]) == if rows[i].key != "" then rows[i].key else CurrentLabel(rows[..i])
    ensures forall l :: ValuesUnder(rows[..i + 1], l)
                        == ValuesUnder(rows[..i], l) + (if CurrentLabel(rows[..i + 1]) == l then [rows[i].value] else [])
    ensures LabelOrder(rows[..i + 1])
            == if CurrentLabel(rows[..i + 1]) in LabelOrder(rows[..i]) then LabelOrder(rows[..i])
               else LabelOrder(rows[..i]) + [CurrentLabel(rows[..i + 1])]
  {
    assert rows[..i + 1][..i] == rows[..i];
  }

  /** A label is among the dictionary's keys exactly when some value was filed under it. */
  lemma {:induction false} LabelOrderIff(rows: seq<Row>, l: string)
    ensures l in LabelOrder(rows) <==> ValuesUnder(rows, l) != []
  {
    if rows != [] {
      LabelOrderIff(rows[..|rows| - 1], l);
    }
  }

  /**
   * The label in force is the key of the last row with a non-empty key, and it is
   * `""` exactly when no row so far has one.
   */
  lemma {:induction false} CurrentLabelIsMostRecent(rows: seq<Row>)
    ensures CurrentLabel(rows) == "" <==> forall i :: 0 <= i < |rows| ==> rows[i].key == ""
    ensures CurrentLabel(rows) != "" ==>
      exists i :: 0 <= i < |rows| && rows[i].key == CurrentLabel(rows)
                  && forall j :: i < j < |rows| ==> rows[j].key == ""
  {
    if rows != [] {
      var n := |rows| - 1;
      var earlier := rows[..n];
      CurrentLabelIsMostRecent(earlier);
      assert forall i :: 0 <= i < n ==> rows[i] == earlier[i];
      if rows[n].key == "" && CurrentLabel(rows) != "" {
        var i :| 0 <= i < n && earlier[i].key == CurrentLabel(earlier)
                 && forall j :: i < j < n ==> earlier[j].key == "";
        assert forall j :: i < j < |rows| ==> rows[j].key == "";
      }
    }
  }

  /** Rows with an empty key keep the label in force and add their values under it, in order. */
  lemma {:induction false} CarryOver(rows: seq<Row>, blank: seq<Row>)
    requires forall i :: 0 <= i < |blank| ==> blank[i].key == ""
    ensures CurrentLabel(rows + blank) == CurrentLabel(rows)
    ensures ValuesUnder(rows + blank, CurrentLabel(rows)) == ValuesUnder(rows, CurrentLabel(rows)) + Values(blank)
  {
    if blank == [] {
      assert rows + blank == rows;
    } else {
      var m := |blank| - 1;
      CarryOver(rows, blank[..m]);
      assert (rows + blank)[..|rows + blank| - 1] == rows + blank[..m];
      assert Values(blank) == Values(blank[..m]) + [blank[m].value];
    }
  }

  /** Values that come before any non-empty key are filed under `""`. */
  lemma ValuesBeforeAnyLabel(rows: seq<Row>)
    requires forall i :: 0 <= i < |rows| ==> rows[i].key == ""
    ensures CurrentLabel(rows) == ""
    ensures ValuesUnder(rows, "") == Values(rows)
  {
    CarryOver([], rows);
    assert [] + rows == rows;
  }

  /** A label given only on the first of three rows collects all three values, in order. */
  lemma LabelOnFirstRowOnly(l: string, v1: string, v2: string, v3: string)
    requires l != ""
    ensures LabelOrder([Row(l, v1), Row("", v2), Row("", v3)]) == [l]
    ensures ValuesUnder([Row(l, v1), Row("", v2), Row("", v3)], l) == [v1, v2, v3]
  {
    var rows := [Row(l, v1), Row("", v2), Row("", v3)];
    assert rows[..1] == [Row(l, v1)] && rows[..2] == [Row(l, v1), Row("", v2)];
    assert [Row(l, v1)][..0] == [];
    assert LabelOrder(rows[..1]) == [l];
    assert CurrentLabel(rows[..2]) == l && LabelOrder(rows[..2]) == [l];
    assert CurrentLabel(rows) == l;
    CarryOver([Row(l, v1)], [Row("", v2), Row("", v3)]);
    assert [Row(l, v1)] + [Row("", v2), Row("", v3)] == rows;
  }


  /** Every label is a key of the dictionary only once. */
  lemma {:induction false} LabelOrderDistinct(rows: seq<Row>)
    ensures Distinct(LabelOrder(rows))
  {
    if rows != [] {
      LabelOrderDistinct(rows[..|rows| - 1]);
    }
  }

  /** The number of values filed under the labels of `labels`. */
  function CountValues(rows: seq<Row>, labels: seq<string>): nat
  {
    if labels == [] then 0
    else CountValues(rows, labels[..|labels| - 1]) + |ValuesUnder(rows, labels[|labels| - 1])|
  }

  lemma {:induction false} CountAfterRow(rows: seq<Row>, labels: seq<string>)
    requires rows != [] && Distinct(labels)
    ensures CountValues(rows, labels)
            == CountValues(rows[..|rows| - 1], labels) + (if CurrentLabel(rows) in labels then 1 else 0)
  {
    if labels != [] {
      var m := |labels| - 1;
      assert Distinct(labels[..m]);
      CountAfterRow(rows, labels[..m]);
      assert CurrentLabel(rows) in labels <==> CurrentLabel(rows) in labels[..m] || CurrentLabel(rows) == labels[m];
    }
  }

  /** Each row contributes exactly one value: the values under all labels number the rows. */
  lemma {:induction false} EveryRowFiledOnce(rows: seq<Row>)
    ensures CountValues(rows, LabelOrder(rows)) == |rows|
  {
    if rows != [] {
      var earlier := rows[..|rows| - 1];
      var c := CurrentLabel(rows);
      EveryRowFiledOnce(earlier);
      LabelOrderDistinct(earlier);
      CountAfterRow(rows, LabelOrder(earlier));
      if c !in LabelOrder(earlier) {
        LabelOrderIff(earlier, c);
        var order := LabelOrder(rows);
        assert order[..|order| - 1] == LabelOrder(earlier);
      }
    }
  }

  /** `m.setdefault(k, []).append(v)`, as a new dictionary. */
  function SetdefaultAppend(m: map<string, seq<string>>, k: string, v: string): (r: map<string, seq<string>>)
    ensures r.Keys == m.Keys + {k}
    ensures r[k] == (if k in m then m[k] else []) + [v]
    ensures forall l :: l in m && l != k ==> r[l] == m[l]
  {
    m[k := (if k in m then m[k] else []) + [v]]
  }

  /** `m` files the values of `rows` under their labels: its keys are the labels, each with its values. */
  ghost predicate Groups(rows: seq<Row>, m: map<string, seq<string>>)
  {
    && (forall l :: l in m <==> l in LabelOrder(rows))
    && (forall l :: l in m ==> m[l] == ValuesUnder(rows, l))
  }

  /** Filing one more row's value under the label then in force keeps the grouping exact. */
  lemma GroupsNextRow(rows: seq<Row>, i: nat, m: map<string, seq<string>>)
    requires i < |rows| && Groups(rows[..i], m)
    ensures Groups(rows[..i + 1], SetdefaultAppend(m, CurrentLabel(rows[..i + 1]), rows[i].value))
  {
    var c := CurrentLabel(rows[..i + 1]);
    var m' := SetdefaultAppend(m, c, rows[i].value);
    NextRow(rows, i);
    assert c in LabelOrder(rows[..i + 1]);
    if c in m {
      assert m'[c] == ValuesUnder(rows[..i + 1], c);
    } else {
      LabelOrderIff(rows[..i], c);
      assert m'[c] == ValuesUnder(rows[..i + 1], c);
    }
    forall l | l in m' && l != c ensures m'[l] == ValuesUnder(rows[..i + 1], l) {
      assert m'[l] == m[l];
    }
  }

  /** The dictionary `rdata`, with its insertion order made explicit. */
  datatype MetadataMap = MetadataMap(labels: seq<string>, values: map<string, seq<string>>)

  /** `extract_restraunt_metadata`. */
  method ExtractRestaurantMetadata(element: Element) returns (r: MetadataMap)
    ensures Find(IsTbody, element).None? ==> r == MetadataMap([], map[])
    ensures var cells := CleanRows(MetadataRows(element));
      r.labels == LabelOrder(cells) && Groups(cells, r.values)
  {
    var metadataRows := MetadataRows(element);
    ghost var cells := CleanRows(metadataRows);
    var rdata: map<string, seq<string>> := map[];
    var order: seq<string> := [];
    var currentLabel := "";
    for i := 0 to |metadataRows|
      invariant currentLabel == CurrentLabel(cells[..i])
      invariant order == LabelOrder(cells[..i])
      invariant Groups(cells[..i], rdata)
    {
      CleanRowAt(metadataRows, i);
      var tds := DirectTds(metadataRows[i]);
      var keyCell, valCell := tds[0], tds[1];
      var newLabel := Clean(keyCell.text);
      currentLabel := if newLabel != "" then newLabel else currentLabel;
      var value := Clean(valCell.text);
      NextRow(cells, i);
      GroupsNextRow(cells, i, rdata);
      if currentLabel !in rdata {
        order := order + [currentLabel];
      }
      rdata := SetdefaultAppend(rdata, currentLabel, value);
    }
    assert cells[..|metadataRows|] == cells;
    r := MetadataMap(order, rdata);
  }
}
