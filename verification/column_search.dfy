/**
 * search_for_columns_with_keyword: for every dataset of a collection, the
 * columns whose lower-cased name contains one of the keywords. A dataset with
 * no such column is left out of the result altogether.
 */
module ColumnSearch {
  import opened Text
  import opened Survey

  /** `any(keyword in col.lower() for keyword in keywords)`. */
  predicate MatchesKeyword(column: string, keywords: seq<string>) {
    exists j :: 0 <= j < |keywords| && Contains(Lower(column), keywords[j])
  }

  /** The dataset-level filter: some column of the dataset matches some keyword. */
  predicate AnyColumnMatches(columns: seq<string>, keywords: seq<string>) {
    exists i :: 0 <= i < |columns| && MatchesKeyword(columns[i], keywords)
  }

  /** xs can be obtained from ys by deleting elements. */
  predicate IsSubsequence<T(==)>(xs: seq<T>, ys: seq<T>)
    decreases |ys|
  {
    |xs| == 0 || (|ys| > 0 && (if xs[|xs| - 1] == ys[|ys| - 1]
                                then IsSubsequence(xs[..|xs| - 1], ys[..|ys| - 1])
                                else IsSubsequence(xs, ys[..|ys| - 1])))
  }

  /**
   * The matching columns of one dataset, in their original order and case:
   * a subsequence of the columns that holds every matching column as often as
   * the dataset does and nothing else.
   */
  function MatchingColumns(columns: seq<string>, keywords: seq<string>): (r: seq<string>)
    ensures IsSubsequence(r, columns)
    ensures forall c :: multiset(r)[c] == if MatchesKeyword(c, keywords) then multiset(columns)[c] else 0
  {
    if |columns| == 0 then []
    else
      var init := columns[..|columns| - 1];
      var last := columns[|columns| - 1];
      assert columns == init + [last];
      if MatchesKeyword(last, keywords) then MatchingColumns(init, keywords) + [last]
      else MatchingColumns(init, keywords)
  }

  /** Every listed column matches, and every matching column is listed. */
  lemma MatchingColumnsMembers(columns: seq<string>, keywords: seq<string>, c: string)
    ensures c in MatchingColumns(columns, keywords) <==> c in columns && MatchesKeyword(c, keywords)
  {
    var r := MatchingColumns(columns, keywords);
    assert c in r <==> multiset(r)[c] > 0;
    assert c in columns <==> multiset(columns)[c] > 0;
  }

  /** The per-dataset list is empty exactly when the dataset-level filter rejects the dataset. */
  lemma MatchingEmptyIffNoMatch(columns: seq<string>, keywords: seq<string>)
    ensures MatchingColumns(columns, keywords) != [] <==> AnyColumnMatches(columns, keywords)
  {
    var r := MatchingColumns(columns, keywords);
    if r != [] {
      MatchingColumnsMembers(columns, keywords, r[0]);
      var i :| 0 <= i < |columns| && columns[i] == r[0];
    }
    if AnyColumnMatches(columns, keywords) {
      var i :| 0 <= i < |columns| && MatchesKeyword(columns[i], keywords);
      MatchingColumnsMembers(columns, keywords, columns[i]);
    }
  }

  /**
   * The whole search: filter the datasets, then list each survivor's matching
   * columns. A dataset is kept exactly when its list would be non-empty, so no
   * key maps to an empty list.
   */
  function Search(data: map<string, Table>, keywords: seq<string>): (r: map<string, seq<string>>)
    ensures forall k :: k in r <==> k in data && AnyColumnMatches(data[k].columns, keywords)
    ensures forall k :: k in r ==> r[k] == MatchingColumns(data[k].columns, keywords) && r[k] != []
  {
    var r := map k | k in data && AnyColumnMatches(data[k].columns, keywords) :: MatchingColumns(data[k].columns, keywords);
    forall k | k in r
      ensures r[k] != []
    {
      MatchingEmptyIffNoMatch(data[k].columns, keywords);
    }
    r
  }

  /** Filtering before listing equals listing everything and then dropping the empty lists. */
  lemma SearchDropsExactlyEmptyLists(data: map<string, Table>, keywords: seq<string>, k: string)
    requires k in data
    ensures k in Search(data, keywords) <==> MatchingColumns(data[k].columns, keywords) != []
  {
    MatchingEmptyIffNoMatch(data[k].columns, keywords);
  }

  /** Of the columns Age and Gender only Gender mentions "gender". */
  lemma ExampleColumns()
    ensures MatchingColumns(["Age", "Gender"], ["gender"]) == ["Gender"]
    ensures AnyColumnMatches(["Age", "Gender"], ["gender"])
  {
    var keywords := ["gender"];
    assert Lower("Gender") == "gender";
    OccursAtContains("gender", "gender", 0);
    assert Contains(Lower("Gender"), keywords[0]);
    assert MatchesKeyword("Gender", keywords);
    TooLongNotContained(Lower("Age"), "gender");
    assert !MatchesKeyword("Age", keywords);
    var cols := ["Age", "Gender"];
    assert cols[..1] == ["Age"];
    assert ["Age"][..0] == [];
    assert MatchesKeyword(cols[1], keywords);
  }

  /** Neither X nor Y mentions "gender". */
  lemma ExampleNoColumns()
    ensures !AnyColumnMatches(["X", "Y"], ["gender"])
  {
    TooLongNotContained(Lower("X"), "gender");
    TooLongNotContained(Lower("Y"), "gender");
  }

  /** Of two datasets, only the one with a matching column is kept. */
  lemma SearchOneOfTwo(data: map<string, Table>, keywords: seq<string>, a: string, b: string)
    requires data.Keys == {a, b}
    requires AnyColumnMatches(data[a].columns, keywords) && !AnyColumnMatches(data[b].columns, keywords)
    ensures Search(data, keywords).Keys == {a}
    ensures a in Search(data, keywords) && Search(data, keywords)[a] == MatchingColumns(data[a].columns, keywords)
  {
    var r := Search(data, keywords);
    assert a in r;
    assert r.Keys <= {a, b};
  }

  /**
   * Datasets {"A": [Age, Gender], "B": [X, Y]} searched for "gender" give
   * {"A": ["Gender"]}; "B" is absent rather than mapped to an empty list.
   */
  lemma SearchExample()
    ensures var r := Search(map["A" := Table(["Age", "Gender"], []), "B" := Table(["X", "Y"], [])], ["gender"]);
            r.Keys == {"A"} && r["A"] == ["Gender"]
  {
    ExampleColumns();
    ExampleNoColumns();
    var data := map["A" := Table(["Age", "Gender"], []), "B" := Table(["X", "Y"], [])];
    assert data["A"].columns == ["Age", "Gender"];
    assert data["B"].columns == ["X", "Y"];
    SearchOneOfTwo(data, ["gender"], "A", "B");
  }
}
