/**
 * The second copy of the utilities, kept by the blog's earlier project
 * directory: the column search and the gender classifier, written out again
 * rule for rule. Each is shown to agree with the first copy on every input,
 * so the two projects classify and search identically.
 */
module UdacityUtils {
  import opened Text
  import opened Survey
  import Gender
  import ColumnSearch

  /** categorize_gender as this copy writes it; it follows the same precedence and agrees with the first copy. */
  function Categorize(value: string): (r: string)
    ensures Gender.IsLabel(r)
    ensures r == Gender.ByPrecedence(Lower(value))
    ensures r == Gender.Categorize(value)
  {
    var v := Lower(value);
    var r :=
      if Contains(v, "non-binary") || Contains(v, "genderqueer")
         || Contains(v, "gender non-conforming") || Contains(v, "queer")
      then "Queer/Non-binary"
      else if Contains(v, "woman") || Contains(v, "female") then "Female"
      else if (Contains(v, "man") && !Contains(v, "woman")) || (Contains(v, "male") && !Contains(v, "female"))
      then "Male"
      else "Other";
    Gender.CategorizeByPrecedence(value);
    r
  }

  /** The inner list comprehension of this copy's search: the columns naming one of the keywords, in order. */
  function Matching(columns: seq<string>, keywords: seq<string>): seq<string> {
    if |columns| == 0 then []
    else
      var c := columns[|columns| - 1];
      var init := Matching(columns[..|columns| - 1], keywords);
      if exists j :: 0 <= j < |keywords| && Contains(Lower(c), keywords[j]) then init + [c] else init
  }

  /** This copy's inner list is the first copy's. */
  lemma {:induction false} MatchingAgrees(columns: seq<string>, keywords: seq<string>)
    ensures Matching(columns, keywords) == ColumnSearch.MatchingColumns(columns, keywords)
    decreases |columns|
  {
    if |columns| > 0 {
      MatchingAgrees(columns[..|columns| - 1], keywords);
    }
  }

  /** The outer filter of this copy's search: some column names one of the keywords. */
  predicate AnyMatch(columns: seq<string>, keywords: seq<string>) {
    exists i, j :: 0 <= i < |columns| && 0 <= j < |keywords| && Contains(Lower(columns[i]), keywords[j])
  }

  /** This copy's outer filter is the first copy's. */
  lemma AnyMatchAgrees(columns: seq<string>, keywords: seq<string>)
    ensures AnyMatch(columns, keywords) <==> ColumnSearch.AnyColumnMatches(columns, keywords)
  {
    if AnyMatch(columns, keywords) {
      var i, j :| 0 <= i < |columns| && 0 <= j < |keywords| && Contains(Lower(columns[i]), keywords[j]);
      assert ColumnSearch.MatchesKeyword(columns[i], keywords);
    }
  }

  /**
   * search_for_columns_with_keyword as this copy writes it: a dataset is a
   * key exactly when one of its columns matches, it maps to its matching
   * columns and never to an empty list, and the result is the first copy's.
   */
  function Search(data: map<string, Table>, keywords: seq<string>): (r: map<string, seq<string>>)
    ensures forall k :: k in r <==> k in data && ColumnSearch.AnyColumnMatches(data[k].columns, keywords)
    ensures forall k :: k in r ==> r[k] == ColumnSearch.MatchingColumns(data[k].columns, keywords) && r[k] != []
    ensures r == ColumnSearch.Search(data, keywords)
  {
    SearchAgrees(data, keywords);
    Comprehension(data, keywords)
  }

  /** This copy's comprehension, the body of Search. */
  function Comprehension(data: map<string, Table>, keywords: seq<string>): map<string, seq<string>> {
    map k | k in data && AnyMatch(data[k].columns, keywords) :: Matching(data[k].columns, keywords)
  }

  /** The two comprehensions agree on every dataset name. */
  lemma SearchAgreesAt(data: map<string, Table>, keywords: seq<string>, k: string)
    ensures k in Comprehension(data, keywords) <==> k in ColumnSearch.Search(data, keywords)
    ensures k in Comprehension(data, keywords) ==> Comprehension(data, keywords)[k] == ColumnSearch.Search(data, keywords)[k]
  {
    if k in data {
      AnyMatchAgrees(data[k].columns, keywords);
      MatchingAgrees(data[k].columns, keywords);
    }
  }

  /** The two copies' searches are the same map. */
  lemma SearchAgrees(data: map<string, Table>, keywords: seq<string>)
    ensures Comprehension(data, keywords) == ColumnSearch.Search(data, keywords)
  {
    forall k {
      SearchAgreesAt(data, keywords, k);
    }
  }
}
