/**
 * prepare_language_data: for one year, the responses that answered both the
 * language question and MainBranch. The branch is renamed through the branch
 * map and only professional developers and learners/hobbyists are kept; a
 * `;`-separated answer counts once for each language it lists. Counts are
 * per (branch, language), totals per branch, and only then are the rows cut
 * down to the top languages, so the surviving rows keep their totals.
 */
module LanguageShares {
  import opened Wrappers
  import opened Text
  import opened Survey
  import opened Tally
  import opened Aggregate

  const Professional: string := "Professional developer"
  const Hobbyist: string := "Learning/Hobby"
  const BranchColumn: string := "MainBranch"

  predicate IsKeptBranch(b: string) {
    b == Professional || b == Hobbyist
  }

  /** Series.replace(branch_category_map): a raw branch the map knows is renamed, any other is kept as it is. */
  function BranchOf(branchMap: map<string, string>, raw: string): (b: string)
    ensures raw in branchMap ==> b == branchMap[raw]
    ensures raw !in branchMap ==> b == raw
  {
    if raw in branchMap then branchMap[raw] else raw
  }

  /** The languages an answer lists: str.split(";"). */
  function Languages(answer: string): seq<string> {
    Split(answer, ';')
  }

  /** One record per listed language, all in branch b. */
  function PieceRecords(b: string, pieces: seq<string>): (es: seq<((string, string), nat)>)
    ensures |es| == |pieces|
    ensures forall i :: 0 <= i < |es| ==> es[i] == ((b, pieces[i]), 1)
  {
    if |pieces| == 0 then []
    else PieceRecords(b, pieces[..|pieces| - 1]) + [((b, pieces[|pieces| - 1]), 1)]
  }

  lemma {:induction false} PieceRecordsWeights(b: string, pieces: seq<string>, branch: string, language: string)
    ensures Weight(PieceRecords(b, pieces), (branch, language))
            == if branch == b then multiset(pieces)[language] else 0
    ensures WeightWhere(PieceRecords(b, pieces), InGroup(branch)) == if branch == b then |pieces| else 0
    decreases |pieces|
  {
    if |pieces| > 0 {
      var init := pieces[..|pieces| - 1];
      assert pieces == init + [pieces[|pieces| - 1]];
      PieceRecordsWeights(b, init, branch, language);
      assert PieceRecords(b, pieces)[..|init|] == PieceRecords(b, init);
    }
  }

  /** The exploded records of the (languages answer, raw branch) responses kept by their branch. */
  function LanguageRecords(pairs: seq<(string, string)>, branchMap: map<string, string>)
    : (es: seq<((string, string), nat)>)
    ensures forall i :: 0 <= i < |es| ==> es[i].1 == 1 && IsKeptBranch(es[i].0.0)
  {
    if |pairs| == 0 then []
    else
      var rest := LanguageRecords(pairs[..|pairs| - 1], branchMap);
      var p := pairs[|pairs| - 1];
      var b := BranchOf(branchMap, p.1);
      if IsKeptBranch(b) then rest + PieceRecords(b, Languages(p.0)) else rest
  }

  /** How many times language is listed by the kept responses of branch. */
  function Mentions(pairs: seq<(string, string)>, branchMap: map<string, string>, branch: string, language: string): nat {
    if |pairs| == 0 then 0
    else
      var p := pairs[|pairs| - 1];
      var b := BranchOf(branchMap, p.1);
      Mentions(pairs[..|pairs| - 1], branchMap, branch, language)
        + (if b == branch && IsKeptBranch(b) then multiset(Languages(p.0))[language] else 0)
  }

  /** How many languages the kept responses of branch list in all. */
  function AllMentions(pairs: seq<(string, string)>, branchMap: map<string, string>, branch: string): nat {
    if |pairs| == 0 then 0
    else
      var p := pairs[|pairs| - 1];
      var b := BranchOf(branchMap, p.1);
      AllMentions(pairs[..|pairs| - 1], branchMap, branch)
        + (if b == branch && IsKeptBranch(b) then |Languages(p.0)| else 0)
  }

  /** The score of a response: how often it lists language when its branch is the kept branch. */
  function Listings(branchMap: map<string, string>, branch: string, language: string): ((string, string)) -> nat {
    (p: (string, string)) =>
      var b := BranchOf(branchMap, p.1);
      if b == branch && IsKeptBranch(b) then multiset(Languages(p.0))[language] else 0
  }

  /** The score of a response: how many languages it lists when its branch is the kept branch. */
  function AllListings(branchMap: map<string, string>, branch: string): ((string, string)) -> nat {
    (p: (string, string)) =>
      var b := BranchOf(branchMap, p.1);
      if b == branch && IsKeptBranch(b) then |Languages(p.0)| else 0
  }

  /** The reference counts are the scores summed over the pairs. */
  lemma {:induction false} MentionSums(pairs: seq<(string, string)>, branchMap: map<string, string>, branch: string, language: string)
    ensures Mentions(pairs, branchMap, branch, language) == PairSum(pairs, Listings(branchMap, branch, language))
    ensures AllMentions(pairs, branchMap, branch) == PairSum(pairs, AllListings(branchMap, branch))
    decreases |pairs|
  {
    if |pairs| > 0 {
      MentionSums(pairs[..|pairs| - 1], branchMap, branch, language);
    }
  }

  /** The records a kept response adds. */
  function OwnRecords(p: (string, string), branchMap: map<string, string>): seq<((string, string), nat)> {
    var b := BranchOf(branchMap, p.1);
    if IsKeptBranch(b) then PieceRecords(b, Languages(p.0)) else []
  }

  lemma LanguageRecordsStep(pairs: seq<(string, string)>, branchMap: map<string, string>)
    requires |pairs| > 0
    ensures LanguageRecords(pairs, branchMap)
            == LanguageRecords(pairs[..|pairs| - 1], branchMap) + OwnRecords(pairs[|pairs| - 1], branchMap)
  {
  }

  lemma OwnRecordsWeight(p: (string, string), branchMap: map<string, string>, branch: string, language: string)
    ensures Weight(OwnRecords(p, branchMap), (branch, language))
            == (var b := BranchOf(branchMap, p.1); if b == branch && IsKeptBranch(b) then multiset(Languages(p.0))[language] else 0)
  {
    var b := BranchOf(branchMap, p.1);
    if IsKeptBranch(b) {
      PieceRecordsWeights(b, Languages(p.0), branch, language);
    }
  }

  lemma OwnRecordsWeightWhere(p: (string, string), branchMap: map<string, string>, branch: string)
    ensures WeightWhere(OwnRecords(p, branchMap), InGroup(branch))
            == (var b := BranchOf(branchMap, p.1); if b == branch && IsKeptBranch(b) then |Languages(p.0)| else 0)
  {
    var b := BranchOf(branchMap, p.1);
    if IsKeptBranch(b) {
      PieceRecordsWeights(b, Languages(p.0), branch, "");
    }
  }

  lemma {:induction false} LanguageRecordsWeight(pairs: seq<(string, string)>, branchMap: map<string, string>, branch: string, language: string)
    ensures Weight(LanguageRecords(pairs, branchMap), (branch, language)) == Mentions(pairs, branchMap, branch, language)
    decreases |pairs|
  {
    if |pairs| > 0 {
      var init := pairs[..|pairs| - 1];
      var p := pairs[|pairs| - 1];
      LanguageRecordsWeight(init, branchMap, branch, language);
      LanguageRecordsStep(pairs, branchMap);
      WeightAppend(LanguageRecords(init, branchMap), OwnRecords(p, branchMap), (branch, language));
      OwnRecordsWeight(p, branchMap, branch, language);
    }
  }

  lemma {:induction false} LanguageRecordsWeightWhere(pairs: seq<(string, string)>, branchMap: map<string, string>, branch: string)
    ensures WeightWhere(LanguageRecords(pairs, branchMap), InGroup(branch)) == AllMentions(pairs, branchMap, branch)
    decreases |pairs|
  {
    if |pairs| > 0 {
      var init := pairs[..|pairs| - 1];
      var p := pairs[|pairs| - 1];
      LanguageRecordsWeightWhere(init, branchMap, branch);
      LanguageRecordsStep(pairs, branchMap);
      WeightWhereAppend(LanguageRecords(init, branchMap), OwnRecords(p, branchMap), InGroup(branch));
      OwnRecordsWeightWhere(p, branchMap, branch);
    }
  }

  /** Every row's branch is a kept one, since every record's is. */
  lemma RowBranchKept(pairs: seq<(string, string)>, branchMap: map<string, string>, row: Row<string, string>)
    requires row in WithTotals(LanguageRecords(pairs, branchMap))
    ensures IsKeptBranch(row.group)
  {
    var es := LanguageRecords(pairs, branchMap);
    var rows := WithTotals(es);
    var i :| 0 <= i < |rows| && rows[i] == row;
    assert RowKeys(rows)[i] == RowKey(row);
    assert RowKey(row) in RowKeys(rows);
    var ks := KeysOf(es);
    assert RowKey(row) in ks;
    var j :| 0 <= j < |ks| && ks[j] == RowKey(row);
    assert es[j].0.0 == row.group;
  }

  /** Rows before the top-language filter: counts per (branch, language) and totals per branch. */
  function AllLanguageRows(pairs: seq<(string, string)>, branchMap: map<string, string>): (rows: seq<Row<string, string>>)
    ensures Distinct(RowKeys(rows))
    ensures forall row :: row in rows ==>
              && IsKeptBranch(row.group)
              && row.count == Mentions(pairs, branchMap, row.group, row.category)
              && row.total == AllMentions(pairs, branchMap, row.group)
              && 1 <= row.count <= row.total
    ensures forall branch, language ::
              (branch, language) in RowKeys(rows) <==> Mentions(pairs, branchMap, branch, language) > 0
  {
    var es := LanguageRecords(pairs, branchMap);
    var rows := WithTotals(es);
    assert forall branch, language ::
             (branch, language) in RowKeys(rows) <==> Mentions(pairs, branchMap, branch, language) > 0
    by {
      forall branch, language
        ensures (branch, language) in RowKeys(rows) <==> Mentions(pairs, branchMap, branch, language) > 0
      {
        LanguageRecordsWeight(pairs, branchMap, branch, language);
        KeyIffPositiveWeight(es, (branch, language));
      }
    }
    assert forall row :: row in rows ==>
             && IsKeptBranch(row.group)
             && row.count == Mentions(pairs, branchMap, row.group, row.category)
             && row.total == AllMentions(pairs, branchMap, row.group)
             && 1 <= row.count <= row.total
    by {
      forall row | row in rows {
        RowFromLanguages(pairs, branchMap, row);
      }
    }
    rows
  }

  lemma RowFromLanguages(pairs: seq<(string, string)>, branchMap: map<string, string>, row: Row<string, string>)
    requires row in WithTotals(LanguageRecords(pairs, branchMap))
    ensures IsKeptBranch(row.group)
    ensures row.count == Mentions(pairs, branchMap, row.group, row.category)
    ensures row.total == AllMentions(pairs, branchMap, row.group)
    ensures 1 <= row.count <= row.total
  {
    var es := LanguageRecords(pairs, branchMap);
    var rows := WithTotals(es);
    RowsArePositive(es);
    var i :| 0 <= i < |rows| && rows[i] == row;
    RowBranchKept(pairs, branchMap, row);
    LanguageRecordsWeight(pairs, branchMap, row.group, row.category);
    LanguageRecordsWeightWhere(pairs, branchMap, row.group);
  }

  /** Before the top-language filter, each branch's total is the sum of the counts of that branch's rows. */
  lemma LanguageTotalsAreSums(pairs: seq<(string, string)>, branchMap: map<string, string>, row: Row<string, string>)
    requires row in AllLanguageRows(pairs, branchMap)
    ensures row.total == SumCounts(AllLanguageRows(pairs, branchMap), row.group)
  {
    assert AllLanguageRows(pairs, branchMap) == WithTotals(LanguageRecords(pairs, branchMap));
    TotalIsSumOfCounts(LanguageRecords(pairs, branchMap), row.group);
  }

  /** Before the top-language filter, the proportions of every branch present add up to exactly one. */
  lemma LanguageProportionsSumToOne(pairs: seq<(string, string)>, branchMap: map<string, string>, branch: string)
    requires exists row :: row in AllLanguageRows(pairs, branchMap) && row.group == branch
    ensures SumProportions(AllLanguageRows(pairs, branchMap), branch) == 1.0
  {
    var es := LanguageRecords(pairs, branchMap);
    var row :| row in AllLanguageRows(pairs, branchMap) && row.group == branch;
    LanguageRecordsWeightWhere(pairs, branchMap, branch);
    assert AllLanguageRows(pairs, branchMap) == WithTotals(es);
    ProportionsSumToOne(es, branch);
  }

  /** An output row: a pre-filter row and the survey year. */
  datatype LanguageRow = LanguageRow(row: Row<string, string>, year: int)

  function Dated(rows: seq<Row<string, string>>, year: int): (r: seq<LanguageRow>)
    ensures |r| == |rows|
    ensures forall i :: 0 <= i < |r| ==> r[i].row == rows[i] && r[i].year == year
  {
    seq(|rows|, i requires 0 <= i < |rows| => LanguageRow(rows[i], year))
  }

  /**
   * The published rows: exactly the pre-filter rows whose language is a top
   * language, unchanged (so with their pre-filter Count and Total), each
   * stamped with the year.
   */
  function TopLanguageRows(pairs: seq<(string, string)>, branchMap: map<string, string>,
                           topLanguages: seq<string>, year: int): (r: seq<LanguageRow>)
    ensures forall x :: x in r ==>
              && x.year == year
              && x.row.category in topLanguages
              && x.row in AllLanguageRows(pairs, branchMap)
    ensures forall row :: (row in AllLanguageRows(pairs, branchMap) && row.category in topLanguages)
              ==> LanguageRow(row, year) in r
    ensures forall i, j :: 0 <= i < j < |r| ==> RowKey(r[i].row) != RowKey(r[j].row)
  {
    var all := AllLanguageRows(pairs, branchMap);
    var kept := KeepLabels(all, topLanguages);
    var r := Dated(kept, year);
    DatedMembers(kept, year);
    KeepLabelsDistinct(all, topLanguages);
    DatedDistinct(kept, year);
    r
  }

  /** A top-language row with its listing counts is published. */
  lemma TopRowsComplete(pairs: seq<(string, string)>, branchMap: map<string, string>,
                        topLanguages: seq<string>, year: int, row: Row<string, string>)
    requires row.category in topLanguages && row.count > 0
    requires row.count == Mentions(pairs, branchMap, row.group, row.category)
    requires row.total == AllMentions(pairs, branchMap, row.group)
    ensures LanguageRow(row, year) in TopLanguageRows(pairs, branchMap, topLanguages, year)
  {
    var all := AllLanguageRows(pairs, branchMap);
    assert RowKey(row) in RowKeys(all);
    var i :| 0 <= i < |all| && RowKeys(all)[i] == RowKey(row);
    assert all[i] in all;
    assert all[i] == row;
  }

  /** Stamping rows with the year keeps their keys distinct. */
  lemma DatedDistinct(rows: seq<Row<string, string>>, year: int)
    requires Distinct(RowKeys(rows))
    ensures forall i, j :: 0 <= i < j < |Dated(rows, year)| ==> RowKey(Dated(rows, year)[i].row) != RowKey(Dated(rows, year)[j].row)
  {
    forall i, j | 0 <= i < j < |rows|
      ensures RowKey(Dated(rows, year)[i].row) != RowKey(Dated(rows, year)[j].row)
    {
      assert RowKeys(rows)[i] != RowKeys(rows)[j];
    }
  }

  lemma DatedMembers(rows: seq<Row<string, string>>, year: int)
    ensures forall x: LanguageRow :: x in Dated(rows, year) <==> x.year == year && x.row in rows
  {
    var r := Dated(rows, year);
    forall x: LanguageRow | x.year == year && x.row in rows
      ensures x in r
    {
      var i :| 0 <= i < |rows| && rows[i] == x.row;
      assert r[i] == x;
    }
  }

  /** The answered (languages, MainBranch) pairs of the year, or none when a lookup fails. */
  function LanguagePairs(data: map<int, Table>, year: int, languageColumns: map<int, string>): seq<(string, string)>
    requires AllWellFormed(data)
  {
    if year in data && year in languageColumns then
      var r := AnsweredPairs(data[year], year, languageColumns[year], BranchColumn);
      if r.Success? then r.value else []
    else []
  }

  /**
   * The whole aggregation for one year. Lookups fail in the source's order:
   * the year's table, the language column's name, then the two columns; on
   * success the result is the top-language table of the answered pairs.
   */
  function LanguageData(data: map<int, Table>, year: int, languageColumns: map<int, string>,
                        branchMap: map<string, string>, topLanguages: seq<string>)
    : (r: Result<seq<LanguageRow>, Error>)
    requires AllWellFormed(data)
    ensures year !in data ==> r == Failure(MissingYear(year))
    ensures year in data && year !in languageColumns ==> r == Failure(MissingMapping(year))
    ensures year in data && year in languageColumns ==>
              (r.Failure? <==> languageColumns[year] !in data[year].columns || BranchColumn !in data[year].columns)
    ensures year in data && year in languageColumns && r.Failure? ==>
              r.error == MissingColumn(year, if languageColumns[year] !in data[year].columns then languageColumns[year]
                                             else BranchColumn)
    ensures r.Success? ==> forall i, j :: 0 <= i < j < |r.value| ==> RowKey(r.value[i].row) != RowKey(r.value[j].row)
    ensures r.Success? ==> r.value == TopLanguageRows(LanguagePairs(data, year, languageColumns), branchMap, topLanguages, year)
    ensures r.Success? ==>
              && year in data && year in languageColumns
              && languageColumns[year] in data[year].columns && BranchColumn in data[year].columns
    ensures r.Success? ==> forall x :: x in r.value ==>
              && x.year == year && x.row.category in topLanguages && IsKeptBranch(x.row.group)
              && x.row.count == ResponseSum(data[year], languageColumns[year], BranchColumn,
                                            Listings(branchMap, x.row.group, x.row.category))
              && x.row.total == ResponseSum(data[year], languageColumns[year], BranchColumn, AllListings(branchMap, x.row.group))
    ensures r.Success? ==> forall row: Row<string, string> ::
              (&& row.category in topLanguages
               && row.count == ResponseSum(data[year], languageColumns[year], BranchColumn,
                                           Listings(branchMap, row.group, row.category))
               && row.count > 0
               && row.total == ResponseSum(data[year], languageColumns[year], BranchColumn, AllListings(branchMap, row.group)))
              ==> LanguageRow(row, year) in r.value
  {
    var table :- YearTable(data, year);
    var languageColumn :- MappedColumn(languageColumns, year);
    var pairs :- AnsweredPairs(table, year, languageColumn, BranchColumn);
    assert forall branch, language ::
             && Mentions(pairs, branchMap, branch, language) == PairSum(pairs, Listings(branchMap, branch, language))
             && AllMentions(pairs, branchMap, branch) == PairSum(pairs, AllListings(branchMap, branch))
    by {
      forall branch, language {
        MentionSums(pairs, branchMap, branch, language);
      }
    }
    forall row: Row<string, string> |
      && row.category in topLanguages && row.count > 0
      && row.count == Mentions(pairs, branchMap, row.group, row.category)
      && row.total == AllMentions(pairs, branchMap, row.group)
      ensures LanguageRow(row, year) in TopLanguageRows(pairs, branchMap, topLanguages, year)
    {
      TopRowsComplete(pairs, branchMap, topLanguages, year, row);
    }
    Success(TopLanguageRows(pairs, branchMap, topLanguages, year))
  }

  /** "Python;Go;Rust" lists three languages, one count each. */
  lemma SplitExample()
    ensures Languages("Python;Go;Rust") == ["Python", "Go", "Rust"]
  {
    var pieces := ["Python", "Go", "Rust"];
    assert Join(pieces, ';') == "Python;Go;Rust";
    SplitJoin(pieces, ';');
  }
}
