/**
 * prepare_remote_work_data and prepare_gender_dist_data: per mapped year,
 * count the raw answers of that year's column, normalise each raw category
 * (through the category map, or through the gender classifier), drop the
 * categories that do not normalise, sum per (year, label) and attach each
 * year's total.
 */
module YearlyShares {
  import opened Wrappers
  import opened Survey
  import opened Tally
  import opened Aggregate
  import Gender

  /** Normalisation of a raw category: Some(label), or None when the category is dropped. */
  type Normalizer = string -> Option<string>

  function MapsTo(normalize: Normalizer, name: string): string -> bool {
    v => normalize(v) == Some(name)
  }

  function Recognised(normalize: Normalizer): string -> bool {
    v => normalize(v).Some?
  }

  /** The year-to-column map as its (year, column) items, in insertion order; a dict has no repeated year. */
  predicate DistinctYears(columnMap: seq<(int, string)>) {
    forall i, j :: 0 <= i < j < |columnMap| ==> columnMap[i].0 != columnMap[j].0
  }

  predicate IsMappedYear(columnMap: seq<(int, string)>, year: int) {
    exists i :: 0 <= i < |columnMap| && columnMap[i].0 == year
  }

  /** The year of the item is missing from the collection, or its column from that year's table. */
  predicate Broken(data: map<int, Table>, item: (int, string)) {
    item.0 !in data || item.1 !in data[item.0].columns
  }

  /** The error the source raises at a broken item. */
  function ItemError(data: map<int, Table>, item: (int, string)): Error {
    if item.0 !in data then MissingYear(item.0) else MissingColumn(item.0, item.1)
  }

  /** The answers in the column mapped to year (none when the year is not mapped or the lookup fails). */
  function Responses(data: map<int, Table>, columnMap: seq<(int, string)>, year: int): seq<Cell>
    requires AllWellFormed(data)
  {
    if |columnMap| == 0 then []
    else if columnMap[0].0 == year then
      (if Broken(data, columnMap[0]) then [] else ColumnCells(data[year], year, columnMap[0].1).value)
    else Responses(data, columnMap[1..], year)
  }

  /** The records appended for one year: one per raw category that normalises, with that category's count. */
  function YearRecords(year: int, counts: seq<(string, nat)>, normalize: Normalizer): (es: seq<((int, string), nat)>)
    ensures |es| <= |counts|
  {
    if |counts| == 0 then []
    else
      var rest := YearRecords(year, counts[..|counts| - 1], normalize);
      var c := counts[|counts| - 1];
      match normalize(c.0)
      case None => rest
      case Some(name) => rest + [((year, name), c.1)]
  }

  lemma {:induction false} YearRecordsWeights(year: int, counts: seq<(string, nat)>, normalize: Normalizer, y: int, name: string)
    ensures Weight(YearRecords(year, counts, normalize), (y, name))
            == if y == year then WeightWhere(counts, MapsTo(normalize, name)) else 0
    ensures WeightWhere(YearRecords(year, counts, normalize), InGroup(y))
            == if y == year then WeightWhere(counts, Recognised(normalize)) else 0
    decreases |counts|
  {
    if |counts| > 0 {
      var rest := YearRecords(year, counts[..|counts| - 1], normalize);
      YearRecordsWeights(year, counts[..|counts| - 1], normalize, y, name);
      var c := counts[|counts| - 1];
      if normalize(c.0).Some? {
        assert (rest + [((year, normalize(c.0).value), c.1)])[..|rest|] == rest;
      }
    }
  }

  lemma {:induction false} YearRecordsPositive(year: int, counts: seq<(string, nat)>, normalize: Normalizer)
    requires forall i :: 0 <= i < |counts| ==> counts[i].1 >= 1
    ensures forall i :: 0 <= i < |YearRecords(year, counts, normalize)| ==> YearRecords(year, counts, normalize)[i].1 >= 1
    ensures YearRecords(year, counts, normalize) == [] <==> WeightWhere(counts, Recognised(normalize)) == 0
    decreases |counts|
  {
    if |counts| > 0 {
      YearRecordsPositive(year, counts[..|counts| - 1], normalize);
    }
  }

  /**
   * The loop over the year-to-column map: look up the year's table and
   * column, count its answers and append the year's records. The first
   * failing lookup, in map order, is the error.
   */
  function Collect(data: map<int, Table>, columnMap: seq<(int, string)>, normalize: Normalizer)
    : (r: Result<seq<((int, string), nat)>, Error>)
    requires AllWellFormed(data)
  {
    if |columnMap| == 0 then Success([])
    else
      var year := columnMap[0].0;
      var table :- YearTable(data, year);
      var cells :- ColumnCells(table, year, columnMap[0].1);
      var rest :- Collect(data, columnMap[1..], normalize);
      Success(YearRecords(year, ValueCounts(cells), normalize) + rest)
  }

  /** A successful Collect is the first year's records followed by the rest's. */
  lemma CollectStep(data: map<int, Table>, columnMap: seq<(int, string)>, normalize: Normalizer)
    requires AllWellFormed(data) && |columnMap| > 0
    requires Collect(data, columnMap, normalize).Success?
    ensures !Broken(data, columnMap[0])
    ensures Collect(data, columnMap[1..], normalize).Success?
    ensures Collect(data, columnMap, normalize).value
            == YearRecords(columnMap[0].0, ValueCounts(ColumnCells(data[columnMap[0].0], columnMap[0].0, columnMap[0].1).value), normalize)
               + Collect(data, columnMap[1..], normalize).value
  {
  }

  /** Collect fails exactly at the first broken item. */
  lemma {:induction false} CollectFailure(data: map<int, Table>, columnMap: seq<(int, string)>, normalize: Normalizer)
    requires AllWellFormed(data)
    ensures Collect(data, columnMap, normalize).Failure?
            <==> exists i :: 0 <= i < |columnMap| && Broken(data, columnMap[i])
    ensures Collect(data, columnMap, normalize).Failure? ==>
              exists i :: 0 <= i < |columnMap| && Broken(data, columnMap[i])
                && (forall j :: 0 <= j < i ==> !Broken(data, columnMap[j]))
                && Collect(data, columnMap, normalize).error == ItemError(data, columnMap[i])
    decreases |columnMap|
  {
    if |columnMap| > 0 {
      CollectFailure(data, columnMap[1..], normalize);
      if !Broken(data, columnMap[0]) {
        var r := Collect(data, columnMap[1..], normalize);
        if r.Failure? {
          var i :| 0 <= i < |columnMap[1..]| && Broken(data, columnMap[1..][i])
                   && (forall j :: 0 <= j < i ==> !Broken(data, columnMap[1..][j]))
                   && r.error == ItemError(data, columnMap[1..][i]);
          assert Broken(data, columnMap[i + 1]);
        }
        if exists i :: 0 <= i < |columnMap| && Broken(data, columnMap[i]) {
          var i :| 0 <= i < |columnMap| && Broken(data, columnMap[i]);
          assert Broken(data, columnMap[1..][i - 1]);
        }
      }
    }
  }

  /** On success, the records weigh exactly the counted answers of each year. */
  lemma CollectWeights(data: map<int, Table>, columnMap: seq<(int, string)>, normalize: Normalizer, y: int, name: string)
    requires AllWellFormed(data) && DistinctYears(columnMap)
    requires Collect(data, columnMap, normalize).Success?
    ensures Weight(Collect(data, columnMap, normalize).value, (y, name))
            == CountWhere(Responses(data, columnMap, y), MapsTo(normalize, name))
    ensures WeightWhere(Collect(data, columnMap, normalize).value, InGroup(y))
            == CountWhere(Responses(data, columnMap, y), Recognised(normalize))
  {
    CollectWeight(data, columnMap, normalize, y, name);
    CollectTotal(data, columnMap, normalize, y);
  }

  /** The first item's answers are the only answers of its year. */
  lemma FirstYearResponses(data: map<int, Table>, columnMap: seq<(int, string)>, y: int)
    requires AllWellFormed(data) && DistinctYears(columnMap) && |columnMap| > 0
    requires !Broken(data, columnMap[0])
    ensures y == columnMap[0].0 ==>
              Responses(data, columnMap, y) == ColumnCells(data[y], y, columnMap[0].1).value
              && Responses(data, columnMap[1..], y) == []
    ensures y != columnMap[0].0 ==> Responses(data, columnMap, y) == Responses(data, columnMap[1..], y)
  {
    if y == columnMap[0].0 {
      UnmappedYearHasNoResponses(data, columnMap[1..], y);
    }
  }

  lemma {:induction false} CollectWeight(data: map<int, Table>, columnMap: seq<(int, string)>, normalize: Normalizer, y: int, name: string)
    requires AllWellFormed(data) && DistinctYears(columnMap)
    requires Collect(data, columnMap, normalize).Success?
    ensures Weight(Collect(data, columnMap, normalize).value, (y, name))
            == CountWhere(Responses(data, columnMap, y), MapsTo(normalize, name))
    decreases |columnMap|
  {
    if |columnMap| > 0 {
      var year := columnMap[0].0;
      CollectStep(data, columnMap, normalize);
      var cells := ColumnCells(data[year], year, columnMap[0].1).value;
      var own := YearRecords(year, ValueCounts(cells), normalize);
      var rest := Collect(data, columnMap[1..], normalize).value;
      CollectWeight(data, columnMap[1..], normalize, y, name);
      WeightAppend(own, rest, (y, name));
      YearRecordsWeights(year, ValueCounts(cells), normalize, y, name);
      ValueCountsWeight(cells, MapsTo(normalize, name));
      FirstYearResponses(data, columnMap, y);
    }
  }

  lemma {:induction false} CollectTotal(data: map<int, Table>, columnMap: seq<(int, string)>, normalize: Normalizer, y: int)
    requires AllWellFormed(data) && DistinctYears(columnMap)
    requires Collect(data, columnMap, normalize).Success?
    ensures WeightWhere(Collect(data, columnMap, normalize).value, InGroup(y))
            == CountWhere(Responses(data, columnMap, y), Recognised(normalize))
    decreases |columnMap|
  {
    if |columnMap| > 0 {
      var year := columnMap[0].0;
      CollectStep(data, columnMap, normalize);
      var cells := ColumnCells(data[year], year, columnMap[0].1).value;
      var own := YearRecords(year, ValueCounts(cells), normalize);
      var rest := Collect(data, columnMap[1..], normalize).value;
      CollectTotal(data, columnMap[1..], normalize, y);
      WeightWhereAppend(own, rest, InGroup(y));
      YearRecordsWeights(year, ValueCounts(cells), normalize, y, "");
      ValueCountsWeight(cells, Recognised(normalize));
      FirstYearResponses(data, columnMap, y);
    }
  }

  lemma {:induction false} UnmappedYearHasNoResponses(data: map<int, Table>, columnMap: seq<(int, string)>, y: int)
    requires AllWellFormed(data)
    requires forall i :: 0 <= i < |columnMap| ==> columnMap[i].0 != y
    ensures Responses(data, columnMap, y) == []
    decreases |columnMap|
  {
    if |columnMap| > 0 {
      UnmappedYearHasNoResponses(data, columnMap[1..], y);
    }
  }

  lemma AllPositiveAppend(a: seq<((int, string), nat)>, b: seq<((int, string), nat)>)
    requires forall i :: 0 <= i < |a| ==> a[i].1 >= 1
    requires forall i :: 0 <= i < |b| ==> b[i].1 >= 1
    ensures forall i :: 0 <= i < |a + b| ==> (a + b)[i].1 >= 1
  {
  }

  /** On success, every record counts at least one answer. */
  lemma {:induction false} CollectPositive(data: map<int, Table>, columnMap: seq<(int, string)>, normalize: Normalizer)
    requires AllWellFormed(data)
    requires Collect(data, columnMap, normalize).Success?
    ensures forall i :: 0 <= i < |Collect(data, columnMap, normalize).value| ==> Collect(data, columnMap, normalize).value[i].1 >= 1
    decreases |columnMap|
  {
    if |columnMap| > 0 {
      var year := columnMap[0].0;
      CollectStep(data, columnMap, normalize);
      var cells := ColumnCells(data[year], year, columnMap[0].1).value;
      CollectPositive(data, columnMap[1..], normalize);
      YearRecordsPositive(year, ValueCounts(cells), normalize);
      AllPositiveAppend(YearRecords(year, ValueCounts(cells), normalize), Collect(data, columnMap[1..], normalize).value);
    }
  }

  /** On success, every record belongs to a mapped year. */
  lemma {:induction false} CollectYears(data: map<int, Table>, columnMap: seq<(int, string)>, normalize: Normalizer)
    requires AllWellFormed(data)
    requires Collect(data, columnMap, normalize).Success?
    ensures forall i :: 0 <= i < |Collect(data, columnMap, normalize).value| ==> IsMappedYear(columnMap, Collect(data, columnMap, normalize).value[i].0.0)
    decreases |columnMap|
  {
    if |columnMap| > 0 {
      var year := columnMap[0].0;
      CollectStep(data, columnMap, normalize);
      var cells := ColumnCells(data[year], year, columnMap[0].1).value;
      var own: seq<((int, string), nat)> := YearRecords(year, ValueCounts(cells), normalize);
      var rest: seq<((int, string), nat)> := Collect(data, columnMap[1..], normalize).value;
      CollectYears(data, columnMap[1..], normalize);
      YearRecordsYears(year, ValueCounts(cells), normalize);
      forall i | 0 <= i < |own + rest|
        ensures IsMappedYear(columnMap, (own + rest)[i].0.0)
      {
        if i < |own| {
          assert own[i].0.0 == columnMap[0].0;
        } else {
          MappedInTail(columnMap, rest[i - |own|].0.0);
        }
      }
    }
  }

  lemma MappedInTail(columnMap: seq<(int, string)>, year: int)
    requires |columnMap| > 0 && IsMappedYear(columnMap[1..], year)
    ensures IsMappedYear(columnMap, year)
  {
    var j :| 0 <= j < |columnMap[1..]| && columnMap[1..][j].0 == year;
    assert columnMap[j + 1].0 == year;
  }

  lemma {:induction false} YearRecordsYears(year: int, counts: seq<(string, nat)>, normalize: Normalizer)
    ensures forall i :: 0 <= i < |YearRecords(year, counts, normalize)| ==> YearRecords(year, counts, normalize)[i].0.0 == year
    decreases |counts|
  {
    if |counts| > 0 {
      YearRecordsYears(year, counts[..|counts| - 1], normalize);
    }
  }

  /** On success, no records at all means no answer of any mapped year normalises. */
  lemma CollectEmptyIff(data: map<int, Table>, columnMap: seq<(int, string)>, normalize: Normalizer)
    requires AllWellFormed(data) && DistinctYears(columnMap)
    requires Collect(data, columnMap, normalize).Success?
    ensures Collect(data, columnMap, normalize).value == []
            <==> forall i :: 0 <= i < |columnMap| ==>
                   CountWhere(Responses(data, columnMap, columnMap[i].0), Recognised(normalize)) == 0
  {
    var es := Collect(data, columnMap, normalize).value;
    forall i | 0 <= i < |columnMap|
      ensures WeightWhere(es, InGroup(columnMap[i].0))
              == CountWhere(Responses(data, columnMap, columnMap[i].0), Recognised(normalize))
    {
      CollectWeights(data, columnMap, normalize, columnMap[i].0, "");
    }
    if es != [] {
      CollectPositive(data, columnMap, normalize);
      CollectYears(data, columnMap, normalize);
      var j :| 0 <= j < |columnMap| && columnMap[j].0 == es[0].0.0;
      EntryWithinWeightWhere(es, 0, InGroup(columnMap[j].0));
    }
  }

  /** A row's key is the key of some record. */
  lemma RowFromRecord(es: seq<((int, string), nat)>, row: Row<int, string>) returns (j: nat)
    requires row in WithTotals(es)
    ensures j < |es| && es[j].0 == RowKey(row)
  {
    var rows := WithTotals(es);
    var i :| 0 <= i < |rows| && rows[i] == row;
    assert RowKeys(rows)[i] == RowKey(row);
    assert RowKey(row) in KeysOf(es);
    var ks := KeysOf(es);
    j :| 0 <= j < |ks| && ks[j] == RowKey(row);
  }

  /** Every output row belongs to a mapped year. */
  lemma SharesRowYear(data: map<int, Table>, columnMap: seq<(int, string)>, normalize: Normalizer, row: Row<int, string>)
    requires AllWellFormed(data)
    requires Collect(data, columnMap, normalize).Success?
    requires row in WithTotals(Collect(data, columnMap, normalize).value)
    ensures IsMappedYear(columnMap, row.group)
  {
    var es := Collect(data, columnMap, normalize).value;
    var j := RowFromRecord(es, row);
    CollectYears(data, columnMap, normalize);
    assert IsMappedYear(columnMap, es[j].0.0);
  }

  /** What one output row holds: its count and total are counts of its year's answers, and 1 <= count <= total. */
  lemma SharesRow(data: map<int, Table>, columnMap: seq<(int, string)>, normalize: Normalizer, row: Row<int, string>)
    requires AllWellFormed(data) && DistinctYears(columnMap)
    requires Collect(data, columnMap, normalize).Success?
    requires row in WithTotals(Collect(data, columnMap, normalize).value)
    ensures IsMappedYear(columnMap, row.group)
    ensures row.count == CountWhere(Responses(data, columnMap, row.group), MapsTo(normalize, row.category))
    ensures row.total == CountWhere(Responses(data, columnMap, row.group), Recognised(normalize))
    ensures 1 <= row.count <= row.total
  {
    var es := Collect(data, columnMap, normalize).value;
    CollectPositive(data, columnMap, normalize);
    RowsArePositive(es);
    SharesRowYear(data, columnMap, normalize, row);
    CollectWeights(data, columnMap, normalize, row.group, row.category);
  }

  /** A (year, label) row exists exactly when some answer of that year normalises to the label. */
  lemma SharesKey(data: map<int, Table>, columnMap: seq<(int, string)>, normalize: Normalizer, y: int, name: string)
    requires AllWellFormed(data) && DistinctYears(columnMap)
    requires Collect(data, columnMap, normalize).Success?
    ensures (y, name) in RowKeys(WithTotals(Collect(data, columnMap, normalize).value))
            <==> CountWhere(Responses(data, columnMap, y), MapsTo(normalize, name)) > 0
  {
    var es := Collect(data, columnMap, normalize).value;
    CollectPositive(data, columnMap, normalize);
    CollectWeights(data, columnMap, normalize, y, name);
    KeyIffPositiveWeight(es, (y, name));
  }

  /**
   * The yearly aggregation: one row per (year, label) with its count, the
   * year's total and so its proportion. A broken item of the year-to-column
   * map fails with the first broken item's error; an empty record list
   * fails with NoRecords.
   */
  function Shares(data: map<int, Table>, columnMap: seq<(int, string)>, normalize: Normalizer)
    : (r: Result<seq<Row<int, string>>, Error>)
    requires AllWellFormed(data) && DistinctYears(columnMap)
    ensures (r.Failure? && r.error != NoRecords) <==> exists i :: 0 <= i < |columnMap| && Broken(data, columnMap[i])
    ensures r.Failure? && r.error != NoRecords ==>
              exists i :: 0 <= i < |columnMap| && Broken(data, columnMap[i])
                && (forall j :: 0 <= j < i ==> !Broken(data, columnMap[j]))
                && r.error == ItemError(data, columnMap[i])
    ensures r == Failure(NoRecords) <==>
              (forall i :: 0 <= i < |columnMap| ==> !Broken(data, columnMap[i]))
              && (forall i :: 0 <= i < |columnMap| ==>
                    CountWhere(Responses(data, columnMap, columnMap[i].0), Recognised(normalize)) == 0)
    ensures r.Success? ==> Distinct(RowKeys(r.value))
    ensures r.Success? ==> forall row :: row in r.value ==>
              && IsMappedYear(columnMap, row.group)
              && row.count == CountWhere(Responses(data, columnMap, row.group), MapsTo(normalize, row.category))
              && row.total == CountWhere(Responses(data, columnMap, row.group), Recognised(normalize))
              && 1 <= row.count <= row.total
    ensures r.Success? ==> forall y, name :: IsMappedYear(columnMap, y) ==>
              ((y, name) in RowKeys(r.value) <==> CountWhere(Responses(data, columnMap, y), MapsTo(normalize, name)) > 0)
  {
    var c := Collect(data, columnMap, normalize);
    CollectFailure(data, columnMap, normalize);
    if c.Failure? then Failure(c.error)
    else
      CollectEmptyIff(data, columnMap, normalize);
      if |c.value| == 0 then Failure(NoRecords)
      else
        var rows := WithTotals(c.value);
        assert forall row :: row in rows ==>
                 && IsMappedYear(columnMap, row.group)
                 && row.count == CountWhere(Responses(data, columnMap, row.group), MapsTo(normalize, row.category))
                 && row.total == CountWhere(Responses(data, columnMap, row.group), Recognised(normalize))
                 && 1 <= row.count <= row.total
        by {
          forall row | row in rows {
            SharesRow(data, columnMap, normalize, row);
          }
        }
        assert forall y, name :: IsMappedYear(columnMap, y) ==>
                 ((y, name) in RowKeys(rows) <==> CountWhere(Responses(data, columnMap, y), MapsTo(normalize, name)) > 0)
        by {
          forall y, name {
            SharesKey(data, columnMap, normalize, y, name);
          }
        }
        Success(rows)
  }

  /** A successful result is the table of the collected records. */
  lemma SharesTable(data: map<int, Table>, columnMap: seq<(int, string)>, normalize: Normalizer)
    requires AllWellFormed(data) && DistinctYears(columnMap)
    requires Shares(data, columnMap, normalize).Success?
    ensures Collect(data, columnMap, normalize).Success?
    ensures Shares(data, columnMap, normalize).value == WithTotals(Collect(data, columnMap, normalize).value)
  {
  }

  /** A row's total is its group's weight. */
  lemma RowTotal(es: seq<((int, string), nat)>, row: Row<int, string>)
    requires row in WithTotals(es)
    ensures row.total == WeightWhere(es, InGroup(row.group))
  {
    var i :| 0 <= i < |WithTotals(es)| && WithTotals(es)[i] == row;
  }

  /** Each year's total is the sum of the counts of that year's rows, so no year's rows count more than its total. */
  lemma SharesTotalsAreSums(data: map<int, Table>, columnMap: seq<(int, string)>, normalize: Normalizer, row: Row<int, string>)
    requires AllWellFormed(data) && DistinctYears(columnMap)
    requires Shares(data, columnMap, normalize).Success?
    requires row in Shares(data, columnMap, normalize).value
    ensures row.total == SumCounts(Shares(data, columnMap, normalize).value, row.group)
  {
    SharesTable(data, columnMap, normalize);
    TotalIsSumOfCounts(Collect(data, columnMap, normalize).value, row.group);
  }

  /** The proportions of every year present in a successful result add up to exactly one. */
  lemma SharesProportionsSumToOne(data: map<int, Table>, columnMap: seq<(int, string)>, normalize: Normalizer, year: int)
    requires AllWellFormed(data) && DistinctYears(columnMap)
    requires Shares(data, columnMap, normalize).Success?
    requires exists row :: row in Shares(data, columnMap, normalize).value && row.group == year
    ensures SumProportions(Shares(data, columnMap, normalize).value, year) == 1.0
  {
    var rows := Shares(data, columnMap, normalize).value;
    var row :| row in rows && row.group == year;
    SharesTable(data, columnMap, normalize);
    var es := Collect(data, columnMap, normalize).value;
    assert rows == WithTotals(es);
    RowTotal(es, row);
    SharesRow(data, columnMap, normalize, row);
    ProportionsSumToOne(es, year);
  }

  /** category_map[raw] for the raw categories the map knows (`if category in category_map`); the others are dropped. */
  function StateOf(categoryMap: map<string, string>): Normalizer {
    v => if v in categoryMap then Some(categoryMap[v]) else None
  }

  /** A State that counts some answer is a value of the category map. */
  lemma StateCounted(cells: seq<Cell>, categoryMap: map<string, string>, name: string)
    requires CountWhere(cells, MapsTo(StateOf(categoryMap), name)) > 0
    ensures name in categoryMap.Values
  {
    var i := CountWhereWitness(cells, MapsTo(StateOf(categoryMap), name));
    assert categoryMap[cells[i].value] == name;
  }

  /**
   * prepare_remote_work_data. Every State is a value of the category map;
   * its Count is the number of that year's answers whose raw category the
   * map sends to that State; the Yearly total is the number of that year's
   * answers whose raw category the map knows.
   */
  function RemoteWork(data: map<int, Table>, columnMap: seq<(int, string)>, categoryMap: map<string, string>)
    : (r: Result<seq<Row<int, string>>, Error>)
    requires AllWellFormed(data) && DistinctYears(columnMap)
    ensures (r.Failure? && r.error != NoRecords) <==> exists i :: 0 <= i < |columnMap| && Broken(data, columnMap[i])
    ensures r.Failure? && r.error != NoRecords ==>
              exists i :: 0 <= i < |columnMap| && Broken(data, columnMap[i])
                && (forall j :: 0 <= j < i ==> !Broken(data, columnMap[j]))
                && r.error == ItemError(data, columnMap[i])
    ensures r == Failure(NoRecords) <==>
              (forall i :: 0 <= i < |columnMap| ==> !Broken(data, columnMap[i]))
              && (forall i :: 0 <= i < |columnMap| ==>
                    CountWhere(Responses(data, columnMap, columnMap[i].0), Recognised(StateOf(categoryMap))) == 0)
    ensures r.Success? ==> forall y, name :: IsMappedYear(columnMap, y) ==>
              ((y, name) in RowKeys(r.value) <==> CountWhere(Responses(data, columnMap, y), MapsTo(StateOf(categoryMap), name)) > 0)
    ensures r.Success? ==> Distinct(RowKeys(r.value))
    ensures r.Success? ==> forall row :: row in r.value ==>
              && row.category in categoryMap.Values
              && IsMappedYear(columnMap, row.group)
              && row.count == CountWhere(Responses(data, columnMap, row.group), MapsTo(StateOf(categoryMap), row.category))
              && row.total == CountWhere(Responses(data, columnMap, row.group), Recognised(StateOf(categoryMap)))
              && 1 <= row.count <= row.total
  {
    var r := Shares(data, columnMap, StateOf(categoryMap));
    if r.Success? then
      assert forall row :: row in r.value ==> row.category in categoryMap.Values by {
        forall row | row in r.value
          ensures row.category in categoryMap.Values
        {
          StateCounted(Responses(data, columnMap, row.group), categoryMap, row.category);
        }
      }
      r
    else r
  }

  /** The gender classifier as a normaliser: answers classified Other are dropped. */
  function GenderOf(): Normalizer {
    v => var g := Gender.Categorize(v); if g == Gender.OtherLabel then None else Some(g)
  }

  /** A gender that counts some answer is one of the labels other than Other. */
  lemma GenderLabelCounted(cells: seq<Cell>, name: string)
    requires CountWhere(cells, MapsTo(GenderOf(), name)) > 0
    ensures Gender.IsLabel(name) && name != Gender.OtherLabel
  {
    var i := CountWhereWitness(cells, MapsTo(GenderOf(), name));
    assert Gender.Categorize(cells[i].value) == name;
  }

  /**
   * prepare_gender_dist_data. No row is labelled Other; each (Year, Gender)
   * Count is the number of that year's answers classified as that gender,
   * and the Total the number of that year's answers not classified Other.
   */
  function GenderDist(data: map<int, Table>, columnMap: seq<(int, string)>)
    : (r: Result<seq<Row<int, string>>, Error>)
    requires AllWellFormed(data) && DistinctYears(columnMap)
    ensures (r.Failure? && r.error != NoRecords) <==> exists i :: 0 <= i < |columnMap| && Broken(data, columnMap[i])
    ensures r.Failure? && r.error != NoRecords ==>
              exists i :: 0 <= i < |columnMap| && Broken(data, columnMap[i])
                && (forall j :: 0 <= j < i ==> !Broken(data, columnMap[j]))
                && r.error == ItemError(data, columnMap[i])
    ensures r == Failure(NoRecords) <==>
              (forall i :: 0 <= i < |columnMap| ==> !Broken(data, columnMap[i]))
              && (forall i :: 0 <= i < |columnMap| ==>
                    CountWhere(Responses(data, columnMap, columnMap[i].0), Recognised(GenderOf())) == 0)
    ensures r.Success? ==> forall y, name :: IsMappedYear(columnMap, y) ==>
              ((y, name) in RowKeys(r.value) <==> CountWhere(Responses(data, columnMap, y), MapsTo(GenderOf(), name)) > 0)
    ensures r.Success? ==> Distinct(RowKeys(r.value))
    ensures r.Success? ==> forall row :: row in r.value ==>
              && Gender.IsLabel(row.category) && row.category != Gender.OtherLabel
              && IsMappedYear(columnMap, row.group)
              && row.count == CountWhere(Responses(data, columnMap, row.group), MapsTo(GenderOf(), row.category))
              && row.total == CountWhere(Responses(data, columnMap, row.group), Recognised(GenderOf()))
              && 1 <= row.count <= row.total
  {
    var r := Shares(data, columnMap, GenderOf());
    if r.Success? then
      assert forall row :: row in r.value ==> Gender.IsLabel(row.category) && row.category != Gender.OtherLabel by {
        forall row | row in r.value
          ensures Gender.IsLabel(row.category) && row.category != Gender.OtherLabel
        {
          GenderLabelCounted(Responses(data, columnMap, row.group), row.category);
        }
      }
      r
    else r
  }
}
