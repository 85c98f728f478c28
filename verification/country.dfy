/**
 * prepare_gender_dist_data_per_country: for one year, the responses that
 * answered both the gender and the country question, classified by gender
 * (Other dropped), counted per (country, gender), with each country's total.
 */
module CountryShares {
  import opened Wrappers
  import opened Survey
  import opened Tally
  import opened Aggregate
  import Gender

  /** One record per response whose gender is not classified Other, keyed by (country, gender). */
  function CountryRecords(pairs: seq<(string, string)>): (es: seq<((string, string), nat)>)
    ensures |es| <= |pairs|
    ensures forall i :: 0 <= i < |es| ==> es[i].1 == 1
  {
    if |pairs| == 0 then []
    else
      var rest := CountryRecords(pairs[..|pairs| - 1]);
      var p := pairs[|pairs| - 1];
      var g := Gender.Categorize(p.0);
      if g == Gender.OtherLabel then rest else rest + [((p.1, g), 1)]
  }

  /** The number of (gender answer, country) responses from country classified as gender. */
  function Classified(pairs: seq<(string, string)>, country: string, gender: string): nat {
    if |pairs| == 0 then 0
    else
      var p := pairs[|pairs| - 1];
      Classified(pairs[..|pairs| - 1], country, gender)
        + (if p.1 == country && Gender.Categorize(p.0) == gender then 1 else 0)
  }

  /** The number of responses from country whose gender is not classified Other. */
  function ClassifiedInCountry(pairs: seq<(string, string)>, country: string): nat {
    if |pairs| == 0 then 0
    else
      var p := pairs[|pairs| - 1];
      ClassifiedInCountry(pairs[..|pairs| - 1], country)
        + (if p.1 == country && Gender.Categorize(p.0) != Gender.OtherLabel then 1 else 0)
  }

  /** The score of a response from country classified as gender. */
  function ClassifiedAs(country: string, gender: string): ((string, string)) -> nat {
    (p: (string, string)) => if p.1 == country && Gender.Categorize(p.0) == gender then 1 else 0
  }

  /** The score of a response from country not classified Other. */
  function KeptFrom(country: string): ((string, string)) -> nat {
    (p: (string, string)) => if p.1 == country && Gender.Categorize(p.0) != Gender.OtherLabel then 1 else 0
  }

  /** The reference counts are the scores summed over the pairs. */
  lemma {:induction false} ClassifiedSums(pairs: seq<(string, string)>, country: string, gender: string)
    ensures Classified(pairs, country, gender) == PairSum(pairs, ClassifiedAs(country, gender))
    ensures ClassifiedInCountry(pairs, country) == PairSum(pairs, KeptFrom(country))
    decreases |pairs|
  {
    if |pairs| > 0 {
      ClassifiedSums(pairs[..|pairs| - 1], country, gender);
    }
  }

  lemma {:induction false} CountryRecordsWeights(pairs: seq<(string, string)>, country: string, gender: string)
    ensures Weight(CountryRecords(pairs), (country, gender))
            == if gender == Gender.OtherLabel then 0 else Classified(pairs, country, gender)
    ensures WeightWhere(CountryRecords(pairs), InGroup(country)) == ClassifiedInCountry(pairs, country)
    decreases |pairs|
  {
    if |pairs| > 0 {
      var rest := CountryRecords(pairs[..|pairs| - 1]);
      CountryRecordsWeights(pairs[..|pairs| - 1], country, gender);
      var p := pairs[|pairs| - 1];
      var g := Gender.Categorize(p.0);
      if g != Gender.OtherLabel {
        assert (rest + [((p.1, g), 1)])[..|rest|] == rest;
      }
    }
  }

  /** The answered (gender, country) pairs of the year, or none when a lookup fails. */
  function CountryPairs(data: map<int, Table>, year: int, genderColumns: map<int, string>, countryColumns: map<int, string>)
    : seq<(string, string)>
    requires AllWellFormed(data)
  {
    if year in data && year in genderColumns && year in countryColumns then
      var r := AnsweredPairs(data[year], year, genderColumns[year], countryColumns[year]);
      if r.Success? then r.value else []
    else []
  }

  /** What one row of the per-country table holds. */
  lemma CountryRow(pairs: seq<(string, string)>, row: Row<string, string>)
    requires row in WithTotals(CountryRecords(pairs))
    ensures Gender.IsLabel(row.category) && row.category != Gender.OtherLabel
    ensures row.count == Classified(pairs, row.group, row.category)
    ensures row.total == ClassifiedInCountry(pairs, row.group)
    ensures 1 <= row.count <= row.total
  {
    var es := CountryRecords(pairs);
    var rows := WithTotals(es);
    RowsArePositive(es);
    var i :| 0 <= i < |rows| && rows[i] == row;
    CountryRecordsWeights(pairs, row.group, row.category);
    ClassifiedLabel(pairs, row.group, row.category);
  }

  /** A (country, gender) row exists exactly when some response from the country is classified as that gender. */
  lemma CountryKey(pairs: seq<(string, string)>, country: string, gender: string)
    requires gender != Gender.OtherLabel
    ensures (country, gender) in RowKeys(WithTotals(CountryRecords(pairs))) <==> Classified(pairs, country, gender) > 0
  {
    CountryRecordsWeights(pairs, country, gender);
    KeyIffPositiveWeight(CountryRecords(pairs), (country, gender));
  }

  /**
   * The per-country table of answered (gender, country) pairs. Every row is
   * a (Country, Gender) pair with a gender other than Other; its Count is
   * the number of responses from that country classified as that gender and
   * its Total the number of responses from that country not classified
   * Other; a pair has a row exactly when that count is positive.
   */
  function CountryTable(pairs: seq<(string, string)>): (rows: seq<Row<string, string>>)
    ensures Distinct(RowKeys(rows))
    ensures forall row :: row in rows ==>
              && Gender.IsLabel(row.category) && row.category != Gender.OtherLabel
              && row.count == Classified(pairs, row.group, row.category)
              && row.total == ClassifiedInCountry(pairs, row.group)
              && 1 <= row.count <= row.total
    ensures forall country, gender :: gender != Gender.OtherLabel ==>
              ((country, gender) in RowKeys(rows) <==> Classified(pairs, country, gender) > 0)
  {
    var rows := WithTotals(CountryRecords(pairs));
    assert forall row :: row in rows ==>
             && Gender.IsLabel(row.category) && row.category != Gender.OtherLabel
             && row.count == Classified(pairs, row.group, row.category)
             && row.total == ClassifiedInCountry(pairs, row.group)
             && 1 <= row.count <= row.total
    by {
      forall row | row in rows {
        CountryRow(pairs, row);
      }
    }
    assert forall country, gender :: gender != Gender.OtherLabel ==>
             ((country, gender) in RowKeys(rows) <==> Classified(pairs, country, gender) > 0)
    by {
      forall country, gender | gender != Gender.OtherLabel
        ensures (country, gender) in RowKeys(rows) <==> Classified(pairs, country, gender) > 0
      {
        CountryKey(pairs, country, gender);
      }
    }
    rows
  }

  /**
   * The whole aggregation for one year. Lookups fail in the source's order:
   * the year's table, the gender column's name, the country column's name,
   * then the two columns themselves.
   */
  function GenderPerCountry(data: map<int, Table>, year: int, genderColumns: map<int, string>, countryColumns: map<int, string>)
    : (r: Result<seq<Row<string, string>>, Error>)
    requires AllWellFormed(data)
    ensures year !in data ==> r == Failure(MissingYear(year))
    ensures year in data && year !in genderColumns ==> r == Failure(MissingMapping(year))
    ensures year in data && year in genderColumns && year !in countryColumns ==> r == Failure(MissingMapping(year))
    ensures year in data && year in genderColumns && year in countryColumns ==>
              (r.Failure? <==> genderColumns[year] !in data[year].columns || countryColumns[year] !in data[year].columns)
    ensures year in data && year in genderColumns && year in countryColumns && r.Failure? ==>
              r.error == MissingColumn(year, if genderColumns[year] !in data[year].columns then genderColumns[year]
                                             else countryColumns[year])
    ensures r.Success? ==> Distinct(RowKeys(r.value))
    ensures r.Success? ==> r.value == CountryTable(CountryPairs(data, year, genderColumns, countryColumns))
    ensures r.Success? ==>
              && year in data && year in genderColumns && year in countryColumns
              && genderColumns[year] in data[year].columns && countryColumns[year] in data[year].columns
    ensures r.Success? ==> forall row :: row in r.value ==>
              && row.count == ResponseSum(data[year], genderColumns[year], countryColumns[year], ClassifiedAs(row.group, row.category))
              && row.total == ResponseSum(data[year], genderColumns[year], countryColumns[year], KeptFrom(row.group))
    ensures r.Success? ==> forall country, gender :: gender != Gender.OtherLabel ==>
              (((country, gender) in RowKeys(r.value))
                 <==> ResponseSum(data[year], genderColumns[year], countryColumns[year], ClassifiedAs(country, gender)) > 0)
  {
    var table :- YearTable(data, year);
    var genderColumn :- MappedColumn(genderColumns, year);
    var countryColumn :- MappedColumn(countryColumns, year);
    var pairs :- AnsweredPairs(table, year, genderColumn, countryColumn);
    assert forall country, gender ::
             && Classified(pairs, country, gender) == PairSum(pairs, ClassifiedAs(country, gender))
             && ClassifiedInCountry(pairs, country) == PairSum(pairs, KeptFrom(country))
    by {
      forall country, gender {
        ClassifiedSums(pairs, country, gender);
      }
    }
    Success(CountryTable(pairs))
  }

  /** Only the four labels are ever counted. */
  lemma {:induction false} ClassifiedLabel(pairs: seq<(string, string)>, country: string, gender: string)
    requires Classified(pairs, country, gender) > 0
    ensures Gender.IsLabel(gender)
    decreases |pairs|
  {
    var p := pairs[|pairs| - 1];
    if !(p.1 == country && Gender.Categorize(p.0) == gender) {
      ClassifiedLabel(pairs[..|pairs| - 1], country, gender);
    }
  }

  /** Each country's total is the sum of the counts of that country's rows. */
  lemma CountryTotalsAreSums(pairs: seq<(string, string)>, row: Row<string, string>)
    requires row in CountryTable(pairs)
    ensures row.total == SumCounts(CountryTable(pairs), row.group)
  {
    assert CountryTable(pairs) == WithTotals(CountryRecords(pairs));
    TotalIsSumOfCounts(CountryRecords(pairs), row.group);
  }

  /** The proportions of every country present in the table add up to exactly one. */
  lemma CountryProportionsSumToOne(pairs: seq<(string, string)>, country: string)
    requires exists row :: row in CountryTable(pairs) && row.group == country
    ensures SumProportions(CountryTable(pairs), country) == 1.0
  {
    var es := CountryRecords(pairs);
    var row :| row in CountryTable(pairs) && row.group == country;
    CountryRecordsWeights(pairs, country, Gender.OtherLabel);
    assert CountryTable(pairs) == WithTotals(es);
    ProportionsSumToOne(es, country);
  }
}
