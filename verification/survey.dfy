/**
 * The tabular survey data the helpers work on. A yearly survey table is a
 * list of column names and a list of responses, one cell per column; a
 * missing answer (NaN) is None. The yearly collection maps a year to its
 * table, and the year-to-column maps say where a field lives in each year.
 */
module Survey {
  import opened Wrappers

  type Cell = Option<string>

  datatype Table = Table(columns: seq<string>, rows: seq<seq<Cell>>)

  /** Every response has exactly one cell per column, as in a data frame. */
  predicate WellFormed(t: Table) {
    forall i :: 0 <= i < |t.rows| ==> |t.rows[i]| == |t.columns|
  }

  /** Every table of a yearly collection is well formed. */
  predicate AllWellFormed(data: map<int, Table>) {
    forall y :: y in data ==> WellFormed(data[y])
  }

  /**
   * The lookups that raise KeyError in the source: a year absent from the
   * yearly collection, a year absent from a year-to-column map, a column
   * absent from a table, and grouping an empty record list (a frame with no
   * columns at all, so the grouping key itself is missing).
   */
  datatype Error =
    | MissingYear(year: int)
    | MissingMapping(year: int)
    | MissingColumn(year: int, column: string)
    | NoRecords

  /** The first position of name among the columns. */
  function ColumnIndex(columns: seq<string>, name: string): (r: Option<nat>)
    ensures r.None? <==> name !in columns
    ensures r.Some? ==> r.value < |columns| && columns[r.value] == name && name !in columns[..r.value]
  {
    if |columns| == 0 then None
    else if columns[0] == name then Some(0)
    else match ColumnIndex(columns[1..], name)
      case None => None
      case Some(i) =>
        assert columns[1..][..i] == columns[1..i + 1];
        Some(i + 1)
  }

  /** The table of one year: data[year]. */
  function YearTable(data: map<int, Table>, year: int): (r: Result<Table, Error>)
    ensures r.Failure? <==> year !in data
    ensures r.Failure? ==> r.error == MissingYear(year)
    ensures r.Success? ==> r.value == data[year]
  {
    if year in data then Success(data[year]) else Failure(MissingYear(year))
  }

  /** The column a year-to-column map names for a year: column_map[year]. */
  function MappedColumn(columnMap: map<int, string>, year: int): (r: Result<string, Error>)
    ensures r.Failure? <==> year !in columnMap
    ensures r.Failure? ==> r.error == MissingMapping(year)
    ensures r.Success? ==> r.value == columnMap[year]
  {
    if year in columnMap then Success(columnMap[year]) else Failure(MissingMapping(year))
  }

  /** All cells of the column called name, one per response: table[name]. */
  function ColumnCells(t: Table, year: int, name: string): (r: Result<seq<Cell>, Error>)
    requires WellFormed(t)
    ensures r.Failure? <==> name !in t.columns
    ensures r.Failure? ==> r.error == MissingColumn(year, name)
    ensures r.Success? ==> |r.value| == |t.rows|
    ensures r.Success? ==> forall i :: 0 <= i < |t.rows| ==> r.value[i] == t.rows[i][ColumnIndex(t.columns, name).value]
  {
    match ColumnIndex(t.columns, name)
    case None => Failure(MissingColumn(year, name))
    case Some(j) => Success(seq(|t.rows|, i requires 0 <= i < |t.rows| => t.rows[i][j]))
  }

  /**
   * table[[first, second]].dropna(): the pairs of answers of the responses
   * that answered both columns, in response order. A missing column fails,
   * the first one checked first. On success each pair occurs once per
   * response that gave it, so any per-pair score summed over the result is
   * that score summed over the responses that answered both columns.
   */
  function AnsweredPairs(t: Table, year: int, first: string, second: string): (r: Result<seq<(string, string)>, Error>)
    requires WellFormed(t)
    ensures r.Failure? <==> first !in t.columns || second !in t.columns
    ensures r.Failure? && first !in t.columns ==> r.error == MissingColumn(year, first)
    ensures r.Failure? && first in t.columns ==> r.error == MissingColumn(year, second)
    ensures r.Success? ==> |r.value| <= |t.rows|
    ensures r.Success? ==> forall p :: p in r.value <==> Answered(t, first, second, p)
    ensures r.Success? ==> forall p :: multiset(r.value)[p] == ResponseSum(t, first, second, Indicator(p))
    ensures r.Success? ==> forall w :: PairSum(r.value, w) == ResponseSum(t, first, second, w)
  {
    var a :- ColumnCells(t, year, first);
    var b :- ColumnCells(t, year, second);
    var jf := ColumnIndex(t.columns, first).value;
    var js := ColumnIndex(t.columns, second).value;
    CellSumIsRowSum(a, b, t.rows, jf, js);
    BothPresentMultiplicity(a, b);
    Success(BothPresent(a, b))
  }

  /** Some response answered the column first with p.0 and the column second with p.1. */
  predicate Answered(t: Table, first: string, second: string, p: (string, string))
    requires WellFormed(t) && first in t.columns && second in t.columns
  {
    var jf := ColumnIndex(t.columns, first).value;
    var js := ColumnIndex(t.columns, second).value;
    exists i :: 0 <= i < |t.rows| && t.rows[i][jf] == Some(p.0) && t.rows[i][js] == Some(p.1)
  }

  /** The score counting the pairs equal to p. */
  function Indicator(p: (string, string)): ((string, string)) -> nat {
    (q: (string, string)) => if q == p then 1 else 0
  }

  /** A score summed over a list of pairs. */
  function PairSum(pairs: seq<(string, string)>, w: ((string, string)) -> nat): nat {
    if |pairs| == 0 then 0
    else PairSum(pairs[..|pairs| - 1], w) + w(pairs[|pairs| - 1])
  }

  /** A score summed over the positions where both cells are present. */
  function CellSum(a: seq<Cell>, b: seq<Cell>, w: ((string, string)) -> nat): nat
    requires |a| == |b|
  {
    if |a| == 0 then 0
    else
      var n := |a| - 1;
      CellSum(a[..n], b[..n], w) + (if a[n].Some? && b[n].Some? then w((a[n].value, b[n].value)) else 0)
  }

  /** Every response has a cell at the positions jf and js. */
  predicate HasCells(rows: seq<seq<Cell>>, jf: nat, js: nat) {
    forall i :: 0 <= i < |rows| ==> jf < |rows[i]| && js < |rows[i]|
  }

  /** A score summed over the responses whose cells at jf and js are both present. */
  function RowSum(rows: seq<seq<Cell>>, jf: nat, js: nat, w: ((string, string)) -> nat): nat
    requires HasCells(rows, jf, js)
  {
    if |rows| == 0 then 0
    else
      var last := rows[|rows| - 1];
      RowSum(rows[..|rows| - 1], jf, js, w)
        + (if last[jf].Some? && last[js].Some? then w((last[jf].value, last[js].value)) else 0)
  }

  /** A score summed over the responses that answered both the column first and the column second. */
  function ResponseSum(t: Table, first: string, second: string, w: ((string, string)) -> nat): nat
    requires WellFormed(t) && first in t.columns && second in t.columns
  {
    RowSum(t.rows, ColumnIndex(t.columns, first).value, ColumnIndex(t.columns, second).value, w)
  }

  /** The responses, position by position, where both cells are present. */
  function BothPresent(a: seq<Cell>, b: seq<Cell>): (r: seq<(string, string)>)
    requires |a| == |b|
    ensures |r| <= |a|
    ensures forall p :: p in r <==> exists i :: 0 <= i < |a| && a[i] == Some(p.0) && b[i] == Some(p.1)
    ensures forall w :: PairSum(r, w) == CellSum(a, b, w)
  {
    if |a| == 0 then []
    else
      var rest := BothPresent(a[..|a| - 1], b[..|b| - 1]);
      var n := |a| - 1;
      if a[n].Some? && b[n].Some? then
        var q := (a[n].value, b[n].value);
        PairSumSnoc(rest, q);
        rest + [q]
      else rest
  }

  /** Appending a pair adds its score. */
  lemma PairSumSnoc(pairs: seq<(string, string)>, q: (string, string))
    ensures forall w :: PairSum(pairs + [q], w) == PairSum(pairs, w) + w(q)
  {
    assert (pairs + [q])[..|pairs|] == pairs;
  }

  /** Summing the indicator of p counts the occurrences of p. */
  lemma {:induction false} PairSumIndicator(pairs: seq<(string, string)>, p: (string, string))
    ensures PairSum(pairs, Indicator(p)) == multiset(pairs)[p]
    decreases |pairs|
  {
    if |pairs| > 0 {
      var n := |pairs| - 1;
      PairSumIndicator(pairs[..n], p);
      assert pairs == pairs[..n] + [pairs[n]];
    }
  }

  /** dropna keeps each pair once per position holding it. */
  lemma {:induction false} BothPresentMultiplicity(a: seq<Cell>, b: seq<Cell>)
    requires |a| == |b|
    ensures forall p :: multiset(BothPresent(a, b))[p] == CellSum(a, b, Indicator(p))
  {
    forall p {
      PairSumIndicator(BothPresent(a, b), p);
    }
  }

  /** Summing over the cells of two columns is summing over the responses. */
  lemma {:induction false} CellSumIsRowSum(a: seq<Cell>, b: seq<Cell>, rows: seq<seq<Cell>>, jf: nat, js: nat)
    requires |a| == |b| == |rows| && HasCells(rows, jf, js)
    requires forall i :: 0 <= i < |rows| ==> a[i] == rows[i][jf] && b[i] == rows[i][js]
    ensures forall w :: CellSum(a, b, w) == RowSum(rows, jf, js, w)
    decreases |rows|
  {
    if |rows| > 0 {
      var n := |rows| - 1;
      CellSumIsRowSum(a[..n], b[..n], rows[..n], jf, js);
    }
  }
}
