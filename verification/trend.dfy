/** The long-term trend tab: per-year population totals, and the line traces
    the series multiselect switches on. */
module PopulationTrend {
  import opened Results
  import opened Sequences
  import opened PopulationTable
  import opened Pyramid
  import opened TrendLists

  /** Total male population of a year: the sum of its male column. */
  function MaleTotal(t: Table, y: int): int
    requires HasColumn(t, MaleColumn(y))
  {
    Sum(Lookup(t, MaleColumn(y)).value)
  }

  /** Total female population of a year: the sum of its female column. */
  function FemaleTotal(t: Table, y: int): int
    requires HasColumn(t, FemaleColumn(y))
  {
    Sum(Lookup(t, FemaleColumn(y)).value)
  }

  /** The failure the loop body raises for a year lacking a column: the male
      column is looked up first. */
  function MissingYearError(t: Table, y: int): Error
  {
    if !HasColumn(t, MaleColumn(y)) then MissingColumn(MaleColumn(y)) else MissingColumn(FemaleColumn(y))
  }

  /** One pass of the loop body: the year's male sum and female sum. */
  function YearPoint(t: Table, y: int): (r: Result<(int, int)>)
    ensures r.Ok? <==> HasYear(t, y)
    ensures r.Err? ==> r.error == MissingYearError(t, y)
    ensures r.Ok? ==> r.value.0 == MaleTotal(t, y) && r.value.1 == FemaleTotal(t, y)
  {
    var male :- Lookup(t, MaleColumn(y));
    var female :- Lookup(t, FemaleColumn(y));
    Ok((Sum(male), Sum(female)))
  }

  /** The point of every year in order. */
  function Points(t: Table, years: seq<int>): (r: seq<Result<(int, int)>>)
    ensures |r| == |years|
    ensures forall k :: 0 <= k < |years| ==> r[k] == YearPoint(t, years[k])
  {
    seq(|years|, k requires 0 <= k < |years| => YearPoint(t, years[k]))
  }

  /** The four lists of the trend tab for the given years. They exist exactly
      when every year has both columns; they list the years in the given
      order, each entry holding that year's male sum, female sum and their
      total; otherwise the first year missing a column stops them with its
      failure. */
  function TrendOf(t: Table, years: seq<int>): (r: Result<Trend>)
    ensures r.Ok? <==> forall k :: 0 <= k < |years| ==> HasYear(t, years[k])
    ensures r.Ok? ==> r.value.years == years
    ensures r.Ok? ==> |r.value.total| == |years| && |r.value.male| == |years| && |r.value.female| == |years|
    ensures r.Ok? ==> forall k :: 0 <= k < |years| ==>
              r.value.male[k] == MaleTotal(t, years[k]) && r.value.female[k] == FemaleTotal(t, years[k])
              && r.value.total[k] == MaleTotal(t, years[k]) + FemaleTotal(t, years[k])
    ensures r.Err? ==>
              exists k :: 0 <= k < |years| && !HasYear(t, years[k])
                          && (forall j :: 0 <= j < k ==> HasYear(t, years[j]))
                          && r.error == MissingYearError(t, years[k])
  {
    Fold(years, Points(t, years))
  }

  /** The trend tab's loop over the given years, its body summing the
      year's two columns; it computes exactly `TrendOf`. */
  method BuildTrend(t: Table, years: seq<int>) returns (r: Result<Trend>)
    ensures r == TrendOf(t, years)
  {
    r := AccumulateTrend(years, y => YearPoint(t, y));
    assert seq(|years|, k requires 0 <= k < |years| => (y => YearPoint(t, y))(years[k])) == Points(t, years);
  }

  /** Each year's total population is also the sum over the age bands of the
      male and female counts of that band. */
  lemma TotalOverAgeBands(t: Table, years: seq<int>, k: int)
    requires TrendOf(t, years).Ok?
    requires 0 <= k < |years|
    requires Rectangular(t)
    ensures |Lookup(t, MaleColumn(years[k])).value| == |Lookup(t, FemaleColumn(years[k])).value|
    ensures TrendOf(t, years).value.total[k]
            == Sum(AddPointwise(Lookup(t, MaleColumn(years[k])).value, Lookup(t, FemaleColumn(years[k])).value))
  {
    SumPointwise(Lookup(t, MaleColumn(years[k])).value, Lookup(t, FemaleColumn(years[k])).value);
  }

  /** The trend point of a year agrees with that year's pyramid: the male and
      female totals are the sums of the pyramid's two columns. */
  lemma TrendMatchesPyramid(t: Table, years: seq<int>, k: int)
    requires TrendOf(t, years).Ok?
    requires 0 <= k < |years|
    requires t.labelName == "age"
    ensures PyramidSlice(t, years[k]).Ok?
    ensures TrendOf(t, years).value.male[k] == Sum(PyramidSlice(t, years[k]).value.male)
    ensures TrendOf(t, years).value.female[k] == Sum(PyramidSlice(t, years[k]).value.female)
  {
  }

  /** The three selectable series. */
  datatype Series = TotalSeries | MaleSeries | FemaleSeries

  /** The option label of a series in the multiselect. */
  function Label(s: Series): string {
    match s
    case TotalSeries => "Total"
    case MaleSeries => "male"
    case FemaleSeries => "female"
  }

  /** Position of a series in the order the script adds its trace. */
  function Rank(s: Series): nat {
    match s
    case TotalSeries => 0
    case MaleSeries => 1
    case FemaleSeries => 2
  }

  function Values(tr: Trend, s: Series): seq<int> {
    match s
    case TotalSeries => tr.total
    case MaleSeries => tr.male
    case FemaleSeries => tr.female
  }

  /** One line trace: years on the x axis, one series on the y axis. */
  datatype Trace = Trace(series: Series, xs: seq<int>, ys: seq<int>)

  function TraceIf(selected: seq<string>, tr: Trend, s: Series): seq<Trace> {
    if Label(s) in selected then [Trace(s, tr.years, Values(tr, s))] else []
  }

  /** The traces added to the line chart, in the order total, male, female,
      each plotted against the year list. Which series appear is stated by
      `SeriesShownIffSelected`. */
  function SeriesTraces(selected: seq<string>, tr: Trend): (r: seq<Trace>)
    ensures forall i :: 0 <= i < |r| ==> r[i].xs == tr.years && r[i].ys == Values(tr, r[i].series)
    ensures forall i, j :: 0 <= i < j < |r| ==> Rank(r[i].series) < Rank(r[j].series)
    ensures |selected| == 0 ==> r == []
  {
    TraceIf(selected, tr, TotalSeries) + TraceIf(selected, tr, MaleSeries) + TraceIf(selected, tr, FemaleSeries)
  }

  /** A series has a trace exactly when its label is among the selected options. */
  lemma SeriesShownIffSelected(selected: seq<string>, tr: Trend, s: Series)
    ensures (exists i :: 0 <= i < |SeriesTraces(selected, tr)| && SeriesTraces(selected, tr)[i].series == s)
            <==> Label(s) in selected
  {
    var a := TraceIf(selected, tr, TotalSeries);
    var b := TraceIf(selected, tr, MaleSeries);
    var r := SeriesTraces(selected, tr);
    if Label(s) in selected {
      if s == TotalSeries {
        assert r[0].series == s;
      } else if s == MaleSeries {
        assert r[|a|].series == s;
      } else {
        assert r[|a| + |b|].series == s;
      }
    }
  }
}
