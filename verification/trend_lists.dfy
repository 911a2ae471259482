/** The four parallel lists of the trend tab, assembled one year at a time. */
module TrendLists {
  import opened Results

  /** The four parallel lists `years_list`, `total_pop`, `male_pop`, `female_pop`. */
  datatype Trend = Trend(years: seq<int>, total: seq<int>, male: seq<int>, female: seq<int>)

  /** The trend lists after the first `n` years: one point per year, in the
      given order. The lists run parallel to `years[..n]`, each entry holds
      that year's male and female sums and the total is their sum. The first
      failing point stops the fold with its error, as an exception raised in
      the loop body does. */
  function FoldPrefix(years: seq<int>, points: seq<Result<(int, int)>>, n: nat): (r: Result<Trend>)
    requires |points| == |years| && n <= |years|
    ensures r.Ok? <==> forall k :: 0 <= k < n ==> points[k].Ok?
    ensures r.Ok? ==> r.value.years == years[..n]
    ensures r.Ok? ==> |r.value.total| == n && |r.value.male| == n && |r.value.female| == n
    ensures r.Ok? ==> forall k :: 0 <= k < n ==>
                        points[k] == Ok((r.value.male[k], r.value.female[k]))
                        && r.value.total[k] == r.value.male[k] + r.value.female[k]
    ensures r.Err? ==> exists k :: 0 <= k < n && points[k].Err?
                                   && (forall j :: 0 <= j < k ==> points[j].Ok?)
                                   && r.error == points[k].error
  {
    if n == 0 then Ok(Trend([], [], [], []))
    else
      var prev := FoldPrefix(years, points, n - 1);
      if prev.Err? then
        Err(prev.error)
      else if points[n - 1].Err? then
        Err(points[n - 1].error)
      else
        var m := points[n - 1].value.0;
        var f := points[n - 1].value.1;
        var p := prev.value;
        assert years[..n] == years[..n - 1] + [years[n - 1]];
        Ok(Trend(p.years + [years[n - 1]], p.total + [m + f], p.male + [m], p.female + [f]))
  }

  /** Folding one more successful point appends it to each list. */
  lemma FoldStep(years: seq<int>, points: seq<Result<(int, int)>>, i: nat, tr: Trend)
    requires |points| == |years| && i < |years|
    requires FoldPrefix(years, points, i) == Ok(tr)
    requires points[i].Ok?
    ensures FoldPrefix(years, points, i + 1)
            == Ok(Trend(tr.years + [years[i]], tr.total + [points[i].value.0 + points[i].value.1],
                        tr.male + [points[i].value.0], tr.female + [points[i].value.1]))
  {
  }

  /** All the years folded. */
  function Fold(years: seq<int>, points: seq<Result<(int, int)>>): (r: Result<Trend>)
    requires |points| == |years|
  {
    FoldPrefix(years, points, |years|)
  }

  /** Once the first `i` points fold and point `i` fails, the fold of any
      longer prefix fails with that point's error. */
  lemma FoldStopsAtFirstGap(years: seq<int>, points: seq<Result<(int, int)>>, i: nat, n: nat)
    requires |points| == |years|
    requires i < n <= |years|
    requires FoldPrefix(years, points, i).Ok?
    requires points[i].Err?
    ensures FoldPrefix(years, points, n) == Err(points[i].error)
  {
    var r := FoldPrefix(years, points, n);
    var k :| 0 <= k < n && points[k].Err? && (forall j :: 0 <= j < k ==> points[j].Ok?) && r.error == points[k].error;
    assert k == i;
  }

  /** The loop `for y in year:` of the trend tab: `point` is the loop body's
      pair of column sums for one year, and each successful pass appends the
      year, the two sums and their total to the four lists. It computes
      exactly the fold of the per-year points. */
  method AccumulateTrend(years: seq<int>, point: int -> Result<(int, int)>) returns (r: Result<Trend>)
    ensures r == Fold(years, seq(|years|, k requires 0 <= k < |years| => point(years[k])))
  {
    ghost var points := seq(|years|, k requires 0 <= k < |years| => point(years[k]));
    var yearsList, totalPop, malePop, femalePop := [], [], [], [];
    var i := 0;
    while i < |years|
      invariant 0 <= i <= |years|
      invariant FoldPrefix(years, points, i) == Ok(Trend(yearsList, totalPop, malePop, femalePop))
    {
      var y := years[i];
      var sums := point(y);
      if sums.Err? {
        FoldStopsAtFirstGap(years, points, i, |years|);
        return Err(sums.error);
      }
      var mSum := sums.value.0;
      var fSum := sums.value.1;
      FoldStep(years, points, i, Trend(yearsList, totalPop, malePop, femalePop));
      yearsList := yearsList + [y];
      malePop := malePop + [mSum];
      femalePop := femalePop + [fSum];
      totalPop := totalPop + [mSum + fSum];
      i := i + 1;
    }
    return Ok(Trend(yearsList, totalPop, malePop, femalePop));
  }
}
