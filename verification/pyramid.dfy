/** The population pyramid for one selected year: the year's male and female
    columns aligned with the age-band labels, and the bars drawn from them. */
module Pyramid {
  import opened Results
  import opened Text
  import opened Sequences
  import opened PopulationTable
  import opened YearDiscovery

  /** Name of a year's male column: the year's numeral, `_`, then `Male`. */
  function MaleColumn(year: int): (r: string)
    ensures Prefix(r) == ShowInt(year)
    ensures r == Prefix(r) + "_Male"
    ensures year >= 0 ==> ParseDecimal(Prefix(r)) == Some(year)
  {
    PrefixOfTagged(ShowInt(year), "Male");
    ParseShowInt(year);
    ShowInt(year) + "_" + "Male"
  }

  /** Name of a year's female column: the year's numeral, `_`, then `Female`. */
  function FemaleColumn(year: int): (r: string)
    ensures Prefix(r) == ShowInt(year)
    ensures r == Prefix(r) + "_Female"
    ensures year >= 0 ==> ParseDecimal(Prefix(r)) == Some(year)
  {
    PrefixOfTagged(ShowInt(year), "Female");
    ParseShowInt(year);
    ShowInt(year) + "_" + "Female"
  }

  /** The male and female lookups of a year target different columns, and
      different years target different columns of the same sex. */
  lemma ColumnNamesDistinct(a: int, b: int)
    ensures MaleColumn(a) != FemaleColumn(b)
    ensures MaleColumn(a) == MaleColumn(b) <==> a == b
    ensures FemaleColumn(a) == FemaleColumn(b) <==> a == b
  {
    ShowIntInjective(a, b);
    // A male name is five characters longer than its numeral, a female
    // name seven, and equal names have equal numerals.
    assert |MaleColumn(a)| == |ShowInt(a)| + 5;
    assert |FemaleColumn(b)| == |ShowInt(b)| + 7;
  }

  /** Both of the year's columns are in the table. */
  predicate HasYear(t: Table, year: int) {
    HasColumn(t, MaleColumn(year)) && HasColumn(t, FemaleColumn(year))
  }

  /** The data behind the pyramid chart: counts per age band, unmodified. */
  datatype Slice = Slice(ages: seq<string>, male: seq<int>, female: seq<int>)

  /** The lookups of the pyramid tab, in the script's order: the male column,
      then the female column, then the `age` labels. The first missing one
      is the failure; nothing is zero-filled. */
  function PyramidSlice(t: Table, year: int): (r: Result<Slice>)
    ensures r.Ok? <==> HasYear(t, year) && t.labelName == "age"
    ensures r.Err? ==> r.error == (if !HasColumn(t, MaleColumn(year)) then MissingColumn(MaleColumn(year))
                                   else if !HasColumn(t, FemaleColumn(year)) then MissingColumn(FemaleColumn(year))
                                   else MissingColumn("age"))
    ensures r.Ok? ==> r.value.ages == t.labels
    ensures r.Ok? ==> exists i :: 0 <= i < |t.columns| && t.columns[i].name == MaleColumn(year)
                                  && t.columns[i].cells == r.value.male
    ensures r.Ok? ==> exists i :: 0 <= i < |t.columns| && t.columns[i].name == FemaleColumn(year)
                                  && t.columns[i].cells == r.value.female
    ensures r.Ok? && Rectangular(t) ==> |r.value.male| == |r.value.ages| && |r.value.female| == |r.value.ages|
  {
    var male :- Lookup(t, MaleColumn(year));
    var female :- Lookup(t, FemaleColumn(year));
    var ages :- AgeLabels(t);
    Ok(Slice(ages, male, female))
  }

  /** The two horizontal bar traces: the male bars are drawn leftwards, as the
      negated counts, and the female bars rightwards, as the counts. */
  datatype Bars = Bars(ages: seq<string>, left: seq<int>, right: seq<int>)

  function PyramidBars(s: Slice): (b: Bars)
    ensures b.ages == s.ages && b.right == s.female
    ensures |b.left| == |s.male|
    ensures forall i :: 0 <= i < |b.left| ==> b.left[i] == -s.male[i]
    ensures Negate(b.left) == s.male
    ensures Sum(b.left) == -Sum(s.male)
  {
    NegateMirrors(s.male);
    Bars(s.ages, Negate(s.male), s.female)
  }

  /** A header `<y>_<tag>` among the data headers names year `y`: its prefix
      is the numeral of `y`. In this model `y` is then not negative, because
      the conversion accepts plain digits only and a negative year's numeral
      starts with '-'. Python's `int` would accept "-5" and list year -5; the
      sign is not modelled. */
  lemma TaggedHeaderNamesYear(h: seq<string>, k: int, y: int, tag: string)
    requires 1 <= k < |h| && h[k] == ShowInt(y) + "_" + tag
    requires AllPrefixesParse(h)
    ensures y >= 0 && DataYear(h, y)
  {
    PrefixOfTagged(ShowInt(y), tag);
    ParseShowInt(y);
    assert NamesYear(h, k, y);
  }

  /** A column of the table named `<y>_<tag>` puts `y` in the year list the
      script computes. */
  lemma ColumnNamesYear(t: Table, y: int, tag: string)
    requires DiscoverYearsAsWritten(Headers(t)).Ok?
    requires HasColumn(t, ShowInt(y) + "_" + tag)
    ensures y >= 0 && y in DiscoverYearsAsWritten(Headers(t)).value
  {
    var k := HeaderPosition(t, ShowInt(y) + "_" + tag);
    TaggedHeaderNamesYear(Headers(t), k, y, tag);
  }

  /** A year missing from the script's year list names no column `<y>_<tag>`. */
  lemma UndiscoveredYearHasNoTaggedColumn(t: Table, y: int, tag: string)
    requires DiscoverYearsAsWritten(Headers(t)).Ok?
    requires y !in DiscoverYearsAsWritten(Headers(t)).value
    ensures !HasColumn(t, ShowInt(y) + "_" + tag)
  {
    if HasColumn(t, ShowInt(y) + "_" + tag) {
      ColumnNamesYear(t, y, tag);
    }
  }

  /** A year missing from the script's year list has neither column. */
  lemma UndiscoveredYearHasNoColumns(t: Table, y: int)
    requires DiscoverYearsAsWritten(Headers(t)).Ok?
    requires y !in DiscoverYearsAsWritten(Headers(t)).value
    ensures !HasColumn(t, MaleColumn(y)) && !HasColumn(t, FemaleColumn(y))
  {
    UndiscoveredYearHasNoTaggedColumn(t, y, "Male");
    UndiscoveredYearHasNoTaggedColumn(t, y, "Female");
  }

  /** The pyramid of a year missing from the script's year list fails on the male
      column. This is what happens when the slider is set to a gap year
      between two discovered years. */
  lemma UndiscoveredYearFails(t: Table, y: int)
    requires DiscoverYearsAsWritten(Headers(t)).Ok?
    requires y !in DiscoverYearsAsWritten(Headers(t)).value
    ensures PyramidSlice(t, y) == Err(MissingColumn(MaleColumn(y)))
  {
    UndiscoveredYearHasNoColumns(t, y);
  }
}
