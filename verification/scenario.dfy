/** A worked example: a small table in the file's format, two years and
    three age bands, taken through every step of the pipeline by lemmas. */
module Scenario {
  import opened Results
  import opened Text
  import opened Sequences
  import opened PopulationTable
  import opened YearDiscovery
  import opened Pyramid
  import opened TrendLists
  import opened PopulationTrend

  function ExampleTable(): Table {
    Table("age", ["0-14", "15-64", "65+"],
          [Column("2000_Male", [10, 30, 5]), Column("2000_Female", [9, 31, 8]),
           Column("2010_Male", [8, 28, 9]), Column("2010_Female", [7, 29, 12])])
  }

  /** A canonical four-digit numeral is the `str` of its value, and reads back as it. */
  lemma FourDigitNumeral(s: string, n: int)
    requires |s| == 4 && Canonical(s)
    requires n == 1000 * DigitValue(s[0]) + 100 * DigitValue(s[1]) + 10 * DigitValue(s[2]) + DigitValue(s[3])
    ensures ParseDecimal(s) == Some(n) && ShowInt(n) == s
  {
    FourDigits(s);
    ShowParse(s);
  }

  /** The numerals of the example's years, and of the year between them. */
  lemma ExampleNumerals()
    ensures ShowInt(2000) == "2000" && ShowInt(2010) == "2010" && ShowInt(2005) == "2005"
    ensures ParseDecimal("2000") == Some(2000) && ParseDecimal("2010") == Some(2010)
  {
    FourDigitNumeral("2000", 2000);
    FourDigitNumeral("2010", 2010);
    FourDigitNumeral("2005", 2005);
  }

  /** The example's column names are the ones the pipeline builds for its years. */
  lemma ExampleColumnNames()
    ensures MaleColumn(2000) == "2000_Male" && FemaleColumn(2000) == "2000_Female"
    ensures MaleColumn(2010) == "2010_Male" && FemaleColumn(2010) == "2010_Female"
    ensures MaleColumn(2005) == "2005_Male"
  {
    ExampleNumerals();
  }

  /** The example's header row, as `data.columns` lists it. */
  const ExampleHeaderRow: seq<string> := ["age", "2000_Male", "2000_Female", "2010_Male", "2010_Female"]

  lemma ExampleHeaders()
    ensures Headers(ExampleTable()) == ExampleHeaderRow
  {
    var cols := ExampleTable().columns;
    var names := Names(cols);
    assert names[0] == "2000_Male" && names[1] == "2000_Female";
    assert names[2] == "2010_Male" && names[3] == "2010_Female";
    assert names == ExampleHeaderRow[1..];
  }

  /** Every data header of the example names 2000 or 2010. */
  lemma ExampleHeaderYears()
    ensures ParseDecimal(Prefix("2000_Male")) == Some(2000)
    ensures ParseDecimal(Prefix("2000_Female")) == Some(2000)
    ensures ParseDecimal(Prefix("2010_Male")) == Some(2010)
    ensures ParseDecimal(Prefix("2010_Female")) == Some(2010)
  {
    ExampleNumerals();
    PrefixOfTagged("2000", "Male");
    PrefixOfTagged("2000", "Female");
    PrefixOfTagged("2010", "Male");
    PrefixOfTagged("2010", "Female");
    assert "2000_Male" == "2000" + "_" + "Male" && "2000_Female" == "2000" + "_" + "Female";
    assert "2010_Male" == "2010" + "_" + "Male" && "2010_Female" == "2010" + "_" + "Female";
  }

  /** Headers naming exactly two years, `a < b`, are discovered as `[a, b]`. */
  lemma TwoYears(h: seq<string>, a: int, b: int)
    requires a < b
    requires forall i :: 1 <= i < |h| ==> ParseDecimal(Prefix(h[i])) == Some(a) || ParseDecimal(Prefix(h[i])) == Some(b)
    requires DataYear(h, a) && DataYear(h, b)
    ensures DiscoverYears(h) == Ok([a, b])
  {
    var r := DiscoverYears(h);
    assert r.Ok?;
    StrictPair(r.value, a, b);
  }

  /** Each data header of the example names 2000 or 2010. */
  lemma DataHeaderYear(s: string)
    requires s == "2000_Male" || s == "2000_Female" || s == "2010_Male" || s == "2010_Female"
    ensures ParseDecimal(Prefix(s)) == Some(2000) || ParseDecimal(Prefix(s)) == Some(2010)
  {
    ExampleHeaderYears();
  }

  /** Every data header of the example names one of its two years. */
  lemma ExampleHeadersNameTwoYears()
    ensures forall i :: 1 <= i < |Headers(ExampleTable())| ==>
              ParseDecimal(Prefix(Headers(ExampleTable())[i])) == Some(2000)
              || ParseDecimal(Prefix(Headers(ExampleTable())[i])) == Some(2010)
  {
    var h := ExampleHeaderRow;
    ExampleHeaders();
    forall i | 1 <= i < |h|
      ensures ParseDecimal(Prefix(h[i])) == Some(2000) || ParseDecimal(Prefix(h[i])) == Some(2010)
    {
      DataHeaderYear(h[i]);
    }
  }

  /** Both years of the example are named by some header. */
  lemma ExampleHeadersNameBothYears()
    ensures DataYear(Headers(ExampleTable()), 2000) && DataYear(Headers(ExampleTable()), 2010)
  {
    var h := ExampleHeaderRow;
    ExampleHeaders();
    ExampleHeaderYears();
    assert NamesYear(h, 1, 2000) && NamesYear(h, 3, 2010);
  }

  /** Discovery finds the two years, once each, in order. */
  lemma ExampleYears()
    ensures DiscoverYears(Headers(ExampleTable())) == Ok([2000, 2010])
  {
    ExampleHeadersNameTwoYears();
    ExampleHeadersNameBothYears();
    TwoYears(Headers(ExampleTable()), 2000, 2010);
  }

  /** A header tagged onto a canonical numeral has that numeral as prefix. */
  lemma TaggedCanonical(p: string, tag: string)
    requires Canonical(p) && '_' !in p
    ensures Canonical(Prefix(p + "_" + tag))
  {
    PrefixOfTagged(p, tag);
  }

  /** Each data header of the example has a canonical year prefix. */
  lemma DataHeaderCanonical(s: string)
    requires s == "2000_Male" || s == "2000_Female" || s == "2010_Male" || s == "2010_Female"
    ensures Canonical(Prefix(s))
  {
    assert Canonical("2000") && Canonical("2010");
    if s == "2000_Male" {
      assert s == "2000" + "_" + "Male";
      TaggedCanonical("2000", "Male");
    } else if s == "2000_Female" {
      assert s == "2000" + "_" + "Female";
      TaggedCanonical("2000", "Female");
    } else if s == "2010_Male" {
      assert s == "2010" + "_" + "Male";
      TaggedCanonical("2010", "Male");
    } else {
      assert s == "2010" + "_" + "Female";
      TaggedCanonical("2010", "Female");
    }
  }

  /** The year prefixes of the example's header row are canonical numerals. */
  lemma HeaderRowCanonical()
    ensures CanonicalPrefixes(ExampleHeaderRow)
  {
    var h := ExampleHeaderRow;
    forall i | 1 <= i < |h|
      ensures Canonical(Prefix(h[i]))
    {
      DataHeaderCanonical(h[i]);
    }
  }

  /** The example's year prefixes are all canonical numerals. */
  lemma ExampleCanonicalPrefixes()
    ensures CanonicalPrefixes(Headers(ExampleTable()))
  {
    ExampleHeaders();
    HeaderRowCanonical();
  }

  /** The year list the script computes for the example, before the
      correction, is `[2000, 2010]` too. */
  lemma ExampleYearsAsWritten()
    ensures DiscoverYearsAsWritten(Headers(ExampleTable())) == Ok([2000, 2010])
  {
    ExampleYears();
    ExampleCanonicalPrefixes();
    AsWrittenAgreesOnCanonical(Headers(ExampleTable()));
  }

  /** The pyramid of 2000 is that year's two columns next to the age bands. */
  lemma ExamplePyramid()
    ensures PyramidSlice(ExampleTable(), 2000) == Ok(Slice(["0-14", "15-64", "65+"], [10, 30, 5], [9, 31, 8]))
  {
    ExampleColumnNames();
    ExampleLookups();
  }

  /** Each of the example's columns is found by its name. */
  lemma ExampleLookups()
    ensures Lookup(ExampleTable(), "2000_Male") == Ok([10, 30, 5])
    ensures Lookup(ExampleTable(), "2000_Female") == Ok([9, 31, 8])
    ensures Lookup(ExampleTable(), "2010_Male") == Ok([8, 28, 9])
    ensures Lookup(ExampleTable(), "2010_Female") == Ok([7, 29, 12])
  {
    var cols := ExampleTable().columns;
    assert FindFrom(cols, "2000_Male", 0) == 0;
    assert FindFrom(cols, "2000_Female", 1) == 1;
    assert FindFrom(cols, "2000_Female", 0) == 1;
    assert FindFrom(cols, "2010_Male", 2) == 2;
    assert FindFrom(cols, "2010_Male", 1) == 2;
    assert FindFrom(cols, "2010_Male", 0) == 2;
    assert FindFrom(cols, "2010_Female", 3) == 3;
    assert FindFrom(cols, "2010_Female", 2) == 3;
    assert FindFrom(cols, "2010_Female", 1) == 3;
    assert FindFrom(cols, "2010_Female", 0) == 3;
  }

  /** The column totals of the example. */
  lemma ExampleSums()
    ensures Sum([10, 30, 5]) == 45 && Sum([9, 31, 8]) == 48
    ensures Sum([8, 28, 9]) == 45 && Sum([7, 29, 12]) == 48
  {
    SumAppend([10], [30, 5]);
    SumAppend([9], [31, 8]);
    SumAppend([8], [28, 9]);
    SumAppend([7], [29, 12]);
    SumAppend([30], [5]);
    SumAppend([31], [8]);
    SumAppend([28], [9]);
    SumAppend([29], [12]);
  }

  /** The year 2000 has a male sum of 45 and a female sum of 48. */
  lemma ExamplePoint2000()
    ensures YearPoint(ExampleTable(), 2000) == Ok((45, 48))
  {
    ExampleColumnNames();
    ExampleLookups();
    ExampleSums();
  }

  /** So does the year 2010. */
  lemma ExamplePoint2010()
    ensures YearPoint(ExampleTable(), 2010) == Ok((45, 48))
  {
    ExampleColumnNames();
    ExampleLookups();
    ExampleSums();
  }

  /** Both example years have a male sum of 45 and a female sum of 48. */
  lemma ExamplePoints()
    ensures Points(ExampleTable(), [2000, 2010]) == [Ok((45, 48)), Ok((45, 48))]
  {
    PointsOfTwo(ExampleTable(), 2000, 2010);
    ExamplePoint2000();
    ExamplePoint2010();
  }

  /** The points of a two-year list are the two years' points. */
  lemma PointsOfTwo(t: Table, a: int, b: int)
    ensures Points(t, [a, b]) == [YearPoint(t, a), YearPoint(t, b)]
  {
    var p := Points(t, [a, b]);
    assert |p| == 2 && p[0] == YearPoint(t, a) && p[1] == YearPoint(t, b);
  }

  /** Folding the example's first point. */
  lemma ExampleFoldFirst()
    ensures FoldPrefix([2000, 2010], [Ok((45, 48)), Ok((45, 48))], 1) == Ok(Trend([2000], [93], [45], [48]))
  {
    FoldStep([2000, 2010], [Ok((45, 48)), Ok((45, 48))], 0, Trend([], [], [], []));
    assert [] + [2000] == [2000] && [] + [93] == [93] && [] + [45] == [45] && [] + [48] == [48];
  }

  /** Folding the example's two points. */
  lemma ExampleFold()
    ensures Fold([2000, 2010], [Ok((45, 48)), Ok((45, 48))]) == Ok(Trend([2000, 2010], [93, 93], [45, 45], [48, 48]))
  {
    ExampleFoldFirst();
    FoldStep([2000, 2010], [Ok((45, 48)), Ok((45, 48))], 1, Trend([2000], [93], [45], [48]));
    assert [2000] + [2010] == [2000, 2010];
    assert [93] + [93] == [93, 93] && [45] + [45] == [45, 45] && [48] + [48] == [48, 48];
  }

  /** The trend over both years: male 45 and female 48 in each, total 93. */
  lemma ExampleTrend()
    ensures TrendOf(ExampleTable(), [2000, 2010]) == Ok(Trend([2000, 2010], [93, 93], [45, 45], [48, 48]))
  {
    ExamplePoints();
    ExampleFold();
  }

  /** The slider offers 2005, a year between the two discovered ones. */
  lemma ExampleSliderOffersGap()
    ensures SliderAllows([2000, 2010], 2005)
  {
    assert SliderBounds([2000, 2010]) == Ok((2000, 2010));
  }

  /** The slider offers 2005, a year between the two discovered ones, and its
      pyramid fails on the missing male column. */
  lemma ExampleGapYear()
    ensures SliderAllows([2000, 2010], 2005)
    ensures PyramidSlice(ExampleTable(), 2005) == Err(MissingColumn("2005_Male"))
  {
    ExampleSliderOffersGap();
    ExampleYearsAsWritten();
    ExampleColumnNames();
    UndiscoveredYearFails(ExampleTable(), 2005);
  }
}
