/** Year discovery from the table's headers, and the bounds of the year
    slider built from it. */
module YearDiscovery {
  import opened Results
  import opened Text
  import opened Sequences

  /** `df.columns[1:]`: every header except the label column's. */
  function DataHeaders(header: seq<string>): (r: seq<string>)
    ensures |r| == if |header| == 0 then 0 else |header| - 1
    ensures forall i :: 0 <= i < |r| ==> r[i] == header[i + 1]
  {
    if |header| == 0 then [] else header[1..]
  }

  /** The year prefix of every header in a list, in order. */
  function Prefixes(hs: seq<string>): (r: seq<string>)
    ensures |r| == |hs|
    ensures forall i :: 0 <= i < |r| ==> r[i] == Prefix(hs[i])
  {
    seq(|hs|, i requires 0 <= i < |hs| => Prefix(hs[i]))
  }

  /** `.astype(int)`: every string converted, or a failure naming the first
      string that is not a decimal numeral. */
  function ParseAll(ss: seq<string>): (r: Result<seq<int>>)
    ensures r.Ok? <==> forall i :: 0 <= i < |ss| ==> ParseDecimal(ss[i]).Some?
    ensures r.Ok? ==> |r.value| == |ss|
    ensures r.Ok? ==> forall i :: 0 <= i < |ss| ==> ParseDecimal(ss[i]) == Some(r.value[i])
    ensures r.Err? ==> exists i :: 0 <= i < |ss| && ParseDecimal(ss[i]).None? && r.error == NotAnInteger(ss[i])
  {
    if |ss| == 0 then Ok([])
    else match ParseDecimal(ss[0])
      case None => Err(NotAnInteger(ss[0]))
      case Some(v) =>
        var rest := ParseAll(ss[1..]);
        if rest.Err? then
          Err(rest.error)
        else
          assert forall i :: 1 <= i < |ss| ==> ss[i] == ss[1..][i - 1];
          Ok([v] + rest.value)
  }

  /** Header `i` (a data column, so `i >= 1`) names year `y`. */
  predicate NamesYear(header: seq<string>, i: int, y: int) {
    1 <= i < |header| && ParseDecimal(Prefix(header[i])) == Some(y)
  }

  /** Some data header names year `y`. */
  predicate DataYear(header: seq<string>, y: int) {
    exists i :: 1 <= i < |header| && NamesYear(header, i, y)
  }

  /** `e` is the failure `astype(int)` reports for some data header whose
      prefix is not a decimal numeral. */
  predicate BadPrefixError(header: seq<string>, e: Error) {
    exists i :: 1 <= i < |header| && e == NotAnInteger(Prefix(header[i])) && ParseDecimal(Prefix(header[i])).None?
  }

  /** Every data header's prefix is a decimal numeral. */
  predicate AllPrefixesParse(header: seq<string>) {
    forall i :: 1 <= i < |header| ==> ParseDecimal(Prefix(header[i])).Some?
  }

  predicate AllParse(ss: seq<string>) {
    forall k :: 0 <= k < |ss| ==> ParseDecimal(ss[k]).Some?
  }

  predicate ParsesTo(ss: seq<string>, y: int) {
    exists k :: 0 <= k < |ss| && ParseDecimal(ss[k]) == Some(y)
  }

  /** The data prefixes are exactly the prefixes of headers 1 onwards. */
  lemma DataPrefixes(header: seq<string>)
    ensures forall s :: s in Prefixes(DataHeaders(header)) <==> exists i :: 1 <= i < |header| && s == Prefix(header[i])
    ensures AllParse(Prefixes(DataHeaders(header))) <==> AllPrefixesParse(header)
    ensures forall y :: ParsesTo(Prefixes(DataHeaders(header)), y) <==> DataYear(header, y)
    ensures forall s :: s in Prefixes(DataHeaders(header)) && ParseDecimal(s).None? ==> BadPrefixError(header, NotAnInteger(s))
  {
    var ps := Prefixes(DataHeaders(header));
    assert forall i :: 1 <= i < |header| ==> ps[i - 1] == Prefix(header[i]);
    forall y
      ensures ParsesTo(ps, y) <==> DataYear(header, y)
    {
      if ParsesTo(ps, y) {
        var k :| 0 <= k < |ps| && ParseDecimal(ps[k]) == Some(y);
        assert NamesYear(header, k + 1, y);
      }
      if exists i :: NamesYear(header, i, y) {
        var i :| NamesYear(header, i, y);
        assert ParseDecimal(ps[i - 1]) == Some(y);
      }
    }
  }

  /** Converted values are exactly the years the strings spell. */
  lemma ParseAllValues(ss: seq<string>)
    requires ParseAll(ss).Ok?
    ensures forall y :: y in ParseAll(ss).value <==> ParsesTo(ss, y)
  {
  }

  /** Deduplicating strings neither adds nor removes a spelled year. */
  lemma UniqueParses(ss: seq<string>)
    ensures AllParse(Unique(ss)) <==> AllParse(ss)
    ensures forall y :: ParsesTo(Unique(ss), y) <==> ParsesTo(ss, y)
  {
    var u := Unique(ss);
    forall y
      ensures ParsesTo(u, y) <==> ParsesTo(ss, y)
    {
      if ParsesTo(ss, y) {
        var k :| 0 <= k < |ss| && ParseDecimal(ss[k]) == Some(y);
        assert ss[k] in u;
        var j :| 0 <= j < |u| && u[j] == ss[k];
      }
      if ParsesTo(u, y) {
        var k :| 0 <= k < |u| && ParseDecimal(u[k]) == Some(y);
        assert u[k] in ss;
        var j :| 0 <= j < |ss| && ss[j] == u[k];
      }
    }
    if AllParse(ss) {
      forall k | 0 <= k < |u|
        ensures ParseDecimal(u[k]).Some?
      {
        assert u[k] in ss;
        var j :| 0 <= j < |ss| && ss[j] == u[k];
      }
    }
    if AllParse(u) {
      forall k | 0 <= k < |ss|
        ensures ParseDecimal(ss[k]).Some?
      {
        assert ss[k] in u;
        var j :| 0 <= j < |u| && u[j] == ss[k];
      }
    }
  }

  /** The strings of `u` that spell `y`. */
  function SpellingsIn(u: seq<string>, y: int): set<string> {
    set s | s in u && ParseDecimal(s) == Some(y)
  }

  /** The distinct prefix spellings among the data headers that convert to `y`. */
  function Spellings(header: seq<string>, y: int): set<string> {
    SpellingsIn(Prefixes(DataHeaders(header)), y)
  }

  /** Taking off the first string of `u`, when it does not recur, removes it
      and only it from the spellings. */
  lemma SpellingsUncons(u: seq<string>, y: int)
    requires |u| > 0 && u[0] !in u[1..]
    ensures |SpellingsIn(u, y)| == |SpellingsIn(u[1..], y)| + (if ParseDecimal(u[0]) == Some(y) then 1 else 0)
  {
    assert u == [u[0]] + u[1..];
    if ParseDecimal(u[0]) == Some(y) {
      assert SpellingsIn(u, y) == SpellingsIn(u[1..], y) + {u[0]};
    } else {
      assert SpellingsIn(u, y) == SpellingsIn(u[1..], y);
    }
  }

  /** Converting a non-empty list converts its first string, then the rest. */
  lemma ParseAllUncons(u: seq<string>)
    requires |u| > 0 && ParseAll(u).Ok?
    ensures ParseAll(u[1..]).Ok?
    ensures ParseAll(u).value == [ParseDecimal(u[0]).value] + ParseAll(u[1..]).value
  {
  }

  /** Converting strings without repetitions yields each value once per
      string that spells it. */
  lemma {:induction false} ParseCounts(u: seq<string>, y: int)
    requires Distinct(u)
    requires ParseAll(u).Ok?
    ensures multiset(ParseAll(u).value)[y] == |SpellingsIn(u, y)|
    decreases |u|
  {
    if |u| == 0 {
      assert SpellingsIn(u, y) == {};
    } else {
      var rest := u[1..];
      assert forall i :: 0 <= i < |rest| ==> rest[i] == u[i + 1];
      assert Distinct(rest);
      ParseAllUncons(u);
      ParseCounts(rest, y);
      assert u[0] !in rest;
      SpellingsUncons(u, y);
    }
  }

  /** The script's `.unique().astype(int)` converts the deduplicated prefix
      strings: one value per distinct spelling of each year. */
  lemma AsWrittenCounts(header: seq<string>)
    requires ParseAll(Unique(Prefixes(DataHeaders(header)))).Ok?
    ensures forall y :: multiset(ParseAll(Unique(Prefixes(DataHeaders(header)))).value)[y] == |Spellings(header, y)|
  {
    var ps := Prefixes(DataHeaders(header));
    var u := Unique(ps);
    forall y
      ensures multiset(ParseAll(u).value)[y] == |Spellings(header, y)|
    {
      ParseCounts(u, y);
      assert SpellingsIn(u, y) == Spellings(header, y);
    }
  }

  /** The year list exactly as the script's
      `sorted(col_series.str.split('_').str[0].unique().astype(int))` computes
      it: the prefix STRINGS are deduplicated, then converted, then sorted. Two spellings of
      one year ("2000", "02000") survive the string deduplication and both
      become 2000, so the result may repeat a year. */
  function DiscoverYearsAsWritten(header: seq<string>): (r: Result<seq<int>>)
    ensures r.Ok? <==> AllPrefixesParse(header)
    ensures r.Err? ==> BadPrefixError(header, r.error)
    ensures r.Ok? ==> Ascending(r.value)
    ensures r.Ok? ==> forall y :: y in r.value <==> DataYear(header, y)
    ensures r.Ok? ==> forall y :: multiset(r.value)[y] == |Spellings(header, y)|
  {
    var ps := Prefixes(DataHeaders(header));
    var u := Unique(ps);
    DataPrefixes(header);
    UniqueParses(ps);
    var ints := ParseAll(u);
    if ints.Err? then
      Err(ints.error)
    else
      ParseAllValues(u);
      AsWrittenCounts(header);
      var r := Sort(ints.value);
      assert forall y :: y in r <==> y in multiset(r);
      Ok(r)
  }

  /** The year list as the script evidently intends it: every prefix converted
      first, then the integers deduplicated and sorted, so each year appears
      once, in ascending order. */
  function DiscoverYears(header: seq<string>): (r: Result<seq<int>>)
    ensures r.Ok? <==> AllPrefixesParse(header)
    ensures r.Err? ==> BadPrefixError(header, r.error)
    ensures r.Ok? ==> StrictlyAscending(r.value)
    ensures r.Ok? ==> forall y :: y in r.value <==> DataYear(header, y)
  {
    var ps := Prefixes(DataHeaders(header));
    DataPrefixes(header);
    var ints := ParseAll(ps);
    if ints.Err? then
      Err(ints.error)
    else
      ParseAllValues(ps);
      var u := Unique(ints.value);
      SortDistinctIsStrict(u);
      var r := Sort(u);
      assert forall y :: y in r <==> y in multiset(r);
      Ok(r)
  }

  /** Smallest element of a non-empty sequence (`min`). */
  function Min(s: seq<int>): (m: int)
    requires |s| > 0
    ensures m in s
    ensures forall k :: 0 <= k < |s| ==> m <= s[k]
  {
    if |s| == 1 then s[0]
    else
      var m := Min(s[1..]);
      assert forall k :: 1 <= k < |s| ==> s[k] == s[1..][k - 1];
      if s[0] <= m then s[0] else m
  }

  /** Largest element of a non-empty sequence (`max`). */
  function Max(s: seq<int>): (m: int)
    requires |s| > 0
    ensures m in s
    ensures forall k :: 0 <= k < |s| ==> s[k] <= m
  {
    if |s| == 1 then s[0]
    else
      var m := Max(s[1..]);
      assert forall k :: 1 <= k < |s| ==> s[k] == s[1..][k - 1];
      if s[0] >= m then s[0] else m
  }

  /** The slider's `min_value` and `max_value`; building it from an empty
      year list fails. */
  function SliderBounds(years: seq<int>): (r: Result<(int, int)>)
    ensures r.Ok? <==> |years| > 0
    ensures r.Err? ==> r.error == NoYears
    ensures r.Ok? ==> r.value.0 in years && r.value.1 in years
    ensures r.Ok? ==> forall k :: 0 <= k < |years| ==> r.value.0 <= years[k] <= r.value.1
  {
    if |years| == 0 then Err(NoYears) else Ok((Min(years), Max(years)))
  }

  /** A year the slider lets the user pick: any integer between the bounds,
      in steps of one, whether or not the table has columns for it. */
  predicate SliderAllows(years: seq<int>, y: int) {
    SliderBounds(years).Ok? && SliderBounds(years).value.0 <= y <= SliderBounds(years).value.1
  }

  /** On an ascending year list the slider runs from the first year to the
      last, and every listed year is selectable. */
  lemma SliderSpansYears(years: seq<int>)
    requires |years| > 0 && Ascending(years)
    ensures SliderBounds(years) == Ok((years[0], years[|years| - 1]))
    ensures forall k :: 0 <= k < |years| ==> SliderAllows(years, years[k])
  {
    var b := SliderBounds(years).value;
    assert b.0 <= years[0] && b.1 >= years[|years| - 1];
  }

  /** Every data header's prefix is a canonical numeral, as `str(year)` writes it. */
  predicate CanonicalPrefixes(header: seq<string>) {
    forall i :: 1 <= i < |header| ==> Canonical(Prefix(header[i]))
  }

  /** Distinct canonical numerals convert to distinct values. */
  lemma CanonicalParsesDistinct(ss: seq<string>)
    requires forall k :: 0 <= k < |ss| ==> Canonical(ss[k])
    requires Distinct(ss)
    requires ParseAll(ss).Ok?
    ensures Distinct(ParseAll(ss).value)
  {
    var v := ParseAll(ss).value;
    forall i, j | 0 <= i < j < |v|
      ensures v[i] != v[j]
    {
      ShowParse(ss[i]);
      ShowParse(ss[j]);
    }
  }

  /** With canonical prefixes only, deduplicating the strings before the
      conversion is harmless: the script's year list and the corrected one
      coincide. The two differ only on headers that spell a year in more
      than one way. */
  lemma AsWrittenAgreesOnCanonical(header: seq<string>)
    requires CanonicalPrefixes(header)
    ensures DiscoverYears(header).Ok?
    ensures DiscoverYearsAsWritten(header) == DiscoverYears(header)
  {
    var ps := Prefixes(DataHeaders(header));
    DataPrefixes(header);
    var u := Unique(ps);
    forall k | 0 <= k < |u|
      ensures Canonical(u[k])
    {
      assert u[k] in ps;
    }
    assert AllPrefixesParse(header);
    AsWrittenSteps(header);
    var ints := ParseAll(u);
    assert ints.Ok?;
    CanonicalParsesDistinct(u);
    SortDistinctIsStrict(ints.value);
    StrictSameMembers(DiscoverYearsAsWritten(header).value, DiscoverYears(header).value);
  }

  /** "2000" and "02000" both convert to 2000. */
  lemma SpellingsOf2000()
    ensures ParseDecimal("2000") == Some(2000)
    ensures ParseDecimal("02000") == Some(2000)
  {
    DigitsAppend("", '2');
    assert "" + ['2'] == "2";
    DigitsAppend("2", '0');
    assert "2" + ['0'] == "20";
    DigitsAppend("20", '0');
    assert "20" + ['0'] == "200";
    DigitsAppend("200", '0');
    assert "200" + ['0'] == "2000";
    DigitsAppend("", '0');
    assert "" + ['0'] == "0";
    DigitsAppend("0", '2');
    assert "0" + ['2'] == "02";
    DigitsAppend("02", '0');
    assert "02" + ['0'] == "020";
    DigitsAppend("020", '0');
    assert "020" + ['0'] == "0200";
    DigitsAppend("0200", '0');
    assert "0200" + ['0'] == "02000";
  }

  /** The year prefixes of the two-spelling header row, and what they convert to. */
  lemma TwoSpellingsPrefixes()
    ensures Prefixes(DataHeaders(["age", "2000_Male", "02000_Female"])) == ["2000", "02000"]
    ensures ParseAll(["2000", "02000"]) == Ok([2000, 2000])
  {
    var header := ["age", "2000_Male", "02000_Female"];
    assert header[1] == "2000" + "_" + "Male";
    assert header[2] == "02000" + "_" + "Female";
    PrefixOfTagged("2000", "Male");
    PrefixOfTagged("02000", "Female");
    SpellingsOf2000();
    var ss := ["2000", "02000"];
    assert ParseDecimal(ss[0]) == Some(2000) && ParseDecimal(ss[1]) == Some(2000);
    var ints := ParseAll(ss);
    assert ints.Ok?;
    assert ints.value == [2000, 2000];
  }

  /** The as-written discovery, step by step: deduplicate the prefixes,
      convert, sort. */
  lemma AsWrittenSteps(header: seq<string>)
    ensures ParseAll(Unique(Prefixes(DataHeaders(header)))).Ok? ==>
              DiscoverYearsAsWritten(header) == Ok(Sort(ParseAll(Unique(Prefixes(DataHeaders(header)))).value))
  {
  }

  /** The corrected discovery, step by step: convert, deduplicate, sort. */
  lemma CorrectedSteps(header: seq<string>)
    ensures ParseAll(Prefixes(DataHeaders(header))).Ok? ==>
              DiscoverYears(header) == Ok(Sort(Unique(ParseAll(Prefixes(DataHeaders(header))).value)))
  {
  }

  /** Deduplicating and sorting the two spellings and their values. */
  lemma TwoSpellingsLists()
    ensures Unique(["2000", "02000"]) == ["2000", "02000"]
    ensures Sort([2000, 2000]) == [2000, 2000]
    ensures Unique([2000, 2000]) == [2000]
    ensures Sort([2000]) == [2000]
  {
  }

  /** Headers spelling one year two ways ("2000" and "02000") make the year
      list as written repeat that year, so it is not strictly ascending; the
      corrected discovery lists it once. */
  lemma AsWrittenRepeatsYear()
    ensures DiscoverYearsAsWritten(["age", "2000_Male", "02000_Female"]) == Ok([2000, 2000])
    ensures !StrictlyAscending(DiscoverYearsAsWritten(["age", "2000_Male", "02000_Female"]).value)
    ensures DiscoverYears(["age", "2000_Male", "02000_Female"]) == Ok([2000])
  {
    var header := ["age", "2000_Male", "02000_Female"];
    TwoSpellingsPrefixes();
    TwoSpellingsLists();
    AsWrittenSteps(header);
    CorrectedSteps(header);
    var w := DiscoverYearsAsWritten(header).value;
    assert w[0] == w[1];
  }
}
