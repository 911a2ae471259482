/** The already-parsed wide-format population table: one age-label column
    followed by numeric columns named `<year>_Male` / `<year>_Female`. */
module PopulationTable {
  import opened Results

  datatype Column = Column(name: string, cells: seq<int>)

  /** `labelName` heads the first column, which holds the age-band labels;
      `columns` are the remaining numeric columns in file order. */
  datatype Table = Table(labelName: string, labels: seq<string>, columns: seq<Column>)

  function Names(cols: seq<Column>): (r: seq<string>)
    ensures |r| == |cols|
    ensures forall i :: 0 <= i < |cols| ==> r[i] == cols[i].name
  {
    seq(|cols|, i requires 0 <= i < |cols| => cols[i].name)
  }

  /** `df.columns`: the label column's header first, then the numeric ones. */
  function Headers(t: Table): (r: seq<string>)
    ensures |r| == |t.columns| + 1 && r[0] == t.labelName
    ensures forall i :: 0 <= i < |t.columns| ==> r[i + 1] == t.columns[i].name
  {
    [t.labelName] + Names(t.columns)
  }

  /** Every column of a parsed table is as long as the label column. */
  predicate Rectangular(t: Table) {
    forall i :: 0 <= i < |t.columns| ==> |t.columns[i].cells| == |t.labels|
  }

  predicate HasColumn(t: Table, name: string) {
    name in Names(t.columns)
  }

  /** A numeric column's name is one of `df.columns[1:]`. */
  lemma HeaderPosition(t: Table, name: string) returns (k: nat)
    requires HasColumn(t, name)
    ensures 1 <= k < |Headers(t)| && Headers(t)[k] == name
  {
    var i :| 0 <= i < |t.columns| && Names(t.columns)[i] == name;
    k := i + 1;
  }

  /** Position of the first column called `name` at or after `from`, or
      `|cols|` when there is none. */
  function FindFrom(cols: seq<Column>, name: string, from: nat): (k: nat)
    requires from <= |cols|
    ensures from <= k <= |cols|
    ensures forall j :: from <= j < k ==> cols[j].name != name
    ensures k < |cols| ==> cols[k].name == name
    decreases |cols| - from
  {
    if from == |cols| || cols[from].name == name then from else FindFrom(cols, name, from + 1)
  }

  /** `df[name]` for a numeric column: the column's cells unchanged, or a
      missing-key failure. It never fills in a missing column. */
  function Lookup(t: Table, name: string): (r: Result<seq<int>>)
    ensures r.Ok? <==> HasColumn(t, name)
    ensures r.Err? ==> r.error == MissingColumn(name)
    ensures r.Ok? ==> exists i :: 0 <= i < |t.columns| && t.columns[i].name == name && t.columns[i].cells == r.value
                                  && forall j :: 0 <= j < i ==> t.columns[j].name != name
    ensures r.Ok? && Rectangular(t) ==> |r.value| == |t.labels|
  {
    var k := FindFrom(t.columns, name, 0);
    if k < |t.columns| then Ok(t.columns[k].cells) else Err(MissingColumn(name))
  }

  /** `df['age']`: the age-band labels, present only when the label column is
      called `age`. */
  function AgeLabels(t: Table): (r: Result<seq<string>>)
    ensures r.Ok? <==> t.labelName == "age"
    ensures r.Ok? ==> r.value == t.labels
    ensures r.Err? ==> r.error == MissingColumn("age")
  {
    if t.labelName == "age" then Ok(t.labels) else Err(MissingColumn("age"))
  }
}
