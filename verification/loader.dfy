/** `DATASETS`, `load_clean_dataset` and the middle of `main` (Cleaning.py):
    choose a file, read it, standardise it, convert it, tag every row with the
    dataset's name, and merge the tagged frames. */
module Loader {
  import opened Results
  import opened Tables
  import opened CsvChoice
  import opened Standardize
  import opened Convert
  import opened Merge
  import opened Coerce

  /** One entry of `DATASETS`: the Kaggle reference and the preferred file names. */
  datatype DatasetInfo = DatasetInfo(ref: string, preferred: seq<string>)

  /** `DATASETS`, in the dictionary's order. */
  const Datasets: seq<(string, DatasetInfo)> := [
    ("plant_health", DatasetInfo("ziya07/plant-health-data",
      ["Plant Health Data.csv", "Plant Health Dataset.csv", "Plant_Health_data.csv"])),
    ("plant_growth", DatasetInfo("gorororororo23/plant-growth-data-classification",
      ["Plant Growth Data.csv", "Plant_growth_data.csv", "dataset.csv"])),
    ("auto_irrigation", DatasetInfo("harshilpatel355/autoirrigationdata",
      ["AutoIrrigationData.csv", "auto_irrigation_data.csv"])),
    ("crop_water_requirement", DatasetInfo("prateekkkumar/crop-water-requirement",
      ["Crop Water Requirement.csv", "crop_water_requirement.csv"])),
    ("watering_prediction", DatasetInfo("nelakurthisudheer/dataset-for-predicting-watering-the-plants",
      ["PlantWateringDataset.csv", "watering_data.csv", "watering.csv"]))
  ]

  const SourceColumn: string := "source_dataset"

  /** `df["source_dataset"] = name`: every column of that label is overwritten,
      or a new last column is added when there is none. */
  function TagSource(t: Table, name: string): (u: Table)
    requires WellFormed(t)
    ensures WellFormed(u) && |u.rows| == |t.rows|
    ensures SourceColumn in u.columns
    ensures u.columns == if SourceColumn in t.columns then t.columns else t.columns + [SourceColumn]
    ensures forall i, c :: 0 <= i < |u.rows| && 0 <= c < |u.columns| ==>
      u.rows[i][c] == if u.columns[c] == SourceColumn then Text(name) else t.rows[i][c]
  {
    if SourceColumn in t.columns then
      Table(t.columns, seq(|t.rows|, i requires 0 <= i < |t.rows| =>
        seq(|t.columns|, c requires 0 <= c < |t.columns| =>
          if t.columns[c] == SourceColumn then Text(name) else t.rows[i][c])))
    else
      Table(t.columns + [SourceColumn], seq(|t.rows|, i requires 0 <= i < |t.rows| => t.rows[i] + [Text(name)]))
  }

  /** Tagging keeps labels distinct, gives every row the dataset's name under
      the source label, and leaves every other column as it was. */
  lemma TagSourceRows(t: Table, name: string)
    requires Valid(t)
    ensures var u := TagSource(t, name);
      && Valid(u)
      && (forall i :: 0 <= i < |u.rows| ==> Get(u, u.rows[i], SourceColumn) == Text(name))
      && (forall i, c :: 0 <= i < |t.rows| && c in t.columns && c != SourceColumn ==>
            c in u.columns && Get(u, u.rows[i], c) == Get(t, t.rows[i], c))
  {
    var u := TagSource(t, name);
    if SourceColumn !in t.columns {
      forall c | c in t.columns
        ensures IndexOf(u.columns, c) == IndexOf(t.columns, c)
      {
        IndexOfAppend(t.columns, [SourceColumn], c);
      }
    }
  }

  /** `load_clean_dataset(name, base_path, info)`. `paths` is what
      `base_path.rglob("*.csv")` enumerates and `read` stands for `pd.read_csv`. */
  function LoadCleanDataset(name: string, paths: seq<string>, preferred: seq<string>,
                            read: string -> Result<Table>): (r: Result<Table>)
    requires forall p :: read(p).Ok? ==> WellFormed(read(p).value)
    ensures |paths| == 0 ==> r == Err(NotFound)
    ensures r.Ok? ==> Valid(r.value) && SourceColumn in r.value.columns
    ensures r.Ok? ==> forall i :: 0 <= i < |r.value.rows| ==> Get(r.value, r.value.rows[i], SourceColumn) == Text(name)
  {
    var path :- ChooseCsv(paths, preferred);
    var raw :- read(path);
    var clean :- StandardizeColumns(raw);
    var typed :- ConvertTypes(clean);
    TagSourceRows(typed, name);
    Ok(TagSource(typed, name))
  }

  /** Loading succeeds exactly when a file exists, reads, and its labels stay
      distinct once normalised; labels that collide always fail, whether in
      the strip loop or in the dtype loop. */
  lemma LoadSucceeds(name: string, paths: seq<string>, preferred: seq<string>, read: string -> Result<Table>)
    requires forall p :: read(p).Ok? ==> WellFormed(read(p).value)
    ensures LoadCleanDataset(name, paths, preferred, read).Ok? <==>
      && ChooseCsv(paths, preferred).Ok?
      && read(ChooseCsv(paths, preferred).value).Ok?
      && Distinct(NormalizeNames(read(ChooseCsv(paths, preferred).value).value.columns))
  {
    var c := ChooseCsv(paths, preferred);
    if c.Ok? && read(c.value).Ok? {
      var raw := read(c.value).value;
      if TextualClash(raw) {
        var i, j :| 0 <= i < j < |raw.columns| && ClashAt(raw, i, j);
        assert NormalizeNames(raw.columns)[i] == NormalizeNames(raw.columns)[j];
      }
    }
  }

  /** One registry entry `name: info` through `load_clean_dataset`. */
  function LoadEntry(e: (string, DatasetInfo), listing: string -> seq<string>,
                     read: string -> Result<Table>): (r: Result<Table>)
    requires forall p :: read(p).Ok? ==> WellFormed(read(p).value)
    ensures r.Ok? ==> TaggedFrame(r.value, e.0)
  {
    LoadCleanDataset(e.0, listing(e.0), e.1.preferred, read)
  }

  /** Named results gathered in order, stopping at the first failure: the
      way the dictionary comprehension of `main` propagates the first
      exception `load_clean_dataset` raises. */
  function Collect<T>(loads: seq<(string, Result<T>)>): (r: Result<seq<(string, T)>>)
    ensures r.Ok? <==> forall k :: 0 <= k < |loads| ==> loads[k].1.Ok?
    ensures r.Ok? ==> |r.value| == |loads|
    ensures r.Ok? ==> forall k :: 0 <= k < |loads| ==> r.value[k] == (loads[k].0, loads[k].1.value)
    ensures r.Err? ==> exists k :: FirstErr(loads, k) && r.error == loads[k].1.error
  {
    if |loads| == 0 then Ok([])
    else if loads[0].1.Err? then
      assert FirstErr(loads, 0);
      Err(loads[0].1.error)
    else
      var rest := Collect(loads[1..]);
      if rest.Err? then
        var k :| FirstErr(loads[1..], k) && rest.error == loads[1..][k].1.error;
        assert FirstErr(loads, k + 1) by {
          forall j | 0 <= j < k + 1
            ensures loads[j].1.Ok?
          {
            if j > 0 {
              assert loads[j] == loads[1..][j - 1];
            }
          }
        }
        Err(rest.error)
      else
        var r := [(loads[0].0, loads[0].1.value)] + rest.value;
        assert forall k :: 0 < k < |loads| ==> r[k] == rest.value[k - 1] && loads[k] == loads[1..][k - 1];
        Ok(r)
  }

  /** Entry `k` is the first failure among `loads`. */
  predicate FirstErr<T>(loads: seq<(string, Result<T>)>, k: int) {
    && 0 <= k < |loads|
    && loads[k].1.Err?
    && forall j :: 0 <= j < k ==> loads[j].1.Ok?
  }

  /** Every registry entry with its load result, in registry order. */
  function Loads(entries: seq<(string, DatasetInfo)>, listing: string -> seq<string>,
                 read: string -> Result<Table>): (loads: seq<(string, Result<Table>)>)
    requires forall p :: read(p).Ok? ==> WellFormed(read(p).value)
    ensures |loads| == |entries|
    ensures forall k :: 0 <= k < |entries| ==> loads[k] == (entries[k].0, LoadEntry(entries[k], listing, read))
  {
    seq(|entries|, k requires 0 <= k < |entries| => (entries[k].0, LoadEntry(entries[k], listing, read)))
  }

  /** The dictionary comprehension of `main`: every registered dataset
      loaded in order, stopping at the first failure. It succeeds exactly
      when every entry loads, and then holds each entry's own frame under its
      name; otherwise it fails with the error of the first entry that fails. */
  function LoadAll(entries: seq<(string, DatasetInfo)>, listing: string -> seq<string>,
                   read: string -> Result<Table>): (r: Result<seq<(string, Table)>>)
    requires forall p :: read(p).Ok? ==> WellFormed(read(p).value)
    ensures r.Ok? <==> forall k :: 0 <= k < |entries| ==> LoadEntry(entries[k], listing, read).Ok?
    ensures r.Ok? ==> |r.value| == |entries|
    ensures r.Ok? ==> forall k :: 0 <= k < |entries| ==>
      r.value[k] == (entries[k].0, LoadEntry(entries[k], listing, read).value)
    ensures r.Ok? ==> forall k :: 0 <= k < |entries| ==> TaggedFrame(r.value[k].1, entries[k].0)
    ensures r.Err? ==> exists k :: FirstFailure(entries, listing, read, k) && r.error == LoadEntry(entries[k], listing, read).error
  {
    var loads := Loads(entries, listing, read);
    var r := Collect(loads);
    if r.Ok? then
      r
    else
      var k :| FirstErr(loads, k) && r.error == loads[k].1.error;
      assert FirstFailure(entries, listing, read, k);
      r
  }

  /** A valid frame carrying the `source` column, filled with `name` in every row. */
  predicate TaggedFrame(t: Table, name: string)
  {
    && Valid(t) && SourceColumn in t.columns
    && forall i :: 0 <= i < |t.rows| ==> Get(t, t.rows[i], SourceColumn) == Text(name)
  }

  /** Entry `k` is the first one whose load fails. */
  predicate FirstFailure(entries: seq<(string, DatasetInfo)>, listing: string -> seq<string>,
                         read: string -> Result<Table>, k: int)
    requires forall p :: read(p).Ok? ==> WellFormed(read(p).value)
  {
    && 0 <= k < |entries|
    && LoadEntry(entries[k], listing, read).Err?
    && forall j :: 0 <= j < k ==> LoadEntry(entries[j], listing, read).Ok?
  }

  /** Download paths aside, `main` up to the merged frame. */
  function Pipeline(listing: string -> seq<string>, read: string -> Result<Table>): (r: Result<Table>)
    requires forall p :: read(p).Ok? ==> WellFormed(read(p).value)
    ensures r.Ok? ==> Valid(r.value) && SourceColumn in r.value.columns
  {
    LoadAndMerge(Datasets, listing, read)
  }

  /** Every entry loaded, then the frames merged in registry order. */
  function LoadAndMerge(entries: seq<(string, DatasetInfo)>, listing: string -> seq<string>,
                        read: string -> Result<Table>): (r: Result<Table>)
    requires forall p :: read(p).Ok? ==> WellFormed(read(p).value)
    ensures r.Ok? ==> Valid(r.value) && SourceColumn in r.value.columns
  {
    var frames :- LoadAll(entries, listing, read);
    MergeDataframes(frames)
  }

  /** The missing-text quirk end to end: a missing cell of an object column
      is the text "nan" after standardisation, and conversion keeps it as that
      text, so the column stays an object column and is not imputed. */
  lemma MissingTextStaysNan(t: Table, i: nat, c: nat)
    requires WellFormed(t) && i < |t.rows| && c < |t.columns|
    requires IsTextual(t, c) && t.rows[i][c] == Missing
    requires Distinct(NormalizeNames(t.columns))
    ensures StandardizeColumns(t).Ok? && ConvertTypes(StandardizeColumns(t).value).Ok?
    ensures var s := StandardizeColumns(t).value;
      exists k :: 0 <= k < |s.rows| && s.rows[k][c] == Text("nan") &&
        ConvertTypes(s).value.rows[k][c] == Text("nan")
  {
    var s := StandardizeColumns(t).value;
    var row := CleanRows(t)[i];
    assert row[c] == Text("nan");
    assert row in s.rows;
    var k :| 0 <= k < |s.rows| && s.rows[k] == row;
    TextualPreserved(t, c);
    NanConverted(s, k, c);
  }

  /** Conversion leaves a "nan" text of an object column as it is. */
  lemma NanConverted(s: Table, k: nat, c: nat)
    requires WellFormed(s) && Distinct(s.columns) && k < |s.rows| && c < |s.columns|
    requires IsTextual(s, c) && s.rows[k][c] == Text("nan")
    ensures ConvertTypes(s).Ok? && ConvertTypes(s).value.rows[k][c] == Text("nan")
  {
    NanStaysText();
    assert ParseCell(s.rows[k][c]) == Text("nan");
  }
}
