/** `parse_kaiju2table`, `get_taxon_counts` and `build_taxonomy_stats`:
    kaiju2table reports become per-sample records, per-sample read
    Counters and per-sample assignment percentages. */
module ParseTaxonomy {
  import opened Results
  import opened Dicts
  import opened Paths
  import opened TaxonPath

  /** `{"n_reads": row.reads, "percent": row.percent}` */
  datatype RowStats = RowStats(nReads: nat, percent: real)

  /** A row of a kaiju2table report: its `taxon_name`, `reads` and
      `percent` columns. */
  datatype Row = Row(taxonName: string, readCount: nat, percent: real)

  /** A report file and the rows the table reader yields for it. */
  datatype ReportFile = ReportFile(path: Path, rows: seq<Row>)

  /** One sample's entry of `parse_kaiju2table`'s result. Its dictionary
      holds `"assigned"` first (taxon key to row), then the other
      categories in the order their first row appeared. */
  datatype SampleStats = SampleStats(taxa: Dict<RowStats>, categories: Dict<RowStats>)

  const Unclassified: string := "unclassified"
  const CannotBeAssigned: string := "cannot be assigned"

  /** A freshly created sample entry, `{"assigned": {}}`. */
  const EmptySample := SampleStats([], [])

  /** Where a row is stored. */
  datatype Slot = UnclassifiedSlot | CannotBeAssignedSlot | AssignedSlot(taxon: string)

  /** The routing of one row by its taxon name: exactly `"unclassified"`,
      a name starting with `"cannot"`, or an assigned taxon keyed by the
      last non-empty segment of its path (IndexError when there is none). */
  function RouteRow(taxonName: string): (r: Result<Slot>)
    ensures r == Ok(UnclassifiedSlot) <==> taxonName == Unclassified
    ensures r == Ok(CannotBeAssignedSlot) <==> taxonName != Unclassified && "cannot" <= taxonName
    ensures r.Ok? && r.value.AssignedSlot? ==>
              && taxonName != Unclassified && !("cannot" <= taxonName)
              && r.value.taxon != [] && ';' !in r.value.taxon
              && exists i :: IsLastRunAt(taxonName, r.value.taxon, i)
    ensures r.Err? <==> && taxonName != Unclassified && !("cannot" <= taxonName)
                        && forall j :: 0 <= j < |taxonName| ==> taxonName[j] == ';'
    ensures r.Err? ==> r.error == IndexError
  {
    if taxonName == Unclassified then Ok(UnclassifiedSlot)
    else if "cannot" <= taxonName then Ok(CannotBeAssignedSlot)
    else
      TaxonKeySpec(taxonName);
      match TaxonKey(taxonName)
      case Err(e) => Err(e)
      case Ok(k) => Ok(AssignedSlot(k))
  }

  function RowDict(row: Row): RowStats {
    RowStats(row.readCount, row.percent)
  }

  predicate HasSlot(s: SampleStats, slot: Slot) {
    match slot
    case UnclassifiedSlot => Has(s.categories, Unclassified)
    case CannotBeAssignedSlot => Has(s.categories, CannotBeAssigned)
    case AssignedSlot(t) => Has(s.taxa, t)
  }

  function SlotValue(s: SampleStats, slot: Slot): RowStats
    requires HasSlot(s, slot)
  {
    match slot
    case UnclassifiedSlot => Get(s.categories, Unclassified)
    case CannotBeAssignedSlot => Get(s.categories, CannotBeAssigned)
    case AssignedSlot(t) => Get(s.taxa, t)
  }

  /** Storing a row in a slot overwrites what the slot held and leaves
      every other slot as it was. */
  function Place(s: SampleStats, slot: Slot, rs: RowStats): (r: SampleStats)
    ensures HasSlot(r, slot) && SlotValue(r, slot) == rs
    ensures forall other :: other != slot ==> (HasSlot(r, other) <==> HasSlot(s, other))
    ensures forall other :: other != slot && HasSlot(s, other) ==> SlotValue(r, other) == SlotValue(s, other)
  {
    assert Unclassified[0] != CannotBeAssigned[0];
    match slot
    case UnclassifiedSlot => s.(categories := Put(s.categories, Unclassified, rs))
    case CannotBeAssignedSlot => s.(categories := Put(s.categories, CannotBeAssigned, rs))
    case AssignedSlot(t) => s.(taxa := Put(s.taxa, t, rs))
  }

  /** The rest of the row loop of one sample, started from `acc`. */
  function ParseRowsFrom(acc: SampleStats, rows: seq<Row>): Result<SampleStats>
    decreases |rows|
  {
    if rows == [] then Ok(acc)
    else
      match RouteRow(rows[0].taxonName)
      case Err(e) => Err(e)
      case Ok(slot) => ParseRowsFrom(Place(acc, slot, RowDict(rows[0])), rows[1..])
  }

  /** The entry `parse_kaiju2table` builds for one report. */
  function ParseRows(rows: seq<Row>): Result<SampleStats> {
    ParseRowsFrom(EmptySample, rows)
  }

  predicate Routes(row: Row, slot: Slot) {
    RouteRow(row.taxonName) == Ok(slot)
  }

  /** Row `i` is the last row routed to `slot`. */
  predicate IsLastRowFor(rows: seq<Row>, i: int, slot: Slot) {
    0 <= i < |rows| && Routes(rows[i], slot) && forall j :: i < j < |rows| ==> !Routes(rows[j], slot)
  }

  /** Some row goes to `slot`. */
  predicate Reaches(rows: seq<Row>, slot: Slot) {
    exists i :: 0 <= i < |rows| && Routes(rows[i], slot)
  }

  lemma ReachesCons(rows: seq<Row>, slot: Slot)
    requires rows != []
    ensures Reaches(rows, slot) <==> Routes(rows[0], slot) || Reaches(rows[1..], slot)
  {
    if Reaches(rows, slot) {
      var i :| 0 <= i < |rows| && Routes(rows[i], slot);
      if i > 0 { assert Routes(rows[1..][i - 1], slot); }
    }
    if Reaches(rows[1..], slot) {
      var i :| 0 <= i < |rows[1..]| && Routes(rows[1..][i], slot);
      assert Routes(rows[i + 1], slot);
    }
  }

  /** The row loop fails exactly when some row has no taxon key;
      otherwise a slot is filled when `acc` had it or some row goes there,
      and it holds the LAST such row (later rows overwrite, they do not add
      up). */
  lemma {:induction false} ParseRowsFromFacts(acc: SampleStats, rows: seq<Row>)
    ensures ParseRowsFrom(acc, rows).Ok? <==> forall i :: 0 <= i < |rows| ==> RouteRow(rows[i].taxonName).Ok?
    ensures ParseRowsFrom(acc, rows).Err? ==> ParseRowsFrom(acc, rows).error == IndexError
    ensures ParseRowsFrom(acc, rows).Ok? ==>
              forall slot :: HasSlot(ParseRowsFrom(acc, rows).value, slot) <==> HasSlot(acc, slot) || Reaches(rows, slot)
    ensures ParseRowsFrom(acc, rows).Ok? ==>
              forall i, slot :: IsLastRowFor(rows, i, slot) ==>
                HasSlot(ParseRowsFrom(acc, rows).value, slot) &&
                SlotValue(ParseRowsFrom(acc, rows).value, slot) == RowDict(rows[i])
    ensures ParseRowsFrom(acc, rows).Ok? ==>
              forall slot :: HasSlot(acc, slot) && !Reaches(rows, slot) ==>
                SlotValue(ParseRowsFrom(acc, rows).value, slot) == SlotValue(acc, slot)
    decreases |rows|
  {
    if rows != [] {
      var rest := rows[1..];
      assert forall i :: 0 <= i < |rest| ==> rest[i] == rows[i + 1];
      match RouteRow(rows[0].taxonName)
      case Err(e) =>
      case Ok(slot0) =>
        var acc' := Place(acc, slot0, RowDict(rows[0]));
        assert ParseRowsFrom(acc, rows) == ParseRowsFrom(acc', rest);
        ParseRowsFromFacts(acc', rest);
        if ParseRowsFrom(acc', rest).Ok? {
          var s := ParseRowsFrom(acc', rest).value;
          assert Routes(rows[0], slot0);
          forall slot ensures Reaches(rows, slot) <==> Routes(rows[0], slot) || Reaches(rest, slot) {
            ReachesCons(rows, slot);
          }
          forall i, slot | IsLastRowFor(rows, i, slot)
            ensures HasSlot(s, slot) && SlotValue(s, slot) == RowDict(rows[i])
          {
            if i > 0 {
              assert IsLastRowFor(rest, i - 1, slot);
            } else {
              assert !Reaches(rest, slot0);
            }
          }
        }
    }
  }

  /** The only error of the row loop is IndexError. */
  lemma {:induction false} ParseRowsFromError(acc: SampleStats, rows: seq<Row>)
    ensures ParseRowsFrom(acc, rows).Err? ==> ParseRowsFrom(acc, rows).error == IndexError
    decreases |rows|
  {
    if rows != [] && RouteRow(rows[0].taxonName).Ok? {
      ParseRowsFromError(Place(acc, RouteRow(rows[0].taxonName).value, RowDict(rows[0])), rows[1..]);
    }
  }

  /** One report's entry: the sample has an `unclassified` (or `cannot be
      assigned`, or taxon) entry exactly when some row goes there, and that
      entry is the last such row; parsing fails with IndexError exactly when
      some row names no taxon. */
  lemma ParseRowsFacts(rows: seq<Row>)
    ensures ParseRows(rows).Ok? <==> forall i :: 0 <= i < |rows| ==> RouteRow(rows[i].taxonName).Ok?
    ensures ParseRows(rows).Err? ==> ParseRows(rows).error == IndexError
    ensures ParseRows(rows).Ok? ==>
              forall slot :: HasSlot(ParseRows(rows).value, slot) <==> exists i :: 0 <= i < |rows| && Routes(rows[i], slot)
    ensures ParseRows(rows).Ok? ==>
              forall i, slot :: IsLastRowFor(rows, i, slot) ==> SlotValue(ParseRows(rows).value, slot) == RowDict(rows[i])
  {
    ParseRowsFromFacts(EmptySample, rows);
    assert forall slot :: !HasSlot(EmptySample, slot);
  }

  function SampleName(f: ReportFile): string {
    Name(f.path)
  }

  /** The rest of the file loop of `parse_kaiju2table`, started from
      `acc`: each file's entry is stored under the file's name, replacing
      an entry of an earlier file with the same name in place. */
  function ParseFilesFrom(acc: Dict<SampleStats>, files: seq<ReportFile>): Result<Dict<SampleStats>>
    decreases |files|
  {
    if files == [] then Ok(acc)
    else
      match ParseRows(files[0].rows)
      case Err(e) => Err(e)
      case Ok(s) => ParseFilesFrom(Put(acc, SampleName(files[0]), s), files[1..])
  }

  /** Some file is named `k`. */
  predicate NamedIn(files: seq<ReportFile>, k: string) {
    exists i :: 0 <= i < |files| && SampleName(files[i]) == k
  }

  lemma NamedInCons(files: seq<ReportFile>, k: string)
    requires files != []
    ensures NamedIn(files, k) <==> SampleName(files[0]) == k || NamedIn(files[1..], k)
  {
    if NamedIn(files, k) {
      var i :| 0 <= i < |files| && SampleName(files[i]) == k;
      if i > 0 { assert SampleName(files[1..][i - 1]) == k; }
    }
    if NamedIn(files[1..], k) {
      var i :| 0 <= i < |files[1..]| && SampleName(files[1..][i]) == k;
      assert SampleName(files[i + 1]) == k;
    }
  }

  /** File `i` is the last file with its name. */
  predicate IsLastFileFor(files: seq<ReportFile>, i: int) {
    0 <= i < |files| && forall j :: i < j < |files| ==> SampleName(files[j]) != SampleName(files[i])
  }

  /** The file loop fails (with IndexError) exactly when some file fails. */
  lemma {:induction false} ParseFilesFromOk(acc: Dict<SampleStats>, files: seq<ReportFile>)
    ensures ParseFilesFrom(acc, files).Ok? <==> forall i :: 0 <= i < |files| ==> ParseRows(files[i].rows).Ok?
    ensures ParseFilesFrom(acc, files).Err? ==> ParseFilesFrom(acc, files).error == IndexError
    decreases |files|
  {
    if files != [] {
      var rest := files[1..];
      assert forall i :: 0 <= i < |rest| ==> rest[i] == files[i + 1];
      ParseRowsFromError(EmptySample, files[0].rows);
      if ParseRows(files[0].rows).Ok? {
        var acc' := Put(acc, SampleName(files[0]), ParseRows(files[0].rows).value);
        assert ParseFilesFrom(acc, files) == ParseFilesFrom(acc', rest);
        ParseFilesFromOk(acc', rest);
      }
    }
  }

  /** The samples after the file loop: those of `acc` and every file's name. */
  lemma {:induction false} ParseFilesFromKeys(acc: Dict<SampleStats>, files: seq<ReportFile>)
    ensures ParseFilesFrom(acc, files).Ok? ==>
              forall k :: Has(ParseFilesFrom(acc, files).value, k) <==> Has(acc, k) || NamedIn(files, k)
    decreases |files|
  {
    if files != [] && ParseRows(files[0].rows).Ok? {
      var rest := files[1..];
      var acc' := Put(acc, SampleName(files[0]), ParseRows(files[0].rows).value);
      assert ParseFilesFrom(acc, files) == ParseFilesFrom(acc', rest);
      ParseFilesFromKeys(acc', rest);
      forall k ensures NamedIn(files, k) <==> SampleName(files[0]) == k || NamedIn(rest, k) {
        NamedInCons(files, k);
      }
    }
  }

  /** After the file loop a name holds the entry of the last file with that
      name; a name of `acc` that no file has keeps its entry. */
  lemma {:induction false} ParseFilesFromValues(acc: Dict<SampleStats>, files: seq<ReportFile>)
    ensures ParseFilesFrom(acc, files).Ok? ==>
              forall i :: IsLastFileFor(files, i) ==>
                Has(ParseFilesFrom(acc, files).value, SampleName(files[i])) &&
                ParseRows(files[i].rows).Ok? &&
                Get(ParseFilesFrom(acc, files).value, SampleName(files[i])) == ParseRows(files[i].rows).value
    ensures ParseFilesFrom(acc, files).Ok? ==>
              forall k :: Has(acc, k) && (forall i :: 0 <= i < |files| ==> SampleName(files[i]) != k) ==>
                Has(ParseFilesFrom(acc, files).value, k) &&
                Get(ParseFilesFrom(acc, files).value, k) == Get(acc, k)
    decreases |files|
  {
    if files != [] && ParseRows(files[0].rows).Ok? {
      var rest := files[1..];
      assert forall i :: 0 <= i < |rest| ==> rest[i] == files[i + 1];
      var name0 := SampleName(files[0]);
      var acc' := Put(acc, name0, ParseRows(files[0].rows).value);
      ParseFilesFromValues(acc', rest);
      ParseFilesFromOk(acc, files);
      if ParseFilesFrom(acc, files).Ok? {
        var r := ParseFilesFrom(acc, files).value;
        forall i | IsLastFileFor(files, i)
          ensures Has(r, SampleName(files[i])) && ParseRows(files[i].rows).Ok?
          ensures Get(r, SampleName(files[i])) == ParseRows(files[i].rows).value
        {
          if i > 0 {
            assert IsLastFileFor(rest, i - 1);
          } else {
            assert forall j :: 0 <= j < |rest| ==> SampleName(rest[j]) != name0;
          }
        }
        forall k | Has(acc, k) && (forall i :: 0 <= i < |files| ==> SampleName(files[i]) != k)
          ensures Has(r, k) && Get(r, k) == Get(acc, k)
        {
          assert k != name0;
          assert forall j :: 0 <= j < |rest| ==> SampleName(rest[j]) != k;
        }
      }
    }
  }

  /** What `parse_kaiju2table` returns for a list of report files. */
  function ParseKaiju2TableSpec(files: seq<ReportFile>): Result<Dict<SampleStats>> {
    ParseFilesFrom([], files)
  }

  /** The samples are exactly the file names; a name's entry is parsed from
      the last file with that name; the parse fails (IndexError) exactly when
      some row of some file has no taxon key. */
  lemma ParseKaiju2TableFacts(files: seq<ReportFile>)
    ensures ParseKaiju2TableSpec(files).Ok? <==>
              forall i, j :: 0 <= i < |files| && 0 <= j < |files[i].rows| ==> RouteRow(files[i].rows[j].taxonName).Ok?
    ensures ParseKaiju2TableSpec(files).Err? ==> ParseKaiju2TableSpec(files).error == IndexError
    ensures ParseKaiju2TableSpec(files).Ok? ==>
              forall k :: Has(ParseKaiju2TableSpec(files).value, k) <==> exists i :: 0 <= i < |files| && SampleName(files[i]) == k
    ensures ParseKaiju2TableSpec(files).Ok? ==>
              forall i :: IsLastFileFor(files, i) ==>
                ParseRows(files[i].rows).Ok? &&
                Get(ParseKaiju2TableSpec(files).value, SampleName(files[i])) == ParseRows(files[i].rows).value
  {
    ParseFilesFromOk([], files);
    ParseFilesFromKeys([], files);
    ParseFilesFromValues([], files);
    forall i | 0 <= i < |files| {
      ParseRowsFacts(files[i].rows);
    }
  }

  /** `parse_kaiju2table(files)`, with the table reader's rows given. */
  method ParseKaiju2Table(files: seq<ReportFile>) returns (r: Result<Dict<SampleStats>>)
    ensures r == ParseKaiju2TableSpec(files)
  {
    var parsedStats: Dict<SampleStats> := [];
    var f := 0;
    while f < |files|
      invariant 0 <= f <= |files|
      invariant ParseFilesFrom(parsedStats, files[f..]) == ParseKaiju2TableSpec(files)
    {
      var sample := files[f];
      var sampleName := SampleName(sample);
      var rows := sample.rows;
      // parsed_stats[sample_name] = {"assigned": {}}, then filled row by row
      var stats := EmptySample;
      var i := 0;
      while i < |rows|
        invariant 0 <= i <= |rows|
        invariant ParseRowsFrom(stats, rows[i..]) == ParseRows(rows)
      {
        var row := rows[i];
        assert rows[i..][0] == row && rows[i..][1..] == rows[i + 1..];
        var slot := RouteRow(row.taxonName);
        if slot.Err? {
          assert files[f..][0] == sample;
          return Err(slot.error);
        }
        stats := Place(stats, slot.value, RowDict(row));
        i := i + 1;
      }
      assert files[f..][0] == sample && files[f..][1..] == files[f + 1..];
      parsedStats := Put(parsedStats, sampleName, stats);
      f := f + 1;
    }
    return Ok(parsedStats);
  }

  // ----- get_taxon_counts -----

  /** `d[k]["n_reads"]`, or 0 when the key is absent. */
  function Reads(d: Dict<RowStats>, k: string): nat {
    if Has(d, k) then Get(d, k).nReads else 0
  }

  /** The read counts of a dictionary's rows, summed. */
  function SumReads(d: seq<(string, RowStats)>): nat {
    if d == [] then 0 else d[0].1.nReads + SumReads(d[1..])
  }

  /** The rest of a loop `counter[name] += info["n_reads"]` over the items
      of a dictionary of rows. */
  function AddReadsFrom(c: Counter, items: Dict<RowStats>): Counter
    decreases |items|
  {
    if items == [] then c else AddReadsFrom(Add(c, items[0].0, items[0].1.nReads), items[1..])
  }

  /** Adding a dictionary of rows into a Counter adds each key's reads to
      its count and the sum of all reads to the total. */
  lemma {:induction false} AddReadsFromFacts(c: Counter, items: Dict<RowStats>)
    ensures forall k :: Count(AddReadsFrom(c, items), k) == Count(c, k) + Reads(items, k)
    ensures forall k :: Has(AddReadsFrom(c, items), k) <==> Has(c, k) || Has(items, k)
    ensures Total(AddReadsFrom(c, items)) == Total(c) + SumReads(items)
    decreases |items|
  {
    if items != [] {
      var c' := Add(c, items[0].0, items[0].1.nReads);
      AddReadsFromFacts(c', items[1..]);
      forall k
        ensures Count(AddReadsFrom(c, items), k) == Count(c, k) + Reads(items, k)
        ensures Has(AddReadsFrom(c, items), k) <==> Has(c, k) || Has(items, k)
      {
        HasCons(items, k);
      }
    }
  }

  /** The Counter `get_taxon_counts` builds for one sample: every assigned
      taxon, then every other category under its own name. */
  function SampleCounts(s: SampleStats): Counter {
    AddReadsFrom(AddReadsFrom([], s.taxa), s.categories)
  }

  /** A sample's count of a name is the reads of the assigned taxon of
      that name plus the reads of the category of that name (a taxon named
      like a category adds up with it); its keys are the taxa and categories;
      its total is all assigned reads plus all category reads. */
  lemma SampleCountsFacts(s: SampleStats)
    ensures forall k :: Count(SampleCounts(s), k) == Reads(s.taxa, k) + Reads(s.categories, k)
    ensures forall k :: Has(SampleCounts(s), k) <==> Has(s.taxa, k) || Has(s.categories, k)
    ensures Total(SampleCounts(s)) == SumReads(s.taxa) + SumReads(s.categories)
  {
    AddReadsFromFacts([], s.taxa);
    AddReadsFromFacts(AddReadsFrom([], s.taxa), s.categories);
  }

  /** The body of `get_taxon_counts`'s sample loop: a fresh Counter, the
      assigned taxa added in, then the other categories. */
  method CountSample(data: SampleStats) returns (counts: Counter)
    ensures counts == SampleCounts(data)
  {
    counts := [];
    var i := 0;
    while i < |data.taxa|
      invariant 0 <= i <= |data.taxa|
      invariant AddReadsFrom(counts, data.taxa[i..]) == AddReadsFrom([], data.taxa)
    {
      assert data.taxa[i..][1..] == data.taxa[i + 1..];
      counts := Add(counts, data.taxa[i].0, data.taxa[i].1.nReads);
      i := i + 1;
    }
    var j := 0;
    while j < |data.categories|
      invariant 0 <= j <= |data.categories|
      invariant AddReadsFrom(counts, data.categories[j..]) == SampleCounts(data)
    {
      assert data.categories[j..][1..] == data.categories[j + 1..];
      counts := Add(counts, data.categories[j].0, data.categories[j].1.nReads);
      j := j + 1;
    }
  }

  /** `get_taxon_counts(samples_stats)`: the same samples in the same
      order, each with its Counter. */
  method GetTaxonCounts(samplesStats: Dict<SampleStats>) returns (allSampleCounts: Dict<Counter>)
    ensures allSampleCounts == MapValues(samplesStats, SampleCounts)
  {
    allSampleCounts := [];
    var n := 0;
    while n < |samplesStats|
      invariant 0 <= n <= |samplesStats|
      invariant |allSampleCounts| == n
      invariant forall j :: 0 <= j < n ==> allSampleCounts[j] == (samplesStats[j].0, SampleCounts(samplesStats[j].1))
    {
      var (sample, data) := samplesStats[n];
      var counts := CountSample(data);
      assert !Has(allSampleCounts, sample);
      PutAppends(allSampleCounts, sample, counts);
      allSampleCounts := Put(allSampleCounts, sample, counts);
      n := n + 1;
    }
    MapValuesAll(samplesStats, SampleCounts, allSampleCounts);
  }

  // ----- build_taxonomy_stats -----

  /** A sample's assigned and unassigned read percentages. */
  datatype AssignmentStats = AssignmentStats(assignedPercent: real, unassignedPercent: real)

  /** `(part / total) * 100` */
  function Percent(part: nat, total: nat): real
    requires total > 0
  {
    (part as real / total as real) * 100.0
  }

  lemma PercentFacts(part: nat, rest: nat)
    requires part + rest > 0
    ensures Percent(part, part + rest) + Percent(rest, part + rest) == 100.0
    ensures 0.0 <= Percent(part, part + rest) <= 100.0
    ensures Percent(part, part + rest) * (part + rest) as real == 100.0 * part as real
  {
    var t := (part + rest) as real;
    assert part as real / t + rest as real / t == 1.0;
    assert part as real / t <= 1.0;
  }

  /** A sample's assigned percentage of all its reads, and the unassigned
      (cannot be assigned plus unclassified) percentage. A missing category
      is a KeyError ("cannot be assigned" is looked up first) and a sample
      without reads a ZeroDivisionError. */
  function SampleAssignment(s: SampleStats): (r: Result<AssignmentStats>)
    ensures r.Err? <==>
              || !Has(s.categories, CannotBeAssigned) || !Has(s.categories, Unclassified)
              || SumReads(s.taxa) + Reads(s.categories, CannotBeAssigned) + Reads(s.categories, Unclassified) == 0
    ensures r.Err? ==> r.error == if !Has(s.categories, CannotBeAssigned) then KeyError(CannotBeAssigned)
                                  else if !Has(s.categories, Unclassified) then KeyError(Unclassified)
                                  else ZeroDivisionError
    ensures r.Ok? ==> r.value.assignedPercent + r.value.unassignedPercent == 100.0
    ensures r.Ok? ==> 0.0 <= r.value.assignedPercent <= 100.0 && 0.0 <= r.value.unassignedPercent <= 100.0
    ensures r.Ok? ==>
              var a, u := SumReads(s.taxa), Reads(s.categories, CannotBeAssigned) + Reads(s.categories, Unclassified);
              r.value.assignedPercent * (a + u) as real == 100.0 * a as real
  {
    var assignedReads := SumReads(s.taxa);
    if !Has(s.categories, CannotBeAssigned) then Err(KeyError(CannotBeAssigned))
    else if !Has(s.categories, Unclassified) then Err(KeyError(Unclassified))
    else
      var unassignedReads := Get(s.categories, CannotBeAssigned).nReads + Get(s.categories, Unclassified).nReads;
      var total := assignedReads + unassignedReads;
      if total == 0 then Err(ZeroDivisionError)
      else
        PercentFacts(assignedReads, unassignedReads);
        PercentFacts(unassignedReads, assignedReads);
        Ok(AssignmentStats(Percent(assignedReads, total), Percent(unassignedReads, total)))
  }

  /** `build_taxonomy_stats(parsed_stats)`: the first sample (in order)
      that fails decides the error. */
  method BuildTaxonomyStats(parsedStats: Dict<SampleStats>) returns (r: Result<Dict<AssignmentStats>>)
    ensures r == TryMapValues(parsedStats, SampleAssignment)
  {
    var results: Dict<AssignmentStats> := [];
    var n := 0;
    while n < |parsedStats|
      invariant MappedPrefix(parsedStats, SampleAssignment, results, n)
    {
      var (sampleName, stats) := parsedStats[n];
      var sampleResult := SampleAssignment(stats);
      if sampleResult.Err? {
        MappedPrefixStops(parsedStats, SampleAssignment, results, n);
        return Err(sampleResult.error);
      }
      MappedPrefixStep(parsedStats, SampleAssignment, results, n, sampleResult.value);
      results := Put(results, sampleName, sampleResult.value);
      n := n + 1;
    }
    MappedPrefixDone(parsedStats, SampleAssignment, results);
    return Ok(results);
  }
}
