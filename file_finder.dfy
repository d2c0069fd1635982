// Report discovery and source-table checks: which reports are Kaiju or
// Kraken reports, whether a source table follows its schema, and where
// the sample files it lists are. Schema validation (frictionless) and the
// filesystem are oracles passed in as functions.

module FileFinder {
  import opened Results
  import opened Paths

  /** One `(code, message)` pair of a validation report. */
  datatype ErrorMessage = ErrorMessage(code: string, message: string)

  /** The schema or check a table is validated against. */
  datatype Check =
    | KaijuReportSchema
    | TableDimensions(numFields: nat)
    | ContrastTableSchema

  /** What the validator reports about a table: its error count and its
      flattened error codes and messages. */
  datatype ValidationOutcome = ValidationOutcome(errors: nat, errorMessages: seq<ErrorMessage>)

  /** The validation library, as an oracle. */
  type Validator = (Path, Check) -> ValidationOutcome

  /** The dictionary `validate_against_schema` returns. */
  datatype ValidationReport = ValidationReport(report: Path, errors: nat, errorMessages: seq<ErrorMessage>)

  datatype ReportType = Kaiju | Kraken

  const DuplicateLabel: string := "duplicate-label"
  /** A Kraken report has six columns. */
  const KrakenNumFields: nat := 6

  /** `validate_against_schema(table, ...)`: the validator's verdict,
      labelled with the table it is about. */
  function ValidateAgainstSchema(validate: Validator, table: Path, check: Check): (r: ValidationReport)
    ensures r.report == table
  {
    var outcome := validate(table, check);
    ValidationReport(table, outcome.errors, outcome.errorMessages)
  }

  // ----- is_kraken_report -----

  /** `all(e[0] == "duplicate-label" for e in messages)`, element by element. */
  predicate AllDuplicateLabel(msgs: seq<ErrorMessage>) {
    msgs == [] || (msgs[0].code == DuplicateLabel && AllDuplicateLabel(msgs[1..]))
  }

  lemma {:induction false} AllDuplicateLabelMeans(msgs: seq<ErrorMessage>)
    ensures AllDuplicateLabel(msgs) <==> forall i :: 0 <= i < |msgs| ==> msgs[i].code == DuplicateLabel
  {
    if msgs != [] {
      AllDuplicateLabelMeans(msgs[1..]);
      assert forall i :: 1 <= i < |msgs| ==> msgs[i] == msgs[1..][i - 1];
    }
  }

  /** A report passes as a Kraken report when it has no errors or when
      every error is a duplicate label (so also when the message list is
      empty). */
  function IsKrakenReport(report: ValidationReport): (b: bool)
    ensures b <==> report.errors == 0 ||
                   forall i :: 0 <= i < |report.errorMessages| ==> report.errorMessages[i].code == DuplicateLabel
  {
    AllDuplicateLabelMeans(report.errorMessages);
    report.errors == 0 || AllDuplicateLabel(report.errorMessages)
  }

  // ----- check_source_table_validation -----

  /** The source table check raises exactly when validation found errors. */
  function CheckSourceTableValidation(report: ValidationReport): (r: Outcome)
    ensures r.Fail? <==> report.errors > 0
    ensures r.Fail? ==> r.error == SourceTableSchemaError
  {
    if report.errors > 0 then Fail(SourceTableSchemaError) else Pass
  }

  // ----- detect_report_type -----

  /** `[validate_against_schema(p, ...) for p in paths]`. */
  function Validated(validate: Validator, paths: seq<Path>, check: Check): (vs: seq<ValidationReport>)
    ensures |vs| == |paths|
    ensures forall i :: 0 <= i < |paths| ==> vs[i] == ValidateAgainstSchema(validate, paths[i], check)
  {
    seq(|paths|, i requires 0 <= i < |paths| => ValidateAgainstSchema(validate, paths[i], check))
  }

  /** The filter of a report comprehension: no errors (Kaiju), or
      `is_kraken_report` (Kraken). */
  datatype Rule = NoErrors | KrakenRule

  predicate Accepts(rule: Rule, r: ValidationReport) {
    match rule
    case NoErrors => r.errors == 0
    case KrakenRule => IsKrakenReport(r)
  }

  /** `[r["report"] for r in validated if <rule>]`. */
  function Selected(vs: seq<ValidationReport>, rule: Rule): seq<Path> {
    if vs == [] then []
    else
      var last := vs[|vs| - 1];
      Selected(vs[..|vs| - 1], rule) + (if Accepts(rule, last) then [last.report] else [])
  }

  /** The positions `Selected` keeps, in increasing order. */
  function SelectedIndices(vs: seq<ValidationReport>, rule: Rule): seq<nat> {
    if vs == [] then []
    else
      SelectedIndices(vs[..|vs| - 1], rule) + (if Accepts(rule, vs[|vs| - 1]) then [|vs| - 1] else [])
  }

  /** A comprehension keeps exactly the accepted reports, in input order. */
  lemma {:induction false} SelectedFacts(vs: seq<ValidationReport>, rule: Rule)
    ensures |SelectedIndices(vs, rule)| == |Selected(vs, rule)|
    ensures forall k :: 0 <= k < |SelectedIndices(vs, rule)| ==>
              SelectedIndices(vs, rule)[k] < |vs| && Selected(vs, rule)[k] == vs[SelectedIndices(vs, rule)[k]].report
    ensures forall k, l :: 0 <= k < l < |SelectedIndices(vs, rule)| ==>
              SelectedIndices(vs, rule)[k] < SelectedIndices(vs, rule)[l]
    ensures forall i :: 0 <= i < |vs| ==> (i in SelectedIndices(vs, rule) <==> Accepts(rule, vs[i]))
  {
    if vs != [] {
      var init := vs[..|vs| - 1];
      SelectedFacts(init, rule);
      assert forall i :: 0 <= i < |init| ==> init[i] == vs[i];
    }
  }

  predicate PassesKaiju(validate: Validator, p: Path) {
    validate(p, KaijuReportSchema).errors == 0
  }

  predicate PassesKraken(validate: Validator, p: Path) {
    IsKrakenReport(ValidateAgainstSchema(validate, p, TableDimensions(KrakenNumFields)))
  }

  function KaijuReports(validate: Validator, paths: seq<Path>): seq<Path> {
    Selected(Validated(validate, paths, KaijuReportSchema), NoErrors)
  }

  function KrakenReports(validate: Validator, paths: seq<Path>): seq<Path> {
    Selected(Validated(validate, paths, TableDimensions(KrakenNumFields)), KrakenRule)
  }

  /** `detect_report_type(report_paths, console)`: the Kaiju reports if
      there are any, otherwise the Kraken reports, otherwise an error. */
  function DetectReportType(paths: seq<Path>, validate: Validator): Result<(seq<Path>, ReportType)> {
    var kaijuReports := KaijuReports(validate, paths);
    if |kaijuReports| == 0 then
      var krakenReports := KrakenReports(validate, paths);
      if |krakenReports| == 0 then Err(NoValidReports)
      else Ok((krakenReports, Kraken))
    else Ok((kaijuReports, Kaiju))
  }

  /** `out` lists `paths` at the increasing positions `idx`. */
  predicate InOrderAt(out: seq<Path>, paths: seq<Path>, idx: seq<nat>) {
    && |idx| == |out|
    && (forall k :: 0 <= k < |idx| ==> idx[k] < |paths| && out[k] == paths[idx[k]])
    && (forall k, l :: 0 <= k < l < |idx| ==> idx[k] < idx[l])
  }

  function KaijuIndices(validate: Validator, paths: seq<Path>): seq<nat> {
    SelectedIndices(Validated(validate, paths, KaijuReportSchema), NoErrors)
  }

  function KrakenIndices(validate: Validator, paths: seq<Path>): seq<nat> {
    SelectedIndices(Validated(validate, paths, TableDimensions(KrakenNumFields)), KrakenRule)
  }

  /** The Kaiju comprehension keeps exactly the paths that pass the Kaiju
      schema, in input order. */
  lemma KaijuSelection(validate: Validator, paths: seq<Path>)
    ensures InOrderAt(KaijuReports(validate, paths), paths, KaijuIndices(validate, paths))
    ensures forall i :: 0 <= i < |paths| ==> (i in KaijuIndices(validate, paths) <==> PassesKaiju(validate, paths[i]))
  {
    SelectedFacts(Validated(validate, paths, KaijuReportSchema), NoErrors);
  }

  /** The Kraken comprehension keeps exactly the paths that pass
      `is_kraken_report` on the six-column check, in input order. */
  lemma KrakenSelection(validate: Validator, paths: seq<Path>)
    ensures InOrderAt(KrakenReports(validate, paths), paths, KrakenIndices(validate, paths))
    ensures forall i :: 0 <= i < |paths| ==> (i in KrakenIndices(validate, paths) <==> PassesKraken(validate, paths[i]))
  {
    SelectedFacts(Validated(validate, paths, TableDimensions(KrakenNumFields)), KrakenRule);
  }

  /** An in-order selection is empty exactly when it selects no position. */
  lemma SelectionEmpty(out: seq<Path>, paths: seq<Path>, idx: seq<nat>)
    requires InOrderAt(out, paths, idx)
    ensures |out| == 0 <==> forall i :: 0 <= i < |paths| ==> i !in idx
  {
    if |out| > 0 {
      assert idx[0] in idx;
    }
  }

  /** Detection fails (NoValidReports) exactly when no path passes either
      test, and it reports Kaiju exactly when some path passes the Kaiju
      schema. */
  lemma DetectReportTypeOutcome(paths: seq<Path>, validate: Validator)
    ensures DetectReportType(paths, validate).Err? <==>
              (forall i :: 0 <= i < |paths| ==> !PassesKaiju(validate, paths[i])) &&
              (forall i :: 0 <= i < |paths| ==> !PassesKraken(validate, paths[i]))
    ensures DetectReportType(paths, validate).Err? ==> DetectReportType(paths, validate).error == NoValidReports
    ensures DetectReportType(paths, validate).Ok? ==>
              (DetectReportType(paths, validate).value.1 == Kaiju <==>
                 exists i :: 0 <= i < |paths| && PassesKaiju(validate, paths[i]))
  {
    KaijuSelection(validate, paths);
    KrakenSelection(validate, paths);
    SelectionEmpty(KaijuReports(validate, paths), paths, KaijuIndices(validate, paths));
    SelectionEmpty(KrakenReports(validate, paths), paths, KrakenIndices(validate, paths));
  }

  /** A successful detection returns a nonempty subsequence of the input:
      exactly the paths that pass the test of the reported type, in input
      order; Kraken is reported only when no path passes the Kaiju schema. */
  lemma DetectReportTypeSelection(paths: seq<Path>, validate: Validator)
    ensures DetectReportType(paths, validate).Ok? ==> |DetectReportType(paths, validate).value.0| > 0
    ensures DetectReportType(paths, validate).Ok? && DetectReportType(paths, validate).value.1 == Kaiju ==>
              var idx := KaijuIndices(validate, paths);
              && InOrderAt(DetectReportType(paths, validate).value.0, paths, idx)
              && forall i :: 0 <= i < |paths| ==> (i in idx <==> PassesKaiju(validate, paths[i]))
    ensures DetectReportType(paths, validate).Ok? && DetectReportType(paths, validate).value.1 == Kraken ==>
              var idx := KrakenIndices(validate, paths);
              && InOrderAt(DetectReportType(paths, validate).value.0, paths, idx)
              && (forall i :: 0 <= i < |paths| ==> (i in idx <==> PassesKraken(validate, paths[i])))
              && (forall i :: 0 <= i < |paths| ==> !PassesKaiju(validate, paths[i]))
  {
    KaijuSelection(validate, paths);
    KrakenSelection(validate, paths);
    SelectionEmpty(KaijuReports(validate, paths), paths, KaijuIndices(validate, paths));
  }

  /** Once some path passes the Kaiju schema, the Kraken check does not
      influence the result: two validators that agree on the Kaiju schema
      give the same detection. */
  lemma KrakenNotConsulted(paths: seq<Path>, v1: Validator, v2: Validator)
    requires forall i :: 0 <= i < |paths| ==> v1(paths[i], KaijuReportSchema) == v2(paths[i], KaijuReportSchema)
    requires exists i :: 0 <= i < |paths| && PassesKaiju(v1, paths[i])
    ensures DetectReportType(paths, v1) == DetectReportType(paths, v2)
    ensures DetectReportType(paths, v1).Ok? && DetectReportType(paths, v1).value.1 == Kaiju
  {
    assert Validated(v1, paths, KaijuReportSchema) == Validated(v2, paths, KaijuReportSchema);
    DetectReportTypeOutcome(paths, v1);
  }

  /** A single report that passes the Kaiju schema is detected as Kaiju. */
  lemma DetectSingleKaiju(p: Path, validate: Validator)
    requires PassesKaiju(validate, p)
    ensures DetectReportType([p], validate) == Ok(([p], Kaiju))
  {
    var vs := Validated(validate, [p], KaijuReportSchema);
    assert vs[..0] == [];
    assert Selected(vs, NoErrors) == [p];
  }

  /** A single report that fails the Kaiju schema but passes the Kraken test
      is detected as Kraken. */
  lemma DetectSingleKraken(p: Path, validate: Validator)
    requires !PassesKaiju(validate, p) && PassesKraken(validate, p)
    ensures DetectReportType([p], validate) == Ok(([p], Kraken))
  {
    var vs := Validated(validate, [p], KaijuReportSchema);
    assert vs[..0] == [];
    assert Selected(vs, NoErrors) == [];
    var ws := Validated(validate, [p], TableDimensions(KrakenNumFields));
    assert ws[..0] == [];
    assert Selected(ws, KrakenRule) == [p];
  }

  // ----- validate_paths -----

  /** Whether a path exists on disk, as an oracle. */
  type ExistsOracle = Path -> bool

  /** `[source_table.parent.joinpath(s) for s in sample_paths]`. */
  function Rebased(samplePaths: seq<Path>, sourceTable: Path): (full: seq<Path>)
    ensures |full| == |samplePaths|
    ensures forall i :: 0 <= i < |samplePaths| ==> full[i] == JoinPath(Parent(sourceTable), samplePaths[i])
  {
    seq(|samplePaths|, i requires 0 <= i < |samplePaths| => JoinPath(Parent(sourceTable), samplePaths[i]))
  }

  predicate AllExist(ps: seq<Path>, exists_: ExistsOracle) {
    forall i :: 0 <= i < |ps| ==> exists_(ps[i])
  }

  /** The second stage: the sample paths taken relative to the source
      table's directory, all of which must exist. */
  function RebasedIfPresent(samplePaths: seq<Path>, sourceTable: Path, exists_: ExistsOracle): (r: Result<seq<Path>>)
    ensures r.Ok? <==> AllExist(Rebased(samplePaths, sourceTable), exists_)
    ensures r.Ok? ==> r.value == Rebased(samplePaths, sourceTable)
    ensures r.Err? ==> r.error == MissingSampleFile
  {
    var full := Rebased(samplePaths, sourceTable);
    if !AllExist(full, exists_) then Err(MissingSampleFile) else Ok(full)
  }

  /** The truth value of `sample_path.exists` without a call: a bound method
      object, which is always truthy. */
  predicate BoundMethodTruthy(p: Path) {
    true
  }

  /** `validate_paths` as written: the first test asks whether every bound
      method `exists` is truthy rather than calling it. */
  function ValidatePathsAsWritten(samplePaths: seq<Path>, sourceTable: Path, exists_: ExistsOracle): Result<seq<Path>> {
    if !(forall i :: 0 <= i < |samplePaths| ==> BoundMethodTruthy(samplePaths[i])) then
      RebasedIfPresent(samplePaths, sourceTable, exists_)
    else
      Ok(samplePaths)
  }

  /** As written, the paths come back unchanged whatever exists on disk. */
  lemma ValidatePathsAsWrittenIdentity(samplePaths: seq<Path>, sourceTable: Path, exists_: ExistsOracle)
    ensures ValidatePathsAsWritten(samplePaths, sourceTable, exists_) == Ok(samplePaths)
  {
  }

  /** A sample path that exists neither as given nor next to the source
      table is accepted as written, and rejected by the intended check. */
  lemma ValidatePathsMissingFileAccepted()
    ensures var missing: ExistsOracle := (p: Path) => false;
            var samples := [Path(false, ["sample1.tsv"])];
            var table := Path(false, ["data", "contrast.csv"]);
            && ValidatePathsAsWritten(samples, table, missing) == Ok(samples)
            && !missing(samples[0])
            && ValidatePaths(samples, table, missing) == Err(MissingSampleFile)
  {
    var missing: ExistsOracle := (p: Path) => false;
    var samples := [Path(false, ["sample1.tsv"])];
    var table := Path(false, ["data", "contrast.csv"]);
    ValidatePathsAsWrittenIdentity(samples, table, missing);
    assert !missing(samples[0]);
    assert !AllExist(samples, missing);
    assert !missing(Rebased(samples, table)[0]);
    assert !AllExist(Rebased(samples, table), missing);
  }

  /** `validate_paths` as intended: keep the paths if they all exist,
      otherwise take them relative to the source table's directory, and
      raise if one of those is missing too. */
  function ValidatePaths(samplePaths: seq<Path>, sourceTable: Path, exists_: ExistsOracle): (r: Result<seq<Path>>)
    ensures AllExist(samplePaths, exists_) ==> r == Ok(samplePaths)
    ensures !AllExist(samplePaths, exists_) ==>
              r == if AllExist(Rebased(samplePaths, sourceTable), exists_) then Ok(Rebased(samplePaths, sourceTable))
                   else Err(MissingSampleFile)
  {
    if !AllExist(samplePaths, exists_) then
      RebasedIfPresent(samplePaths, sourceTable, exists_)
    else
      Ok(samplePaths)
  }

  /** Every path `validate_paths` returns exists, one per sample in order,
      each the sample path itself or that path under the source table's
      directory; the only error is a missing sample file. */
  lemma ValidatePathsFacts(samplePaths: seq<Path>, sourceTable: Path, exists_: ExistsOracle)
    ensures ValidatePaths(samplePaths, sourceTable, exists_).Ok? ==>
              var out := ValidatePaths(samplePaths, sourceTable, exists_).value;
              && |out| == |samplePaths|
              && AllExist(out, exists_)
              && forall i :: 0 <= i < |out| ==>
                   out[i] == samplePaths[i] || out[i] == JoinPath(Parent(sourceTable), samplePaths[i])
    ensures ValidatePaths(samplePaths, sourceTable, exists_).Err? <==>
              !AllExist(samplePaths, exists_) && !AllExist(Rebased(samplePaths, sourceTable), exists_)
    ensures ValidatePaths(samplePaths, sourceTable, exists_).Err? ==>
              ValidatePaths(samplePaths, sourceTable, exists_).error == MissingSampleFile
  {
  }

  // ----- parse_source_table -----

  /** What `parse_source_table` returns, without the data frame. */
  datatype SourceTable = SourceTable(paths: seq<Path>, reportType: ReportType)

  /** `parse_source_table` with the intended `validate_paths`: check the
      table's schema, locate the sample files it lists (`samplePaths`, its
      `sample` column), and detect their report type. */
  function ParseSourceTable(sourceTable: Path, samplePaths: seq<Path>, validate: Validator, exists_: ExistsOracle): Result<SourceTable> {
    var report := ValidateAgainstSchema(validate, sourceTable, ContrastTableSchema);
    match CheckSourceTableValidation(report)
    case Fail(e) => Err(e)
    case Pass =>
      match ValidatePaths(samplePaths, sourceTable, exists_)
      case Err(e) => Err(e)
      case Ok(validated) =>
        match DetectReportType(validated, validate)
        case Err(e) => Err(e)
        case Ok((paths, kind)) => Ok(SourceTable(paths, kind))
  }

  /** A source table with schema errors is rejected before anything else;
      a parsed source table names at least one report, every report it
      names exists, and each is one of its samples, as given or under the
      table's directory. */
  lemma ParseSourceTableFacts(sourceTable: Path, samplePaths: seq<Path>, validate: Validator, exists_: ExistsOracle)
    ensures validate(sourceTable, ContrastTableSchema).errors > 0 ==>
              ParseSourceTable(sourceTable, samplePaths, validate, exists_) == Err(SourceTableSchemaError)
    ensures ParseSourceTable(sourceTable, samplePaths, validate, exists_).Ok? ==>
              var out := ParseSourceTable(sourceTable, samplePaths, validate, exists_).value.paths;
              && validate(sourceTable, ContrastTableSchema).errors == 0
              && |out| > 0
              && AllExist(out, exists_)
              && forall k :: 0 <= k < |out| ==>
                   exists i :: (0 <= i < |samplePaths| &&
                                (out[k] == samplePaths[i] || out[k] == JoinPath(Parent(sourceTable), samplePaths[i])))
  {
    var validated := ValidatePaths(samplePaths, sourceTable, exists_);
    ValidatePathsFacts(samplePaths, sourceTable, exists_);
    if validated.Ok? {
      DetectReportTypeSelection(validated.value, validate);
    }
  }

  /** `parse_source_table` as written, over the `validate_paths` that never
      consults the filesystem. */
  function ParseSourceTableAsWritten(sourceTable: Path, samplePaths: seq<Path>, validate: Validator, exists_: ExistsOracle): Result<SourceTable> {
    var report := ValidateAgainstSchema(validate, sourceTable, ContrastTableSchema);
    match CheckSourceTableValidation(report)
    case Fail(e) => Err(e)
    case Pass =>
      match ValidatePathsAsWritten(samplePaths, sourceTable, exists_)
      case Err(e) => Err(e)
      case Ok(validated) =>
        match DetectReportType(validated, validate)
        case Err(e) => Err(e)
        case Ok((paths, kind)) => Ok(SourceTable(paths, kind))
  }

  /** As written, a source table that passes its schema check detects its
      reports among the sample paths exactly as given: the result does not
      depend on what exists on disk, fails only when no sample passes a
      report test, and otherwise lists the passing samples in their order,
      none of them rebased. */
  lemma ParseSourceTableAsWrittenFacts(sourceTable: Path, samplePaths: seq<Path>, validate: Validator,
                                       exists_: ExistsOracle, exists2: ExistsOracle)
    ensures validate(sourceTable, ContrastTableSchema).errors > 0 ==>
              ParseSourceTableAsWritten(sourceTable, samplePaths, validate, exists_) == Err(SourceTableSchemaError)
    ensures ParseSourceTableAsWritten(sourceTable, samplePaths, validate, exists_) ==
              ParseSourceTableAsWritten(sourceTable, samplePaths, validate, exists2)
    ensures validate(sourceTable, ContrastTableSchema).errors == 0 ==>
              (ParseSourceTableAsWritten(sourceTable, samplePaths, validate, exists_).Err? <==>
                 forall i :: 0 <= i < |samplePaths| ==>
                   !PassesKaiju(validate, samplePaths[i]) && !PassesKraken(validate, samplePaths[i]))
    ensures ParseSourceTableAsWritten(sourceTable, samplePaths, validate, exists_).Err? ==>
              ParseSourceTableAsWritten(sourceTable, samplePaths, validate, exists_).error in {SourceTableSchemaError, NoValidReports}
    ensures ParseSourceTableAsWritten(sourceTable, samplePaths, validate, exists_).Ok? ==>
              var t := ParseSourceTableAsWritten(sourceTable, samplePaths, validate, exists_).value;
              && |t.paths| > 0
              && (t.reportType == Kaiju ==> InOrderAt(t.paths, samplePaths, KaijuIndices(validate, samplePaths)))
              && (t.reportType == Kraken ==> InOrderAt(t.paths, samplePaths, KrakenIndices(validate, samplePaths)))
  {
    ValidatePathsAsWrittenIdentity(samplePaths, sourceTable, exists_);
    ValidatePathsAsWrittenIdentity(samplePaths, sourceTable, exists2);
    DetectReportTypeOutcome(samplePaths, validate);
    DetectReportTypeSelection(samplePaths, validate);
  }
}
