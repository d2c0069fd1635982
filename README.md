# MicroView taxonomy aggregation and report detection, in Dafny

MicroView turns taxonomic-classification reports (Kaiju or Kraken tables)
into per-sample summaries. This project models two parts of it and proves
properties of the model:

- **The taxonomy pipeline** (`microview/parse_taxonomy.py`):
  - `parse_kaiju2table` sends each report row to the `unclassified` slot,
    to the `cannot be assigned` slot, or to the assigned taxa. An assigned
    taxon is keyed by the last non-empty `;`-segment of its taxonomy path.
  - `get_taxon_counts` folds each sample into a Counter.
  - `build_taxonomy_stats` computes the assigned and unassigned
    percentages.
  - `get_common_taxas` keeps the 7 most common taxa and collapses the rest
    into an `other` bucket.
  - The richness `taxa_n` of `calculate_abund_diver` counts the nonzero
    Counter entries per sample, the two read categories included.
  - `get_tax_data` strings the steps together.
- **Report discovery** (`microview/file_finder.py`):
  - `is_kraken_report`, `check_source_table_validation` and
    `detect_report_type`.
  - `validate_paths`: both as written and as intended.
  - `parse_source_table`, which chains them: both as written, over the
    `validate_paths` as written, and as corrected, over the intended one.
  - The schema validator (frictionless) is an oracle
    `(Path, Check) -> ValidationOutcome`. The filesystem is an oracle
    `Path -> bool`.

Modelling choices:

- **Dictionaries and Counters.** Python dictionaries and Counters are
  insertion-ordered association lists with unique keys (`Dicts.Dict`).
  Order matters, because `Counter.most_common` breaks ties by insertion
  order. `Dicts.Put` is `d[k] = v` and `Dicts.Add` is `c[k] += n`.
- **Numbers.** Read counts are `nat`. Percentages are exact `real`s, so
  "adds up to 100" holds exactly, not within float rounding.
- **Exceptions.** An exception is an `Err` value of `Results.Result`.
- **Loops.** The loops that fill dictionaries are methods with while loops.
  Each is proved equal to a recursive specification function, and the
  properties are lemmas about those functions.
- **File finder.** The file-finder code has no mutation, so it is modelled
  with functions only.

Modules:

| module | contents |
|---|---|
| `Results` | errors and results |
| `Dicts` | ordered dictionaries and Counters |
| `Paths` | `pathlib` names, parents and joins |
| `TaxonPath` | `str.split(";")` and the taxon key |
| `ParseTaxonomy` | parsing, counting and assignment statistics |
| `CommonTaxa` | `most_common(7)` and the `other` bucket |
| `Richness` | zero-filled count matrix and `taxa_n` |
| `TaxData` | `get_tax_data` |
| `FileFinder` | report detection and source-table checks |
| `Fixtures` | the repository's test fixtures |

Where the tests and the code disagree, or the code behaves in a way its
callers may not expect, the model follows the code:

- **Rounding.** tests/test_parse_taxonomy.py:32 expects sample2's `tax2`
  share to be `66.67`. `get_common_taxas` does not round
  (`microview/parse_taxonomy.py:74`), so the value is exactly 200/3 percent,
  which is not `66.67` (`Fixtures.CommonTaxaFixture`).
- **Top-K.** `get_common_taxas` keeps 7 taxa
  (`microview/parse_taxonomy.py:72`).
- **The `"other"` bucket.** Selected taxa plus `"other"` add up to exactly
  100 only when no selected taxon is itself named `"other"`. Such a taxon
  is overwritten by the bucket (`CommonTaxa.SampleCommonTaxaOtherCollision`).
- **Missing categories.** A real parse may lack a category. Then
  `build_taxonomy_stats` raises `KeyError`, because `parsed_stats` holds
  plain dictionaries. The test fixture avoids this with a `defaultdict`.
  `Fixtures.ParsedStatsWithDefaults` writes out the zero rows that the
  `defaultdict` supplies.

## Model

| member | source | states |
|---|---|---|
| `Dicts.Put` | microview/parse_taxonomy.py:23-28 | `d[k] = v`: afterwards `k` maps to `v` and every other key keeps its presence and value. An existing key keeps its position; a new one is appended. |
| `Dicts.Add` | microview/parse_taxonomy.py:41-43 | `c[k] += n` on a Counter: `k` is present afterwards with count old + n. Other keys are unchanged. The total grows by exactly n. |
| `Dicts.MapValues` | microview/parse_taxonomy.py:36-37 | A per-key transform keeps the keys in order and transforms each value. |
| `Dicts.TryMapValues` | microview/parse_taxonomy.py:50-63 | A per-key computation that may raise succeeds iff every value's computation succeeds. On success the keys and order are kept. On failure the error is that of the first failing key in insertion order. |
| `Dicts.CountAtMostTotal` | microview/parse_taxonomy.py:71 | Any key's count is at most `Counter.total()`. |
| `Dicts.TotalUpdate` | microview/parse_taxonomy.py:41 | Replacing one item changes the total by the difference of the counts. |
| `Dicts.TotalConcat` | microview/parse_taxonomy.py:73 | The total of a concatenation is the sum of the totals. |
| `Paths.JoinPath` | microview/file_finder.py:92 | `joinpath` keeps the joined path's name. The result has at least as many components. |
| `Paths.JoinNameParent` | microview/file_finder.py:92 | Joining a bare file name onto a directory keeps the name, and its parent is the directory. |
| `TaxonPath.Split` | microview/parse_taxonomy.py:27 | `split(";")` gives at least one piece, and no piece contains `;`. |
| `TaxonPath.JoinSplit` | microview/parse_taxonomy.py:27 | Joining the pieces of a split with `;` gives the original string back. |
| `TaxonPath.SplitJoin` | microview/parse_taxonomy.py:27 | Splitting a `;`-join of `;`-free pieces gives the pieces back. |
| `TaxonPath.NonEmpty` | microview/parse_taxonomy.py:27 | `filter(None, ...)` keeps exactly the non-empty pieces: a string is kept iff it is a non-empty input piece. A non-empty last piece stays last. |
| `TaxonPath.NonEmptyConcat` | microview/parse_taxonomy.py:27 | Filtering works piece by piece: the filter of a concatenation is the concatenation of the filters, and a single piece is kept iff it is non-empty. This fixes the result exactly, so the kept pieces keep their order and repetitions. |
| `TaxonPath.LastPieceIsSuffix` | microview/parse_taxonomy.py:27 | The last piece of a split is the suffix after the last `;`. |
| `TaxonPath.TaxonKeyStep` | microview/parse_taxonomy.py:27 | A trailing `;` does not change the key. Without one, the key is the last piece. |
| `TaxonPath.TaxonKeySpec` | microview/parse_taxonomy.py:27 | About `TaxonPath.TaxonKey`, the model of taking the last non-empty `;`-piece of a taxon name. The key fails (IndexError) iff the path is all `;`. Otherwise the key is non-empty, `;`-free, and is the last run of non-`;` characters: preceded by `;` or the start, followed by `;` only. |
| `TaxonPath.TaxonKeyTrailingSeparator` | microview/parse_taxonomy.py:27 | The same characterisation for a path that ends in `;`. |
| `TaxonPath.TaxonKeySkipsTrailingSeparator` | microview/parse_taxonomy.py:27 | `"A;B;"` is keyed by `"B"`. |
| `TaxonPath.TaxonKeyOnlySeparators` | microview/parse_taxonomy.py:27 | `";;"` raises IndexError. |
| `ParseTaxonomy.RouteRow` | microview/parse_taxonomy.py:22-28 | A row goes to `unclassified` iff its name is exactly `"unclassified"`. It goes to `cannot be assigned` iff it is not that and starts with `"cannot"`. Otherwise it goes to the assigned taxon with the extracted key, or raises IndexError iff the name is all `;`. |
| `ParseTaxonomy.Place` | microview/parse_taxonomy.py:23-28 | Storing a row dictionary in a slot overwrites that slot and leaves every other slot as it was. |
| `ParseTaxonomy.ParseRowsFromFacts` | microview/parse_taxonomy.py:19-28 | Parsing rows succeeds iff every row routes. Each slot holds the row dictionary of the last row routed to it (later rows overwrite, they do not add). Slots no row reaches keep their earlier value. |
| `ParseTaxonomy.ParseRowsFacts` | microview/parse_taxonomy.py:17-28 | The same, from the empty sample `{"assigned": {}}`: exactly the slots some row reaches are present. |
| `ParseTaxonomy.ParseFilesFromOk` | microview/parse_taxonomy.py:13-28 | Parsing files succeeds iff every file's rows parse. The only error is IndexError. |
| `ParseTaxonomy.ParseFilesFromKeys` | microview/parse_taxonomy.py:16-17 | The samples are the earlier ones plus the files' names. |
| `ParseTaxonomy.ParseFilesFromValues` | microview/parse_taxonomy.py:16-28 | Each name holds the parse of the last file with that name. Other samples are untouched. |
| `ParseTaxonomy.ParseKaiju2TableFacts` | microview/parse_taxonomy.py:10-30 | About `ParseTaxonomy.ParseKaiju2TableSpec`, the model of `parse_kaiju2table`. `parse_kaiju2table` succeeds iff every row of every file routes. The samples are exactly the file names, each parsed from the last file of that name. |
| `ParseTaxonomy.ParseKaiju2Table` | microview/parse_taxonomy.py:10-30 | The nested loop, with early exit on the first unroutable row, computes `ParseKaiju2TableSpec`. |
| `ParseTaxonomy.AddReadsFromFacts` | microview/parse_taxonomy.py:40-43 | Adding a dictionary of rows into a Counter adds each name's reads to its count, adds the names as keys, and adds the summed reads to the total. |
| `ParseTaxonomy.SampleCountsFacts` | microview/parse_taxonomy.py:36-43 | About `ParseTaxonomy.SampleCounts`, the model of one sample's Counter in `get_taxon_counts`. A sample's Counter has the keys of its taxa and categories. A name's count is its taxon reads plus its category reads. The total is all assigned reads plus all category reads. |
| `ParseTaxonomy.CountSample` | microview/parse_taxonomy.py:37-43 | The two inner loops build `SampleCounts`. |
| `ParseTaxonomy.GetTaxonCounts` | microview/parse_taxonomy.py:33-45 | `get_taxon_counts` keeps the samples in order and gives each its Counter. |
| `ParseTaxonomy.PercentFacts` | microview/parse_taxonomy.py:61-63 | For a positive total, the two shares add to exactly 100 and each lies in [0, 100]. |
| `ParseTaxonomy.SampleAssignment` | microview/parse_taxonomy.py:51-63 | It fails iff a category is missing (KeyError, `cannot be assigned` first) or the total is zero (ZeroDivisionError). Otherwise assigned% + unassigned% = 100, both lie in [0, 100], and assigned% times the total is 100 times the assigned reads. |
| `ParseTaxonomy.BuildTaxonomyStats` | microview/parse_taxonomy.py:48-65 | The loop computes every sample's statistics in order. The first failing sample decides the error. |
| `CommonTaxa.InsertPos` | microview/parse_taxonomy.py:72 | The insertion point of an item is after every strictly larger count and before the first count not larger. |
| `CommonTaxa.SortByCount` | microview/parse_taxonomy.py:72 | Sorting keeps the length. |
| `CommonTaxa.InsertSorted` | microview/parse_taxonomy.py:72 | Inserting into a descending sequence keeps it descending. |
| `CommonTaxa.InsertItems` | microview/parse_taxonomy.py:72 | Inserting adds exactly that item: multiset and total. |
| `CommonTaxa.SortByCountFacts` | microview/parse_taxonomy.py:72 | The sort is descending by count and a permutation with the same total. |
| `CommonTaxa.InsertUnique` | microview/parse_taxonomy.py:72 | Inserting a new key keeps the keys unique. |
| `CommonTaxa.SortByCountUnique` | microview/parse_taxonomy.py:72 | Sorting a Counter keeps its keys unique. |
| `CommonTaxa.MostCommon` | microview/parse_taxonomy.py:72 | `most_common(n)` has min(n, number of keys) items. |
| `CommonTaxa.MostCommonFacts` | microview/parse_taxonomy.py:72-73 | The selected items are items of the Counter, in descending order. Every unselected key has a count no larger than any selected count. The selected counts add to at most the total, so `other` is a natural number. |
| `CommonTaxa.MostCommonTotal` | microview/parse_taxonomy.py:73 | The selected counts add to at most `Counter.total()`. |
| `CommonTaxa.MostCommonItemAt` | microview/parse_taxonomy.py:72 | A selected item holds its key's count in the Counter. |
| `CommonTaxa.MostCommonItem` | microview/parse_taxonomy.py:72 | Every item of the sorted Counter is an item of the Counter. |
| `CommonTaxa.MostCommonDominates` | microview/parse_taxonomy.py:72 | A key outside the selection has a count at most any selected one. |
| `CommonTaxa.Percentages` | microview/parse_taxonomy.py:74 | The comprehension keeps the selected keys in order and gives each `(v / total) * 100`. |
| `CommonTaxa.TotalPercentAppend` | microview/parse_taxonomy.py:75 | Appending an entry adds its percentage to the sum. |
| `CommonTaxa.PercentagesSum` | microview/parse_taxonomy.py:74 | The percentages of the selected items add to the percentage of their summed counts. |
| `CommonTaxa.PercentTableKeys` | microview/parse_taxonomy.py:74-75 | The table holds `other` and, besides it, exactly the selected keys. |
| `CommonTaxa.PercentTableValues` | microview/parse_taxonomy.py:74-75 | Each selected key holds its share of the total. `other` holds the share no selected item accounts for. |
| `CommonTaxa.PercentTableBounds` | microview/parse_taxonomy.py:73-75 | Every entry of the table lies in [0, 100], the `other` bucket included. |
| `CommonTaxa.PercentTableSum` | microview/parse_taxonomy.py:73-75 | When `other` is not a selected key, the table adds to exactly 100. |
| `CommonTaxa.SampleCommonTaxaKeys` | microview/parse_taxonomy.py:71-75 | About `CommonTaxa.SampleCommonTaxa`, the model of one sample's entry of `get_common_taxas`. A sample's entry fails (ZeroDivisionError) iff it has no reads. Otherwise it has at most 8 keys: `other` and the keys of `most_common(7)`. |
| `CommonTaxa.SampleCommonTaxaValues` | microview/parse_taxonomy.py:71-75 | Each selected taxon holds its count's percentage of the sample total. `other` holds the percentage of the unselected reads. |
| `CommonTaxa.SampleCommonTaxaBounds` | microview/parse_taxonomy.py:74-75 | Every value of a sample's entry lies in [0, 100]. |
| `CommonTaxa.SampleCommonTaxaSum` | microview/parse_taxonomy.py:73-75 | With no selected taxon named `other`, the entry adds to exactly 100. |
| `CommonTaxa.SampleCommonTaxaOtherCollision` | microview/parse_taxonomy.py:74-75 | A selected taxon named `other` is overwritten. A single taxon `other` holding all reads is reported as 0 percent, so the sum is not 100. |
| `CommonTaxa.GetCommonTaxas` | microview/parse_taxonomy.py:68-76 | The loop computes every sample's entry in order. The first sample without reads raises. |
| `Richness.AppendNew` | microview/parse_taxonomy.py:80 | Extending a column list with new taxa keeps it duplicate-free and holds exactly the old and the new names. |
| `Richness.TaxaUnionFrom` | microview/parse_taxonomy.py:80 | The columns of the count matrix are duplicate-free and are exactly the taxa of some sample. |
| `Richness.ZeroFilled` | microview/parse_taxonomy.py:80 | `fillna(0)`: a sample's row has its count in each column, 0 where it lacks the taxon. |
| `Richness.CountNonzeroCard` | microview/parse_taxonomy.py:89 | `count_nonzero` of a row over distinct columns is the number of columns whose taxon has a nonzero count. |
| `Richness.RichnessFacts` | microview/parse_taxonomy.py:80-89 | About `Richness.Richness`, the model of the `taxa_n` column. `taxa_n` of each sample is the number of its nonzero Counter entries, the `unclassified` and `cannot be assigned` categories included (they become matrix columns too). The zero-filled columns of other samples add nothing, and the samples stay in order. |
| `TaxData.GetTaxData` | microview/parse_taxonomy.py:99-109 | The pipeline method computes `TaxDataSpec`: parse, count, statistics, common taxa, richness, with the first exception winning. |
| `TaxData.AssignedSampleHasReads` | microview/parse_taxonomy.py:52-61 | A sample whose assignment statistics succeed has a positive Counter total. |
| `TaxData.TaxDataFacts` | microview/parse_taxonomy.py:99-123 | About `TaxData.TaxDataSpec`, the model of `get_tax_data`. `get_tax_data` succeeds iff parsing and the assignment statistics succeed; the common-taxa step cannot then fail. All three tables cover the same samples, the report names, in the same order. |
| `FileFinder.ValidateAgainstSchema` | microview/file_finder.py:10-21 | The validation record is about the table that was validated. |
| `FileFinder.AllDuplicateLabelMeans` | microview/file_finder.py:25-28 | The element-by-element `all(...)` holds iff every message code is `duplicate-label`, and so holds for no messages. |
| `FileFinder.IsKrakenReport` | microview/file_finder.py:24-30 | True iff the error count is 0 or every message code is `duplicate-label`. |
| `FileFinder.CheckSourceTableValidation` | microview/file_finder.py:33-42 | Raises (SourceTableSchemaError) iff the error count is positive. Otherwise it passes. |
| `FileFinder.Validated` | microview/file_finder.py:47-50 | One validation record per path, in order. |
| `FileFinder.SelectedFacts` | microview/file_finder.py:51-55 | A report comprehension keeps exactly the accepted records, at increasing positions, in input order. |
| `FileFinder.KaijuSelection` | microview/file_finder.py:47-55 | The Kaiju reports are exactly the paths with 0 Kaiju-schema errors, in input order. |
| `FileFinder.KrakenSelection` | microview/file_finder.py:59-69 | The Kraken reports are exactly the paths the six-column check passes under `is_kraken_report`, in input order. |
| `FileFinder.SelectionEmpty` | microview/file_finder.py:56 | An in-order selection is empty iff it selects no position. |
| `FileFinder.DetectReportTypeOutcome` | microview/file_finder.py:45-79 | About `FileFinder.DetectReportType`, the model of `detect_report_type`. Detection fails (NoValidReports) iff no path passes either test. It reports Kaiju iff some path passes the Kaiju schema. |
| `FileFinder.DetectReportTypeSelection` | microview/file_finder.py:45-79 | A successful detection is a nonempty in-order subsequence of the input: exactly the paths that pass the reported type's test. Kraken is reported only when no path passes the Kaiju schema. |
| `FileFinder.KrakenNotConsulted` | microview/file_finder.py:56-79 | When some path passes the Kaiju schema, the result is Kaiju and does not depend on the Kraken check at all. |
| `FileFinder.DetectSingleKaiju` | tests/test_file_finder.py:18-24 | A single path that passes the Kaiju schema is returned as `kaiju`. |
| `FileFinder.DetectSingleKraken` | tests/test_file_finder.py:9-15 | A single path that fails the Kaiju schema but passes the Kraken test is returned as `kraken`; the Centrifuge test at tests/test_file_finder.py:27-33 is the same case. |
| `FileFinder.Rebased` | microview/file_finder.py:91-93 | Each sample path is joined onto the source table's parent, in order. |
| `FileFinder.RebasedIfPresent` | microview/file_finder.py:91-98 | The second stage succeeds iff every rebased path exists, and then returns them; otherwise it raises MissingSampleFile. |
| `FileFinder.ValidatePathsAsWrittenIdentity` | microview/file_finder.py:88-100 | About `FileFinder.ValidatePathsAsWritten`, the model of `validate_paths` as written. As written, `validate_paths` returns its input unchanged for every input and filesystem. |
| `FileFinder.ValidatePathsMissingFileAccepted` | microview/file_finder.py:90 | A sample path that does not exist is accepted as written and rejected by the intended check. |
| `FileFinder.ValidatePaths` | microview/file_finder.py:88-100 | As intended: the paths come back unchanged if all exist. Otherwise the rebased paths come back if all of those exist, and MissingSampleFile is raised if not. |
| `FileFinder.ValidatePathsFacts` | microview/file_finder.py:88-100 | Every returned path exists, one per sample, each the sample path or its rebased form. The only failure is MissingSampleFile, exactly when both stages find a missing path. |
| `FileFinder.ParseSourceTableFacts` | microview/file_finder.py:103-121 | About `FileFinder.ParseSourceTable`, the model of `parse_source_table` with the intended `validate_paths`. For the corrected chain (over the intended `FileFinder.ValidatePaths`), a source table with schema errors is rejected first. A parsed one names at least one existing report, each one of its samples as given or rebased. |
| `FileFinder.ParseSourceTableAsWrittenFacts` | microview/file_finder.py:88-121 | About `FileFinder.ParseSourceTableAsWritten`, the model of `parse_source_table` as written. The chain as written (line 113 calling the line-90 `validate_paths`): schema errors are rejected first. The result does not depend on what exists on disk. MissingSampleFile is never raised. With a valid schema it fails (NoValidReports) iff no sample passes a report test. Otherwise its reports are a nonempty in-order selection of the sample paths as given, never rebased. |
| `Fixtures.TaxonCountsFixture` | tests/test_parse_taxonomy.py:12-17 | On the fixture, sample1 counts 5 reads of tax1 and sample2 10 of tax2. |
| `Fixtures.TaxonomyStatsFixture` | tests/test_parse_taxonomy.py:20-25 | sample2 is 93.75 % assigned and 6.25 % unassigned. |
| `Fixtures.TaxonomyStatsFixtureWithoutDefaults` | microview/parse_taxonomy.py:56-59 | Without the default-dictionary rows, the fixture raises KeyError on `cannot be assigned`. |
| `Fixtures.CommonTaxaFixture` | tests/test_parse_taxonomy.py:28-32 | sample2's tax2 holds exactly 200/3 percent and `other` is 0. The test expects 66.67, which the unrounded value is not. |
| `Fixtures.RichnessFixture` | tests/conftest.py:28-35 | The richness of the counts fixture is 1 for sample1 and 2 for sample2. |

## Left out

- **Table reading.** `pd.read_table`, the `"None"` to NaN replacement
  (`microview/parse_taxonomy.py:14`) and `pd.read_csv`
  (`microview/file_finder.py:109`) are table I/O. Report rows and the
  source table's `sample` column are given as inputs.
- **Schema validation.** The frictionless `validate` call and
  `report.flatten` (`microview/file_finder.py:12-20`) are a foreign
  library. They are the `Validator` oracle. Existence on disk is the
  `ExistsOracle` parameter.
- **Diversity.** Shannon diversity and Pielou evenness
  (`microview/parse_taxonomy.py:83-87,91-94`) are floating-point calls
  into scikit-bio and `log`. Only the richness column is modelled.
- **DataFrame reshaping.** The transposing, `reset_index` and `melt` steps
  of `calculate_abund_diver` and `get_tax_data` are dropped. Their tables
  are kept as dictionaries keyed by sample; the column order of the count
  matrix does not affect richness.
- **Report globbing.** `find_reports` (`microview/file_finder.py:82-85`) is
  directory globbing.
- **Console output and exception messages.** `console.print` is not
  modelled. An exception is an error value; its message text is not
  modelled.
- **Path resolution.** `Path.resolve()`, used by
  tests/test_file_finder.py:52-57, is not modelled.
- **Not modelled.** Plotting, HTML rendering, the CLI and templates are
  not part of this model, and neither is beta diversity.
- **Source-table validation tests.** tests/test_file_finder.py:36-49
  call a `get_validation_dict` helper, imported at
  tests/test_file_finder.py:3, that `microview/file_finder.py` does not
  define. Their error-count conditions are covered by
  `FileFinder.CheckSourceTableValidation`.
- **Float rounding.** Percentages are exact rationals. The Python floats
  may differ in the last bits.
- CommonTaxa.SortByCountFacts: proves descending order and permutation
  of `most_common`, but not that equal counts keep insertion order. The
  definition does keep that order.

## Findings

| source | as written | input that shows it | evidently intended | confidence | as-written member | corrected member |
|---|---|---|---|---|---|---|
| microview/file_finder.py:90 | `all(sample_path.exists for ...)` tests the bound method, which is always truthy, so the first test never fails and the paths come back unchanged | a sample path `sample1.tsv` that exists neither by itself nor next to `data/contrast.csv`: it is returned instead of rebased or rejected | call `sample_path.exists()`, then fall back to paths under the source table's directory and raise if one is missing | not executed | `FileFinder.ValidatePathsAsWritten` (shown by `FileFinder.ValidatePathsMissingFileAccepted`) | `FileFinder.ValidatePaths` (used by `FileFinder.ParseSourceTable`) |
