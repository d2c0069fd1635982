// `get_tax_data`: the taxonomy pipeline from parsed reports to the three
// per-sample tables (read assignment, most common taxa, richness).

module TaxData {
  import opened Results
  import opened Dicts
  import opened ParseTaxonomy
  import opened CommonTaxa
  import Richness

  /** The three per-sample tables, before their reshaping into data frames. */
  datatype TaxData = TaxData(
    nReads: Dict<AssignmentStats>,
    commonTaxa: Dict<Dict<real>>,
    richness: Dict<nat>)

  /** The pipeline in the order the source runs it: parse, count, assignment
      statistics, most common taxa, richness. The first step that raises
      decides the error. */
  function TaxDataSpec(files: seq<ReportFile>): Result<TaxData> {
    var parsed := ParseKaiju2TableSpec(files);
    if parsed.Err? then Err(parsed.error)
    else
      var counts := MapValues(parsed.value, SampleCounts);
      var stats := TryMapValues(parsed.value, SampleAssignment);
      if stats.Err? then Err(stats.error)
      else
        var common := TryMapValues(counts, SampleCommonTaxa);
        if common.Err? then Err(common.error)
        else Ok(TaxData(stats.value, common.value, Richness.Richness(counts)))
  }

  /** `get_tax_data(paths)`, with each report's rows given. */
  method GetTaxData(files: seq<ReportFile>) returns (r: Result<TaxData>)
    ensures r == TaxDataSpec(files)
  {
    var parsedStats := ParseKaiju2Table(files);
    if parsedStats.Err? {
      return Err(parsedStats.error);
    }
    var allSampleCounts := GetTaxonCounts(parsedStats.value);
    var nReads := BuildTaxonomyStats(parsedStats.value);
    if nReads.Err? {
      return Err(nReads.error);
    }
    var mostCommon := GetCommonTaxas(allSampleCounts);
    if mostCommon.Err? {
      return Err(mostCommon.error);
    }
    var abundDiv := Richness.Richness(allSampleCounts);
    return Ok(TaxData(nReads.value, mostCommon.value, abundDiv));
  }

  /** A sample whose assignment statistics exist has reads in its Counter. */
  lemma AssignedSampleHasReads(s: SampleStats)
    requires SampleAssignment(s).Ok?
    ensures Total(SampleCounts(s)) > 0
  {
    SampleCountsFacts(s);
    if SumReads(s.taxa) == 0 {
      var k := if Reads(s.categories, CannotBeAssigned) > 0 then CannotBeAssigned else Unclassified;
      CountAtMostTotal(SampleCounts(s), k);
    }
  }

  /** Once the assignment statistics succeed, the most-common step cannot
      raise, so the pipeline fails exactly when parsing fails (IndexError)
      or a sample lacks a category or reads; on success every table covers
      the same samples, one per report name, in the same order. */
  lemma TaxDataFacts(files: seq<ReportFile>)
    ensures TaxDataSpec(files).Ok? <==>
              ParseKaiju2TableSpec(files).Ok? && TryMapValues(ParseKaiju2TableSpec(files).value, SampleAssignment).Ok?
    ensures TaxDataSpec(files).Err? && ParseKaiju2TableSpec(files).Err? ==> TaxDataSpec(files).error == IndexError
    ensures TaxDataSpec(files).Ok? ==>
              var t := TaxDataSpec(files).value;
              var names := Keys(ParseKaiju2TableSpec(files).value);
              && Keys(t.nReads) == names
              && Keys(t.commonTaxa) == names
              && Keys(t.richness) == names
              && forall k :: k in names <==> exists i :: 0 <= i < |files| && SampleName(files[i]) == k
  {
    ParseKaiju2TableFacts(files);
    var parsed := ParseKaiju2TableSpec(files);
    if parsed.Ok? {
      var counts := MapValues(parsed.value, SampleCounts);
      if TryMapValues(parsed.value, SampleAssignment).Ok? {
        forall i | 0 <= i < |counts| ensures SampleCommonTaxa(counts[i].1).Ok? {
          AssignedSampleHasReads(parsed.value[i].1);
          SampleCommonTaxaKeys(counts[i].1);
        }
        Richness.RichnessFacts(counts);
      }
      forall k ensures k in Keys(parsed.value) <==> Has(parsed.value, k) {
      }
    }
  }
}
