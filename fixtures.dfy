// The repository's test fixtures, and the values the model computes on
// them.

module Fixtures {
  import opened Results
  import opened Dicts
  import opened ParseTaxonomy
  import opened CommonTaxa
  import Richness

  /** The parsed statistics fixture: sample1 with one taxon, sample2 with
      two taxa and one unclassified read. */
  function ParsedStats(): Dict<SampleStats> {
    [ ("sample1", SampleStats([("tax1", RowStats(5, 1.0))], [])),
      ("sample2", SampleStats([("tax1", RowStats(5, 0.33)), ("tax2", RowStats(10, 0.66))],
                              [(Unclassified, RowStats(1, 0.01))])) ]
  }

  /** The same fixture with the categories its default dictionary supplies
      on lookup written out as zero rows. */
  function ParsedStatsWithDefaults(): Dict<SampleStats> {
    [ ("sample1", SampleStats([("tax1", RowStats(5, 1.0))],
                              [(CannotBeAssigned, RowStats(0, 0.0)), (Unclassified, RowStats(0, 0.0))])),
      ("sample2", SampleStats([("tax1", RowStats(5, 0.33)), ("tax2", RowStats(10, 0.66))],
                              [(CannotBeAssigned, RowStats(0, 0.0)), (Unclassified, RowStats(1, 0.01))])) ]
  }

  /** The sample counts fixture. */
  function AllSampleCounts(): Dict<Counter> {
    [ ("sample1", [("tax1", 5)]),
      ("sample2", [("tax1", 5), ("tax2", 10)]) ]
  }

  /** A reads dictionary's count of a name is its own reads. */
  lemma CountOfOwnReads(s: SampleStats, i: nat, k: string)
    requires i < |s.taxa| && s.taxa[i].0 == k && !Has(s.categories, k)
    ensures Count(SampleCounts(s), k) == s.taxa[i].1.nReads
  {
    SampleCountsFacts(s);
    GetAt(s.taxa, i);
  }

  /** sample1 counts 5 reads of tax1 and sample2 10 reads of tax2. */
  lemma TaxonCountsFixture()
    ensures var counts := MapValues(ParsedStats(), SampleCounts);
            && Keys(counts) == ["sample1", "sample2"]
            && Count(counts[0].1, "tax1") == 5
            && Count(counts[1].1, "tax2") == 10
  {
    var parsed := ParsedStats();
    assert Keys(parsed) == ["sample1", "sample2"];
    assert Keys(parsed[0].1.categories) == [];
    CountOfOwnReads(parsed[0].1, 0, "tax1");
    assert Keys(parsed[1].1.categories) == [Unclassified];
    CountOfOwnReads(parsed[1].1, 1, "tax2");
  }

  /** sample2 is 93.75 percent assigned and 6.25 percent unassigned. */
  lemma TaxonomyStatsFixture()
    ensures var stats := TryMapValues(ParsedStatsWithDefaults(), SampleAssignment);
            && stats.Ok?
            && Keys(stats.value) == ["sample1", "sample2"]
            && stats.value[1].1 == AssignmentStats(93.75, 6.25)
  {
    var s0 := ParsedStatsWithDefaults()[0].1;
    assert SumReads(s0.taxa) == 5;
    GetAt(s0.categories, 0);
    GetAt(s0.categories, 1);
    assert SampleAssignment(s0).Ok?;
    var s := ParsedStatsWithDefaults()[1].1;
    assert SumReads(s.taxa) == 15;
    GetAt(s.categories, 0);
    GetAt(s.categories, 1);
    assert Percent(15, 16) == 93.75;
    assert Percent(1, 16) == 6.25;
    assert SampleAssignment(s).Ok?;
  }

  /** Without the default categories the real parser's output would lack,
      the same samples raise a KeyError. */
  lemma TaxonomyStatsFixtureWithoutDefaults()
    ensures TryMapValues(ParsedStats(), SampleAssignment) == Err(KeyError(CannotBeAssigned))
  {
    assert Keys(ParsedStats()[0].1.categories) == [];
  }

  /** sample2's tax2 holds 200/3 percent of its reads (about 66.67), and
      nothing is left for the other bucket. */
  lemma CommonTaxaFixture()
    ensures var common := TryMapValues(AllSampleCounts(), SampleCommonTaxa);
            && common.Ok?
            && Keys(common.value) == ["sample1", "sample2"]
            && Has(common.value[1].1, "tax2")
            && Get(common.value[1].1, "tax2") == 200.0 / 3.0
            && Get(common.value[1].1, Other) == 0.0
  {
    var c := AllSampleCounts()[1].1;
    assert Total(c) == 15;
    assert Total(AllSampleCounts()[0].1) == 5;
    assert InsertPos(c[1], []) == 0;
    assert SortByCount(c[1..]) == [c[1]];
    assert InsertPos(c[0], [c[1]]) == 1;
    assert SortByCount(c) == [c[1], c[0]];
    var top := MostCommon(c, TopTaxa);
    assert top == [c[1], c[0]];
    assert Total(top) == 15;
    SampleCommonTaxaKeys(c);
    SampleCommonTaxaValues(c);
    assert Has(top, "tax2") by {
      assert Keys(top)[0] == "tax2";
    }
    assert Count(c, "tax2") == 10 by {
      GetAt(c, 1);
    }
    assert Percent(10, 15) == 200.0 / 3.0;
    assert Percent(0, 15) == 0.0;
  }

  lemma ObservedOne(c: Counter)
    requires c == [("tax1", 5)]
    ensures Richness.ObservedTaxa(c) == {"tax1"}
  {
    GetAt(c, 0);
    assert Keys(c) == ["tax1"];
  }

  lemma ObservedTwo(c: Counter)
    requires c == [("tax1", 5), ("tax2", 10)]
    ensures Richness.ObservedTaxa(c) == {"tax1", "tax2"}
  {
    GetAt(c, 0);
    GetAt(c, 1);
    assert Keys(c) == ["tax1", "tax2"];
  }

  /** sample1 observed one taxon and sample2 two. */
  lemma RichnessFixture()
    ensures Keys(Richness.Richness(AllSampleCounts())) == ["sample1", "sample2"]
    ensures Richness.Richness(AllSampleCounts())[0].1 == 1
    ensures Richness.Richness(AllSampleCounts())[1].1 == 2
  {
    var counts := AllSampleCounts();
    Richness.RichnessFacts(counts);
    ObservedOne(counts[0].1);
    ObservedTwo(counts[1].1);
  }
}
