// Richness (`taxa_n`) of `calculate_abund_diver`: the per-sample Counters
// are laid out as a sample-by-taxon matrix over the union of every
// sample's taxa, missing cells filled with 0, and each sample's row
// counts its nonzero cells.

module Richness {
  import opened Dicts

  predicate Distinct(s: seq<string>) {
    forall i, j :: 0 <= i < j < |s| ==> s[i] != s[j]
  }

  /** `acc` followed by the members of `ks` it does not hold yet, in order. */
  function AppendNew(acc: seq<string>, ks: seq<string>): (r: seq<string>)
    requires Distinct(acc)
    ensures Distinct(r)
    ensures forall k :: k in r <==> k in acc || k in ks
    decreases |ks|
  {
    if ks == [] then acc
    else if ks[0] in acc then AppendNew(acc, ks[1..])
    else AppendNew(acc + [ks[0]], ks[1..])
  }

  function TaxaUnionFrom(acc: seq<string>, counts: seq<(string, Counter)>): (cols: seq<string>)
    requires Distinct(acc)
    ensures Distinct(cols)
    ensures forall k :: k in cols <==> k in acc || exists i :: 0 <= i < |counts| && Has(counts[i].1, k)
    decreases |counts|
  {
    if counts == [] then acc
    else
      var cols := TaxaUnionFrom(AppendNew(acc, Keys(counts[0].1)), counts[1..]);
      assert forall k :: (exists i :: 0 <= i < |counts| && Has(counts[i].1, k)) <==>
                         Has(counts[0].1, k) || exists i :: 0 <= i < |counts[1..]| && Has(counts[1..][i].1, k) by {
        forall k | exists i :: 0 <= i < |counts| && Has(counts[i].1, k)
          ensures Has(counts[0].1, k) || exists i :: 0 <= i < |counts[1..]| && Has(counts[1..][i].1, k)
        {
          var i :| 0 <= i < |counts| && Has(counts[i].1, k);
          if i > 0 { assert counts[1..][i - 1] == counts[i]; }
        }
      }
      cols
  }

  /** The columns of `pd.DataFrame(sample_counts).T`: every taxon of every
      sample, each once. */
  function TaxaUnion(counts: Dict<Counter>): seq<string> {
    TaxaUnionFrom([], counts)
  }

  /** One row of the matrix after `fillna(0)`: the sample's count in each
      column, 0 where the sample lacks the taxon. */
  function ZeroFilled(c: Counter, cols: seq<string>): (row: seq<nat>)
    ensures |row| == |cols|
    ensures forall j :: 0 <= j < |cols| ==> row[j] == Count(c, cols[j])
  {
    seq(|cols|, j requires 0 <= j < |cols| => Count(c, cols[j]))
  }

  /** `np.count_nonzero` of one row. */
  function CountNonzero(row: seq<nat>): nat {
    if row == [] then 0 else (if row[0] != 0 then 1 else 0) + CountNonzero(row[1..])
  }

  /** `taxa_n` of every sample, keyed by sample in input order. */
  function Richness(counts: Dict<Counter>): Dict<nat> {
    var cols := TaxaUnion(counts);
    MapValues(counts, (c: Counter) => CountNonzero(ZeroFilled(c, cols)))
  }

  /** The taxa a sample actually observed: present with a nonzero count. */
  function ObservedTaxa(c: Counter): set<string> {
    set k | k in Keys(c) && Count(c, k) != 0
  }

  /** The columns whose taxon the sample observed. */
  function NonzeroIn(c: Counter, cols: seq<string>): set<string> {
    set k | k in cols && Count(c, k) != 0
  }

  lemma NonzeroInCons(c: Counter, cols: seq<string>)
    requires cols != []
    ensures NonzeroIn(c, cols) == NonzeroIn(c, cols[1..]) + (if Count(c, cols[0]) != 0 then {cols[0]} else {})
  {
    assert forall k :: k in cols <==> k == cols[0] || k in cols[1..];
  }

  /** Counting the nonzero cells of a row over distinct columns counts the
      columns whose taxon the sample observed. */
  lemma {:induction false} CountNonzeroCard(c: Counter, cols: seq<string>)
    requires Distinct(cols)
    ensures CountNonzero(ZeroFilled(c, cols)) == |NonzeroIn(c, cols)|
  {
    if cols != [] {
      var rest := cols[1..];
      assert ZeroFilled(c, cols)[1..] == ZeroFilled(c, rest);
      CountNonzeroCard(c, rest);
      NonzeroInCons(c, cols);
      assert cols[0] !in NonzeroIn(c, rest);
    }
  }

  /** Every sample's richness is the number of taxa it observed: the zero
      filling over the other samples' taxa adds nothing to the count, and
      the samples are those of the input, in order. */
  lemma RichnessFacts(counts: Dict<Counter>)
    ensures Keys(Richness(counts)) == Keys(counts)
    ensures forall i :: 0 <= i < |counts| ==> Richness(counts)[i].1 == |ObservedTaxa(counts[i].1)|
  {
    var cols := TaxaUnion(counts);
    forall i | 0 <= i < |counts| ensures Richness(counts)[i].1 == |ObservedTaxa(counts[i].1)| {
      var c := counts[i].1;
      CountNonzeroCard(c, cols);
      var inCols := NonzeroIn(c, cols);
      forall k | k in ObservedTaxa(c) ensures k in inCols {
        assert Has(counts[i].1, k);
      }
      forall k | k in inCols ensures k in ObservedTaxa(c) {
        assert Has(c, k);
      }
      assert inCols == ObservedTaxa(c);
    }
  }
}
