/** `get_common_taxas`: per sample, the percentages of the seven most
    abundant taxa and of everything else. */
module CommonTaxa {
  import opened Results
  import opened Dicts
  import opened ParseTaxonomy

  /** How many taxa `get_common_taxas` keeps. */
  const TopTaxa: nat := 7

  /** The key of the remainder bucket. */
  const Other: string := "other"

  function Min(a: nat, b: nat): nat {
    if a <= b then a else b
  }

  predicate SortedByCountDesc(s: seq<(string, nat)>) {
    forall i, j :: 0 <= i < j < |s| ==> s[i].1 >= s[j].1
  }

  /** Where `x` goes in `t`: before the first item whose count is not
      larger than its own. */
  function InsertPos(x: (string, nat), t: seq<(string, nat)>): (p: nat)
    ensures p <= |t|
    ensures forall j :: 0 <= j < p ==> t[j].1 > x.1
    ensures p < |t| ==> t[p].1 <= x.1
  {
    if t == [] || t[0].1 <= x.1 then 0 else 1 + InsertPos(x, t[1..])
  }

  function Insert(x: (string, nat), t: seq<(string, nat)>): seq<(string, nat)> {
    var p := InsertPos(x, t);
    t[..p] + [x] + t[p..]
  }

  /** The items of a Counter by count, largest first; items with equal
      counts keep their insertion order (the order `Counter.most_common`
      promises). */
  function SortByCount(s: seq<(string, nat)>): (r: seq<(string, nat)>)
    ensures |r| == |s|
  {
    if s == [] then [] else Insert(s[0], SortByCount(s[1..]))
  }

  /** Inserting into a sorted sequence keeps it sorted. */
  lemma InsertSorted(x: (string, nat), t: seq<(string, nat)>)
    requires SortedByCountDesc(t)
    ensures SortedByCountDesc(Insert(x, t))
  {
    var p := InsertPos(x, t);
    var r := t[..p] + [x] + t[p..];
    forall j | p <= j < |t| ensures t[j].1 <= x.1 {
      assert t[p].1 >= t[j].1;
    }
    forall i, j | 0 <= i < j < |r| ensures r[i].1 >= r[j].1 {
      if i < p && j > p {
        assert r[j] == t[j - 1];
      } else if i > p {
        assert r[i] == t[i - 1] && r[j] == t[j - 1];
      } else if i == p {
        assert r[j] == t[j - 1];
      }
    }
  }

  lemma InsertItems(x: (string, nat), t: seq<(string, nat)>)
    ensures multiset(Insert(x, t)) == multiset(t) + multiset{x}
    ensures Total(Insert(x, t)) == Total(t) + x.1
  {
    var p := InsertPos(x, t);
    assert t == t[..p] + t[p..];
    TotalConcat(t[..p] + [x], t[p..]);
    TotalConcat(t[..p], [x]);
    TotalConcat(t[..p], t[p..]);
  }

  /** The sort orders by count, keeps exactly the items it was given and
      so keeps the total. */
  lemma {:induction false} SortByCountFacts(s: seq<(string, nat)>)
    ensures SortedByCountDesc(SortByCount(s))
    ensures multiset(SortByCount(s)) == multiset(s)
    ensures Total(SortByCount(s)) == Total(s)
  {
    if s != [] {
      SortByCountFacts(s[1..]);
      InsertSorted(s[0], SortByCount(s[1..]));
      InsertItems(s[0], SortByCount(s[1..]));
      assert s == [s[0]] + s[1..];
    }
  }

  lemma InsertUnique(x: (string, nat), t: seq<(string, nat)>)
    requires UniqueKeys(t) && forall j :: 0 <= j < |t| ==> t[j].0 != x.0
    ensures UniqueKeys(Insert(x, t))
  {
    var p := InsertPos(x, t);
    var a, b := t[..p], t[p..];
    assert forall i :: 0 <= i < |a| ==> a[i] == t[i];
    assert forall i :: 0 <= i < |b| ==> b[i] == t[p + i];
    UniqueKeysConcat(a, [x]);
    var ax := a + [x];
    forall i, j | 0 <= i < |ax| && 0 <= j < |b| ensures ax[i].0 != b[j].0 {
      if i < |a| { assert ax[i] == t[i]; }
    }
    UniqueKeysConcat(ax, b);
  }

  /** Sorting a Counter gives a Counter: no key appears twice. */
  lemma {:induction false} SortByCountUnique(s: seq<(string, nat)>)
    requires UniqueKeys(s)
    ensures UniqueKeys(SortByCount(s))
  {
    if s != [] {
      var rest := s[1..];
      SortByCountUnique(rest);
      SortByCountFacts(rest);
      var t := SortByCount(rest);
      var x := s[0];
      forall j | 0 <= j < |t| ensures t[j].0 != x.0 {
        assert t[j] in multiset(rest);
        var m :| 0 <= m < |rest| && rest[m] == t[j];
        assert s[m + 1] == t[j];
      }
      InsertUnique(x, t);
    }
  }

  /** `counter.most_common(n)`: the first `n` items by count. */
  function MostCommon(c: Counter, n: nat): (top: Counter)
    ensures |top| == Min(n, |c|)
  {
    SortByCountUnique(c);
    SortByCount(c)[..Min(n, |c|)]
  }

  /** The selected items are items of the Counter, largest first; every
      unselected key has a count no larger than any selected one; the
      selected counts add up to at most the total. */
  lemma MostCommonFacts(c: Counter, n: nat)
    ensures SortedByCountDesc(MostCommon(c, n))
    ensures forall i :: 0 <= i < |MostCommon(c, n)| ==>
              Has(c, MostCommon(c, n)[i].0) && Count(c, MostCommon(c, n)[i].0) == MostCommon(c, n)[i].1
    ensures forall k, i :: Has(c, k) && !Has(MostCommon(c, n), k) && 0 <= i < |MostCommon(c, n)| ==>
              Count(c, k) <= MostCommon(c, n)[i].1
    ensures Total(MostCommon(c, n)) <= Total(c)
  {
    SortByCountFacts(c);
    SortByCountUnique(c);
    var sorted := SortByCount(c);
    var top := MostCommon(c, n);
    forall i | 0 <= i < |top| ensures Has(c, top[i].0) && Count(c, top[i].0) == top[i].1 {
      MostCommonItemAt(c, n, i);
    }
    forall k, i | Has(c, k) && !Has(top, k) && 0 <= i < |top| ensures Count(c, k) <= top[i].1 {
      MostCommonDominates(c, sorted, top, k, i);
    }
    MostCommonTotal(c, n);
  }

  lemma MostCommonTotal(c: Counter, n: nat)
    ensures Total(MostCommon(c, n)) <= Total(c)
  {
    SortByCountFacts(c);
    var sorted := SortByCount(c);
    var top := MostCommon(c, n);
    assert sorted == top + sorted[|top|..];
    TotalConcat(top, sorted[|top|..]);
  }

  lemma MostCommonItemAt(c: Counter, n: nat, i: nat)
    requires i < |MostCommon(c, n)|
    ensures Has(c, MostCommon(c, n)[i].0) && Count(c, MostCommon(c, n)[i].0) == MostCommon(c, n)[i].1
  {
    SortByCountFacts(c);
    MostCommonItem(c, SortByCount(c), MostCommon(c, n)[i]);
  }

  lemma MostCommonItem(c: Counter, sorted: seq<(string, nat)>, x: (string, nat))
    requires multiset(sorted) == multiset(c) && x in sorted
    ensures Has(c, x.0) && Count(c, x.0) == x.1
  {
    assert x in multiset(c);
    var j :| 0 <= j < |c| && c[j] == x;
    GetAt(c, j);
  }

  lemma MostCommonDominates(c: Counter, sorted: seq<(string, nat)>, top: seq<(string, nat)>, k: string, i: nat)
    requires SortedByCountDesc(sorted) && multiset(sorted) == multiset(c)
    requires UniqueKeys(top) && |top| <= |sorted| && top == sorted[..|top|]
    requires Has(c, k) && !Has(top, k) && i < |top|
    ensures Count(c, k) <= top[i].1
  {
    var j := IndexOf(c, k);
    assert c[j] in multiset(sorted);
    var m :| 0 <= m < |sorted| && sorted[m] == c[j];
  }

  /** `{k: (v / total) * 100 for k, v in top}` */
  function Percentages(top: seq<(string, nat)>, total: nat): (r: seq<(string, real)>)
    requires total > 0
    ensures Keys(r) == Keys(top)
    ensures forall i :: 0 <= i < |top| ==> r[i].1 == Percent(top[i].1, total)
  {
    if top == [] then [] else [(top[0].0, Percent(top[0].1, total))] + Percentages(top[1..], total)
  }

  /** The percentages of a dictionary, summed. */
  function TotalPercent(d: seq<(string, real)>): real {
    if d == [] then 0.0 else d[0].1 + TotalPercent(d[1..])
  }

  lemma {:induction false} TotalPercentAppend(d: seq<(string, real)>, x: (string, real))
    ensures TotalPercent(d + [x]) == TotalPercent(d) + x.1
  {
    if d != [] {
      assert (d + [x])[1..] == d[1..] + [x];
      TotalPercentAppend(d[1..], x);
    }
  }

  lemma PercentAdd(a: nat, b: nat, total: nat)
    requires total > 0
    ensures Percent(a, total) + Percent(b, total) == Percent(a + b, total)
  {
  }

  /** The percentages of the selected items add up to the percentage of
      their total. */
  lemma {:induction false} PercentagesSum(top: seq<(string, nat)>, total: nat)
    requires total > 0
    ensures TotalPercent(Percentages(top, total)) == Percent(Total(top), total)
  {
    if top != [] {
      PercentagesSum(top[1..], total);
      PercentAdd(top[0].1, Total(top[1..]), total);
    }
  }

  /** `{k: (v / total) * 100 for k, v in top}`, then the `"other"` entry
      with the share of `total` that `top` does not account for. */
  function PercentTable(top: Counter, total: nat): Dict<real>
    requires 0 < total && Total(top) <= total
  {
    var p := Percentages(top, total);
    UniqueKeysFromKeys(p, top);
    Put(p, Other, Percent(total - Total(top), total))
  }

  /** One sample's entry of `get_common_taxas`: the taxa of
      `most_common(7)` with their percentages of the sample total, then the
      `"other"` bucket. A sample without reads is a ZeroDivisionError. */
  function SampleCommonTaxa(c: Counter): Result<Dict<real>> {
    var total := Total(c);
    if total == 0 then Err(ZeroDivisionError)
    else
      MostCommonTotal(c, TopTaxa);
      Ok(PercentTable(MostCommon(c, TopTaxa), total))
  }

  lemma PercentTableKeys(top: Counter, total: nat)
    requires 0 < total && Total(top) <= total
    ensures Has(PercentTable(top, total), Other)
    ensures |PercentTable(top, total)| <= |top| + 1
    ensures forall k :: k != Other ==> (Has(PercentTable(top, total), k) <==> Has(top, k))
  {
    var p := Percentages(top, total);
    UniqueKeysFromKeys(p, top);
    assert Keys(p) == Keys(top);
  }

  lemma PercentTableValues(top: Counter, total: nat)
    requires 0 < total && Total(top) <= total
    ensures forall k :: k != Other && Has(PercentTable(top, total), k) ==>
              Has(top, k) && Get(PercentTable(top, total), k) == Percent(Count(top, k), total)
    ensures Get(PercentTable(top, total), Other) == Percent(total - Total(top), total)
  {
    var p := Percentages(top, total);
    UniqueKeysFromKeys(p, top);
    var r := PercentTable(top, total);
    forall k | k != Other && Has(r, k) ensures Has(top, k) && Get(r, k) == Percent(Count(top, k), total) {
      var i := IndexOf(p, k);
      assert Keys(top)[i] == k;
      GetAt(top, i);
    }
  }

  /** Every entry of the table lies between 0 and 100 percent. */
  lemma PercentTableBounds(top: Counter, total: nat)
    requires 0 < total && Total(top) <= total
    ensures forall i :: 0 <= i < |PercentTable(top, total)| ==> 0.0 <= PercentTable(top, total)[i].1 <= 100.0
  {
    var r := PercentTable(top, total);
    PercentTableValues(top, total);
    forall i | 0 <= i < |r| ensures 0.0 <= r[i].1 <= 100.0 {
      GetAt(r, i);
      var k := r[i].0;
      var part := if k == Other then total - Total(top) else Count(top, k);
      CountAtMostTotal(top, k);
      assert r[i].1 == Percent(part, total);
      PercentFacts(part, total - part);
    }
  }

  /** With `other` not among the selected keys, the bucket is appended. */
  lemma PercentTableAppends(top: Counter, total: nat)
    requires 0 < total && Total(top) <= total
    requires !Has(top, Other)
    ensures PercentTable(top, total) == Percentages(top, total) + [(Other, Percent(total - Total(top), total))]
  {
    PutAppendsSameKeys(Percentages(top, total), top, Other, Percent(total - Total(top), total));
  }

  /** The selected percentages followed by the bucket add to 100. */
  lemma PercentagesWithRestSum(top: seq<(string, nat)>, total: nat)
    requires 0 < total && Total(top) <= total
    ensures TotalPercent(Percentages(top, total) + [(Other, Percent(total - Total(top), total))]) == 100.0
  {
    var selected, other := Total(top), total - Total(top);
    TotalPercentAppend(Percentages(top, total), (Other, Percent(other, total)));
    PercentagesSum(top, total);
    PercentFacts(selected, other);
  }

  lemma PercentTableSum(top: Counter, total: nat)
    requires 0 < total && Total(top) <= total
    requires !Has(top, Other)
    ensures TotalPercent(PercentTable(top, total)) == 100.0
  {
    PercentTableAppends(top, total);
    PercentagesWithRestSum(top, total);
  }

  /** A sample's entry fails exactly when the sample has no reads. Otherwise
      it holds the `"other"` bucket and, besides it, exactly the keys of
      `most_common(7)`: at most eight keys. */
  lemma SampleCommonTaxaKeys(c: Counter)
    ensures SampleCommonTaxa(c).Err? <==> Total(c) == 0
    ensures SampleCommonTaxa(c).Err? ==> SampleCommonTaxa(c).error == ZeroDivisionError
    ensures SampleCommonTaxa(c).Ok? ==>
              var r := SampleCommonTaxa(c).value;
              && |r| <= TopTaxa + 1
              && Has(r, Other)
              && forall k :: k != Other ==> (Has(r, k) <==> Has(MostCommon(c, TopTaxa), k))
  {
    if Total(c) > 0 {
      MostCommonTotal(c, TopTaxa);
      PercentTableKeys(MostCommon(c, TopTaxa), Total(c));
    }
  }

  /** Each selected taxon holds its count's share of the sample total and
      the `"other"` bucket the share of all reads not selected. */
  lemma SampleCommonTaxaValues(c: Counter)
    ensures SampleCommonTaxa(c).Ok? ==>
              var r := SampleCommonTaxa(c).value;
              && Total(MostCommon(c, TopTaxa)) <= Total(c)
              && (forall k :: k != Other && Has(r, k) ==> Get(r, k) == Percent(Count(c, k), Total(c)))
              && Get(r, Other) == Percent(Total(c) - Total(MostCommon(c, TopTaxa)), Total(c))
  {
    var total := Total(c);
    MostCommonTotal(c, TopTaxa);
    if total > 0 {
      var top := MostCommon(c, TopTaxa);
      PercentTableValues(top, total);
      var r := PercentTable(top, total);
      forall k | k != Other && Has(r, k) ensures Count(top, k) == Count(c, k) {
        var i := IndexOf(top, k);
        MostCommonItemAt(c, TopTaxa, i);
      }
    }
  }

  /** Every value of a sample's entry is a percentage in [0, 100]. */
  lemma SampleCommonTaxaBounds(c: Counter)
    ensures SampleCommonTaxa(c).Ok? ==>
              var r := SampleCommonTaxa(c).value;
              forall i :: 0 <= i < |r| ==> 0.0 <= r[i].1 <= 100.0
  {
    if Total(c) > 0 {
      MostCommonTotal(c, TopTaxa);
      PercentTableBounds(MostCommon(c, TopTaxa), Total(c));
    }
  }

  /** When no selected taxon is itself named `"other"`, the selected
      percentages and the bucket add up to exactly 100. */
  lemma SampleCommonTaxaSum(c: Counter)
    ensures SampleCommonTaxa(c).Ok? && !Has(MostCommon(c, TopTaxa), Other) ==>
              TotalPercent(SampleCommonTaxa(c).value) == 100.0
  {
    MostCommonTotal(c, TopTaxa);
    if Total(c) > 0 && !Has(MostCommon(c, TopTaxa), Other) {
      PercentTableSum(MostCommon(c, TopTaxa), Total(c));
    }
  }

  /** A selected taxon literally named `"other"` is overwritten by the
      bucket: here the single taxon holds every read, yet the entry reports
      0 percent and the values do not add up to 100. */
  lemma SampleCommonTaxaOtherCollision()
    ensures SampleCommonTaxa([(Other, 3)]) == Ok([(Other, 0.0)])
    ensures TotalPercent(SampleCommonTaxa([(Other, 3)]).value) != 100.0
  {
    var c: Counter := [(Other, 3)];
    assert InsertPos(c[0], []) == 0;
    assert SortByCount(c) == c;
    assert MostCommon(c, TopTaxa) == c;
    assert Total(c) == 3;
    PercentTableKeys(c, 3);
    PercentTableValues(c, 3);
    var r := PercentTable(c, 3);
    assert Keys(r) == [Other] by {
      assert Keys(Percentages(c, 3)) == [Other];
    }
    assert r[0].0 == Other;
    GetAt(r, 0);
    assert r[0].1 == Percent(0, 3) == 0.0;
    assert r == [(Other, 0.0)];
  }

  /** `get_common_taxas(sample_counts)`: the first sample (in order) without
      reads raises ZeroDivisionError. */
  method GetCommonTaxas(sampleCounts: Dict<Counter>) returns (r: Result<Dict<Dict<real>>>)
    ensures r == TryMapValues(sampleCounts, SampleCommonTaxa)
  {
    var mostCommon: Dict<Dict<real>> := [];
    var n := 0;
    while n < |sampleCounts|
      invariant MappedPrefix(sampleCounts, SampleCommonTaxa, mostCommon, n)
    {
      var (sample, counts) := sampleCounts[n];
      var entry := SampleCommonTaxa(counts);
      if entry.Err? {
        MappedPrefixStops(sampleCounts, SampleCommonTaxa, mostCommon, n);
        return Err(entry.error);
      }
      MappedPrefixStep(sampleCounts, SampleCommonTaxa, mostCommon, n, entry.value);
      mostCommon := Put(mostCommon, sample, entry.value);
      n := n + 1;
    }
    MappedPrefixDone(sampleCounts, SampleCommonTaxa, mostCommon);
    return Ok(mostCommon);
  }
}
