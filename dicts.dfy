/** Python dictionaries with string keys, as the pipeline uses them: a
    dictionary remembers the order in which its keys were first inserted,
    assigning to an existing key replaces the value in place, and a
    `Counter` is a dictionary of counts whose missing keys read as 0. */
module Dicts {
  import opened Results

  predicate UniqueKeys<V>(s: seq<(string, V)>) {
    forall i, j :: 0 <= i < j < |s| ==> s[i].0 != s[j].0
  }

  /** A dictionary: its items in insertion order, each key once. */
  type Dict<V> = s: seq<(string, V)> | UniqueKeys(s) witness []

  /** `list(d.keys())` */
  function Keys<V>(d: seq<(string, V)>): (ks: seq<string>)
    ensures |ks| == |d|
    ensures forall i :: 0 <= i < |d| ==> ks[i] == d[i].0
  {
    seq(|d|, i requires 0 <= i < |d| => d[i].0)
  }

  /** Two item sequences with the same keys are both dictionaries or
      neither. */
  lemma UniqueKeysFromKeys<A, B>(a: seq<(string, A)>, b: seq<(string, B)>)
    requires Keys(a) == Keys(b) && UniqueKeys(b)
    ensures UniqueKeys(a)
  {
    forall i, j | 0 <= i < j < |a| ensures a[i].0 != a[j].0 {
      assert Keys(a)[i] == b[i].0 && Keys(a)[j] == b[j].0;
    }
  }

  /** Two dictionaries without a common key concatenate to a dictionary. */
  lemma UniqueKeysConcat<V>(a: seq<(string, V)>, b: seq<(string, V)>)
    requires UniqueKeys(a) && UniqueKeys(b)
    requires forall i, j :: 0 <= i < |a| && 0 <= j < |b| ==> a[i].0 != b[j].0
    ensures UniqueKeys(a + b)
  {
    forall i, j | 0 <= i < j < |a + b| ensures (a + b)[i].0 != (a + b)[j].0 {
      if j >= |a| && i < |a| {
        assert (a + b)[j] == b[j - |a|];
      } else if i >= |a| {
        assert (a + b)[i] == b[i - |a|] && (a + b)[j] == b[j - |a|];
      }
    }
  }

  /** `k in d` */
  predicate Has<V>(d: Dict<V>, k: string) {
    k in Keys(d)
  }

  /** The position of key `k` among the items of `d`. */
  function IndexOf<V>(d: Dict<V>, k: string): (i: nat)
    requires Has(d, k)
    ensures i < |d| && d[i].0 == k
    ensures forall j :: 0 <= j < |d| && d[j].0 == k ==> j == i
  {
    if d[0].0 == k then 0 else 1 + IndexOf(d[1..], k)
  }

  /** `d[k]` where the key is known to be present. */
  function Get<V>(d: Dict<V>, k: string): V
    requires Has(d, k)
  {
    d[IndexOf(d, k)].1
  }

  /** A lookup in a non-empty dictionary finds its first item or looks in
      the rest. */
  lemma HasCons<V>(d: Dict<V>, k: string)
    requires d != []
    ensures Has(d, k) <==> d[0].0 == k || Has(d[1..], k)
    ensures d[0].0 == k ==> !Has(d[1..], k)
    ensures Has(d, k) ==> Get(d, k) == if d[0].0 == k then d[0].1 else Get(d[1..], k)
  {
    assert Keys(d) == [d[0].0] + Keys(d[1..]);
  }

  /** Every item of a dictionary is what a lookup of its key returns. */
  lemma GetAt<V>(d: Dict<V>, i: nat)
    requires i < |d|
    ensures Has(d, d[i].0) && Get(d, d[i].0) == d[i].1
  {
    assert Keys(d)[i] == d[i].0;
  }

  /** `d[k] = v`: an existing key keeps its position and takes the new
      value, a new key is appended; no other key changes. */
  function Put<V>(d: Dict<V>, k: string, v: V): (r: Dict<V>)
    ensures Has(r, k) && Get(r, k) == v
    ensures forall k' :: k' != k ==> (Has(r, k') <==> Has(d, k'))
    ensures forall k' :: k' != k && Has(d, k') ==> Get(r, k') == Get(d, k')
    ensures Keys(r) == if Has(d, k) then Keys(d) else Keys(d) + [k]
  {
    if Has(d, k) then
      var i := IndexOf(d, k);
      var r := d[i := (k, v)];
      assert Keys(r) == Keys(d);
      PutFacts(d, r, k, v, i);
      r
    else
      var r := d + [(k, v)];
      assert Keys(r) == Keys(d) + [k];
      PutFacts(d, r, k, v, |d|);
      r
  }

  /** Putting a new key appends it. */
  lemma PutAppends<V>(d: Dict<V>, k: string, v: V)
    requires !Has(d, k)
    ensures Put(d, k, v) == d + [(k, v)]
  {
  }

  /** Items with the keys of a dictionary form a dictionary, and putting a
      key that dictionary lacks appends it. */
  lemma PutAppendsSameKeys<V, W>(d: seq<(string, V)>, e: Dict<W>, k: string, v: V)
    requires Keys(d) == Keys(e) && !Has(e, k)
    ensures UniqueKeys(d) && Put(d, k, v) == d + [(k, v)]
  {
    UniqueKeysFromKeys(d, e);
    assert !Has(d, k);
    PutAppends(d, k, v);
  }

  lemma PutFacts<V>(d: Dict<V>, r: Dict<V>, k: string, v: V, i: nat)
    requires i < |r| && r[i] == (k, v)
    requires |d| <= |r| <= |d| + 1
    requires forall j :: 0 <= j < |d| && j != i ==> r[j] == d[j]
    requires i < |d| ==> |r| == |d| && d[i].0 == k
    requires i == |d| ==> |r| == |d| + 1
    ensures Has(r, k) && Get(r, k) == v
    ensures forall k' :: k' != k ==> (Has(r, k') <==> Has(d, k'))
    ensures forall k' :: k' != k && Has(d, k') ==> Get(r, k') == Get(d, k')
  {
    GetAt(r, i);
    forall k' | k' != k
      ensures Has(r, k') <==> Has(d, k')
      ensures Has(d, k') ==> Get(r, k') == Get(d, k')
    {
      if Has(d, k') {
        var j := IndexOf(d, k');
        GetAt(d, j);
        GetAt(r, j);
      }
      if Has(r, k') {
        var j := IndexOf(r, k');
        assert j != i;
        assert Keys(d)[j] == k';
      }
    }
  }

  /** A dictionary with the same keys, in the same order, each value
      transformed by `f`: `{k: f(v) for k, v in d.items()}`. */
  function MapValues<A, B>(d: Dict<A>, f: A -> B): (r: Dict<B>)
    ensures Keys(r) == Keys(d)
    ensures forall i :: 0 <= i < |d| ==> r[i] == (d[i].0, f(d[i].1))
  {
    var r := seq(|d|, i requires 0 <= i < |d| => (d[i].0, f(d[i].1)));
    assert Keys(r) == Keys(d);
    r
  }

  /** A failure in the rest of a dictionary whose first value maps is the
      first failure of the whole. */
  lemma TryMapValuesErrShift<A, B>(d: Dict<A>, f: A -> Result<B>, e: Error)
    requires d != [] && f(d[0].1).Ok?
    requires exists i :: 0 <= i < |d[1..]| && f(d[1..][i].1) == Err(e)
                         && forall j :: 0 <= j < i ==> f(d[1..][j].1).Ok?
    ensures exists i :: 0 <= i < |d| && f(d[i].1) == Err(e) && forall j :: 0 <= j < i ==> f(d[j].1).Ok?
  {
    var i :| 0 <= i < |d[1..]| && f(d[1..][i].1) == Err(e) && forall j :: 0 <= j < i ==> f(d[1..][j].1).Ok?;
    assert d[1..][i] == d[i + 1];
    forall j | 0 <= j < i + 1 ensures f(d[j].1).Ok? {
      if j > 0 { assert d[1..][j - 1] == d[j]; }
    }
  }

  /** The mapped rest of a dictionary, with the first item mapped in
      front, maps every value, in order. */
  lemma TryMapValuesOkShift<A, B>(d: Dict<A>, f: A -> Result<B>, rest: Dict<B>)
    requires d != [] && f(d[0].1).Ok?
    requires |rest| == |d| - 1 && Keys(rest) == Keys(d[1..])
    requires forall i :: 0 <= i < |d| - 1 ==> f(d[1..][i].1).Ok? && rest[i] == (d[1..][i].0, f(d[1..][i].1).value)
    ensures d[0].0 !in Keys(rest)
    ensures forall i :: 0 <= i < |d| ==> f(d[i].1).Ok?
    ensures forall i :: 0 <= i < |d| ==> ([(d[0].0, f(d[0].1).value)] + rest)[i] == (d[i].0, f(d[i].1).value)
  {
    assert forall i :: 0 <= i < |d| - 1 ==> d[1..][i] == d[i + 1];
    forall i | 0 <= i < |rest| ensures rest[i].0 != d[0].0 {
      assert rest[i].0 == Keys(d[1..])[i] == d[i + 1].0;
    }
  }

  /** `{k: f(v) for k, v in d.items()}` where computing `f` may raise: the
      first value in insertion order whose computation fails decides the
      error. */
  function TryMapValues<A, B>(d: Dict<A>, f: A -> Result<B>): (r: Result<Dict<B>>)
    ensures r.Ok? <==> forall i :: 0 <= i < |d| ==> f(d[i].1).Ok?
    ensures r.Ok? ==> |r.value| == |d| && Keys(r.value) == Keys(d)
    ensures r.Ok? ==> forall i :: 0 <= i < |d| ==> r.value[i] == (d[i].0, f(d[i].1).value)
    ensures r.Err? ==> exists i :: 0 <= i < |d| && f(d[i].1) == Err(r.error)
                                   && forall j :: 0 <= j < i ==> f(d[j].1).Ok?
  {
    if d == [] then Ok([])
    else
      match f(d[0].1)
      case Err(e) => Err(e)
      case Ok(b) =>
        match TryMapValues(d[1..], f)
        case Err(e) =>
          TryMapValuesErrShift(d, f, e);
          Err(e)
        case Ok(rest) =>
          TryMapValuesOkShift(d, f, rest);
          Ok([(d[0].0, b)] + rest)
  }

  /** `acc` holds the first `n` items of `d` with their successfully
      mapped values: the state of a loop that builds `TryMapValues(d, f)`. */
  ghost predicate MappedPrefix<A, B>(d: Dict<A>, f: A -> Result<B>, acc: Dict<B>, n: nat) {
    && n <= |d|
    && |acc| == n
    && forall j :: 0 <= j < n ==> f(d[j].1).Ok? && acc[j] == (d[j].0, f(d[j].1).value)
  }

  /** Putting the next item's mapped value extends the prefix. */
  lemma MappedPrefixStep<A, B>(d: Dict<A>, f: A -> Result<B>, acc: Dict<B>, n: nat, b: B)
    requires MappedPrefix(d, f, acc, n) && n < |d| && f(d[n].1) == Ok(b)
    ensures MappedPrefix(d, f, Put(acc, d[n].0, b), n + 1)
  {
    assert !Has(acc, d[n].0);
    PutAppends(acc, d[n].0, b);
  }

  /** Mapping stops at the first value whose computation fails. */
  lemma MappedPrefixStops<A, B>(d: Dict<A>, f: A -> Result<B>, acc: Dict<B>, n: nat)
    requires MappedPrefix(d, f, acc, n) && n < |d| && f(d[n].1).Err?
    ensures TryMapValues(d, f) == Err(f(d[n].1).error)
  {
    var r := TryMapValues(d, f);
    var i :| 0 <= i < |d| && f(d[i].1) == Err(r.error) && forall j :: 0 <= j < i ==> f(d[j].1).Ok?;
    assert i == n;
  }

  /** The whole dictionary mapped is the mapping's result. */
  lemma MappedPrefixDone<A, B>(d: Dict<A>, f: A -> Result<B>, acc: Dict<B>)
    requires MappedPrefix(d, f, acc, |d|)
    ensures TryMapValues(d, f) == Ok(acc)
  {
    assert TryMapValues(d, f).value == acc;
  }

  /** A dictionary holding every key with its mapped value is the
      mapping. */
  lemma MapValuesAll<A, B>(d: Dict<A>, f: A -> B, m: Dict<B>)
    requires |m| == |d|
    requires forall j :: 0 <= j < |d| ==> m[j] == (d[j].0, f(d[j].1))
    ensures MapValues(d, f) == m
  {
  }

  // ----- Counters -----

  /** A `collections.Counter` of read counts. */
  type Counter = Dict<nat>

  /** `c[k]` on a Counter: a missing key reads as 0. */
  function Count(c: Counter, k: string): nat {
    if Has(c, k) then Get(c, k) else 0
  }

  /** `Counter.total()`: the sum of the counts. */
  function Total(c: seq<(string, nat)>): nat {
    if c == [] then 0 else c[0].1 + Total(c[1..])
  }

  lemma {:induction false} TotalAppend(c: seq<(string, nat)>, x: (string, nat))
    ensures Total(c + [x]) == Total(c) + x.1
  {
    if c != [] {
      assert (c + [x])[1..] == c[1..] + [x];
      TotalAppend(c[1..], x);
    }
  }

  lemma {:induction false} TotalUpdate(c: seq<(string, nat)>, i: nat, x: (string, nat))
    requires i < |c|
    ensures Total(c[i := x]) + c[i].1 == Total(c) + x.1
  {
    if i > 0 {
      assert c[i := x][1..] == c[1..][i - 1 := x];
      TotalUpdate(c[1..], i - 1, x);
    }
  }

  lemma {:induction false} TotalConcat(a: seq<(string, nat)>, b: seq<(string, nat)>)
    ensures Total(a + b) == Total(a) + Total(b)
  {
    if a == [] {
      assert a + b == b;
    } else {
      assert (a + b)[1..] == a[1..] + b;
      TotalConcat(a[1..], b);
    }
  }

  /** Every count is at most the total. */
  lemma {:induction false} CountAtMostTotal(c: Counter, k: string)
    ensures Count(c, k) <= Total(c)
  {
    if c != [] {
      HasCons(c, k);
      CountAtMostTotal(c[1..], k);
    }
  }

  /** `c[k] += n`: a missing key reads as 0 and is inserted (even when n is
      0); the total grows by exactly n. */
  function Add(c: Counter, k: string, n: nat): (r: Counter)
    ensures Has(r, k) && Count(r, k) == Count(c, k) + n
    ensures forall k' :: k' != k ==> Has(r, k') == Has(c, k') && Count(r, k') == Count(c, k')
    ensures Keys(r) == if Has(c, k) then Keys(c) else Keys(c) + [k]
    ensures Total(r) == Total(c) + n
  {
    var r: Counter := Put<nat>(c, k, Count(c, k) + n);
    assert Total(r) == Total(c) + n by {
      if Has(c, k) {
        TotalUpdate(c, IndexOf(c, k), (k, Get(c, k) + n));
      } else {
        TotalAppend(c, (k, n));
      }
    }
    r
  }
}
