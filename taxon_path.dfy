/** The taxon key of a Kaiju row: the last non-empty `;`-separated
    segment of its taxonomy path, `list(filter(None, name.split(";")))[-1]`. */
module TaxonPath {
  import opened Results

  /** `s.split(";")`: the maximal `;`-free pieces of `s`, including the
      empty ones before, between and after separators. */
  function Split(s: string): (segs: seq<string>)
    ensures |segs| >= 1
    ensures forall i :: 0 <= i < |segs| ==> ';' !in segs[i]
    decreases |s|
  {
    if s == [] then [[]]
    else
      var init := Split(s[..|s| - 1]);
      var c := s[|s| - 1];
      if c == ';' then init + [[]]
      else init[..|init| - 1] + [init[|init| - 1] + [c]]
  }

  /** `";".join(segs)` */
  function Join(segs: seq<string>): string
    requires |segs| >= 1
  {
    if |segs| == 1 then segs[0] else Join(segs[..|segs| - 1]) + [';'] + segs[|segs| - 1]
  }

  /** Joining the pieces of a split gives the string back. */
  lemma {:induction false} JoinSplit(s: string)
    ensures Join(Split(s)) == s
    decreases |s|
  {
    if s != [] {
      var init := s[..|s| - 1];
      assert s == init + [s[|s| - 1]];
      JoinSplit(init);
      var segs := Split(init);
      if s[|s| - 1] != ';' && |segs| > 1 {
        var segs' := Split(s);
        assert segs'[..|segs'| - 1] == segs[..|segs| - 1];
      }
    }
  }

  /** Appending `;`-free text to a string extends its last piece. */
  lemma {:induction false} SplitExtendLast(t: string, w: string)
    requires ';' !in w
    ensures Split(t + w) == Split(t)[..|Split(t)| - 1] + [Split(t)[|Split(t)| - 1] + w]
    decreases |w|
  {
    if w == [] {
      assert t + w == t;
      var segs := Split(t);
      assert segs[|segs| - 1] + w == segs[|segs| - 1];
      assert segs[..|segs| - 1] + [segs[|segs| - 1]] == segs;
    } else {
      var w', c := w[..|w| - 1], w[|w| - 1];
      assert (t + w)[..|t + w| - 1] == t + w';
      assert (t + w)[|t + w| - 1] == c;
      SplitExtendLast(t, w');
      var segs := Split(t);
      var m := |segs|;
      var init := Split(t + w');
      assert init == segs[..m - 1] + [segs[m - 1] + w'];
      assert init[..|init| - 1] == segs[..m - 1];
      assert init[|init| - 1] + [c] == segs[m - 1] + w by { assert w' + [c] == w; }
    }
  }

  /** Splitting a join of `;`-free pieces gives the pieces back. */
  lemma {:induction false} SplitJoin(segs: seq<string>)
    requires |segs| >= 1
    requires forall i :: 0 <= i < |segs| ==> ';' !in segs[i]
    ensures Split(Join(segs)) == segs
  {
    if |segs| == 1 {
      SplitExtendLast([], segs[0]);
      assert [] + segs[0] == segs[0];
    } else {
      var init := segs[..|segs| - 1];
      var last := segs[|segs| - 1];
      SplitJoin(init);
      var t := Join(init) + [';'];
      assert t[..|t| - 1] == Join(init);
      assert Split(t) == init + [[]];
      SplitExtendLast(t, last);
      assert [] + last == last;
      assert segs == init + [last];
    }
  }

  /** `filter(None, segs)`: the non-empty pieces, in order. */
  function NonEmpty(segs: seq<string>): (r: seq<string>)
    ensures forall i :: 0 <= i < |r| ==> r[i] != [] && r[i] in segs
    ensures forall t :: t in r <==> t != [] && t in segs
    ensures segs != [] && segs[|segs| - 1] != [] ==> r != [] && r[|r| - 1] == segs[|segs| - 1]
  {
    if segs == [] then []
    else
      var init := NonEmpty(segs[..|segs| - 1]);
      var last := segs[|segs| - 1];
      if last == [] then init else init + [last]
  }
  /** `filter(None, ...)` works piece by piece: filtering a concatenation
      concatenates the filtered parts, and a single piece is kept iff it is
      non-empty. Together these fix the result exactly, so the kept pieces
      keep their order and their repetitions. */
  lemma {:induction false} NonEmptyConcat(a: seq<string>, b: seq<string>)
    ensures NonEmpty(a + b) == NonEmpty(a) + NonEmpty(b)
    ensures |b| == 1 ==> NonEmpty(b) == if b[0] == [] then [] else b
    decreases |b|
  {
    if b == [] {
      assert a + b == a;
    } else {
      var init := b[..|b| - 1];
      assert (a + b)[..|a + b| - 1] == a + init;
      assert (a + b)[|a + b| - 1] == b[|b| - 1];
      NonEmptyConcat(a, init);
      if |b| == 1 {
        assert init == [];
      }
    }
  }


  /** The taxon key of a taxonomy path, or IndexError when the path holds
      no non-empty segment. */
  function TaxonKey(name: string): Result<string> {
    var kept := NonEmpty(Split(name));
    if |kept| == 0 then Err(IndexError) else Ok(kept[|kept| - 1])
  }

  /** The last piece of a split is the longest `;`-free suffix. */
  lemma {:induction false} LastPieceIsSuffix(s: string)
    ensures var w := Split(s)[|Split(s)| - 1];
            |w| <= |s| && s[|s| - |w|..] == w && (|w| < |s| ==> s[|s| - |w| - 1] == ';')
    decreases |s|
  {
    if s != [] {
      LastPieceIsSuffix(s[..|s| - 1]);
    }
  }

  /** A trailing separator does not change the key; otherwise the key is
      the last piece. */
  lemma TaxonKeyStep(s: string)
    requires s != []
    ensures s[|s| - 1] == ';' ==> TaxonKey(s) == TaxonKey(s[..|s| - 1])
    ensures s[|s| - 1] != ';' ==> TaxonKey(s) == Ok(Split(s)[|Split(s)| - 1])
  {
    var segs := Split(s);
    assert segs[..|segs| - 1] + [segs[|segs| - 1]] == segs;
    if s[|s| - 1] == ';' {
      assert segs[..|segs| - 1] == Split(s[..|s| - 1]);
    }
  }

  /** `k` occurs in `s` at `i` as its last maximal run of non-`;`
      characters: `;` or the start before it, nothing but `;` after it. */
  predicate IsLastRunAt(s: string, k: string, i: int) {
    && 0 <= i <= |s| - |k|
    && s[i..i + |k|] == k
    && (i == 0 || s[i - 1] == ';')
    && forall j :: i + |k| <= j < |s| ==> s[j] == ';'
  }

  /** The key is the last maximal run of non-`;` characters: non-empty and
      `;`-free. There is no key exactly when every character is `;` (the
      empty path too), and then the error is IndexError. */
  lemma {:induction false} TaxonKeySpec(s: string)
    ensures TaxonKey(s).Err? <==> forall j :: 0 <= j < |s| ==> s[j] == ';'
    ensures TaxonKey(s).Err? ==> TaxonKey(s).error == IndexError
    ensures TaxonKey(s).Ok? ==>
              var k := TaxonKey(s).value;
              k != [] && ';' !in k && exists i :: IsLastRunAt(s, k, i)
    decreases |s|
  {
    if s == [] {
    } else if s[|s| - 1] == ';' {
      TaxonKeyTrailingSeparator(s);
    } else {
      TaxonKeyStep(s);
      LastPieceIsSuffix(s);
      var w := Split(s)[|Split(s)| - 1];
      assert w != [] by { assert w[|w| - 1] == s[|s| - 1]; }
      assert s[|s| - |w|..|s| - |w| + |w|] == w;
      assert IsLastRunAt(s, w, |s| - |w|);
    }
  }

  lemma {:induction false} TaxonKeyTrailingSeparator(s: string)
    requires s != [] && s[|s| - 1] == ';'
    ensures TaxonKey(s).Err? <==> forall j :: 0 <= j < |s| ==> s[j] == ';'
    ensures TaxonKey(s).Err? ==> TaxonKey(s).error == IndexError
    ensures TaxonKey(s).Ok? ==>
              var k := TaxonKey(s).value;
              k != [] && ';' !in k && exists i :: IsLastRunAt(s, k, i)
    decreases |s|, 0
  {
    var init := s[..|s| - 1];
    TaxonKeyStep(s);
    TaxonKeySpec(init);
    assert (forall j :: 0 <= j < |s| ==> s[j] == ';') <==> (forall j :: 0 <= j < |init| ==> init[j] == ';');
    if TaxonKey(s).Ok? {
      var k := TaxonKey(s).value;
      var i :| IsLastRunAt(init, k, i);
      assert s[i..i + |k|] == init[i..i + |k|];
      assert IsLastRunAt(s, k, i);
    }
  }

  /** A path with a trailing separator is keyed by its last named rank:
      `"Bacteria;Firmicutes;"` by `"Firmicutes"`. */
  lemma TaxonKeySkipsTrailingSeparator(parent: string, rank: string)
    requires ';' !in parent && ';' !in rank && rank != []
    ensures TaxonKey(parent + [';'] + rank + [';']) == Ok(rank)
  {
    var segs := [parent, rank];
    var t := Join(segs);
    assert Join(segs[..1]) == parent;
    assert t == parent + [';'] + rank;
    SplitJoin(segs);
    assert t[|t| - 1] == rank[|rank| - 1];
    TaxonKeyStep(t);
    var s := t + [';'];
    assert s[..|s| - 1] == t;
    TaxonKeyStep(s);
  }

  /** A path of separators alone has no key. */
  lemma TaxonKeyOnlySeparators()
    ensures TaxonKey(";;") == Err(IndexError)
  {
    var s := ";;";
    assert forall j :: 0 <= j < |s| ==> s[j] == ';';
    TaxonKeySpec(s);
  }
}
