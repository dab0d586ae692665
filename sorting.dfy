/** `.sort(sortByCorpInfo)` on the loader's array: the comparator orders the
    defined records, and `undefined` entries go to the end without being
    passed to it. */
module Sorting {
  import opened Wrappers
  import opened CorpInfos
  import opened Comparator

  /** Entry `x` may stand before entry `y` in the sorted array. */
  predicate Before(x: Option<CorpInfo>, y: Option<CorpInfo>)
    ensures Before(x, y) <==> y.None? || (x.Some? && !Ahead(Key(y.value), Key(x.value)))
  {
    match x
    case None => y.None?
    case Some(a) => y.None? || SortByCorpInfo(a, y.value) <= 0
  }

  lemma BeforeTotal(x: Option<CorpInfo>, y: Option<CorpInfo>)
    ensures Before(x, y) || Before(y, x)
  {
    if x.Some? && y.Some? {
      ComparatorAntisymmetric(x.value, y.value);
    }
  }

  lemma BeforeTransitive(x: Option<CorpInfo>, y: Option<CorpInfo>, z: Option<CorpInfo>)
    requires Before(x, y) && Before(y, z)
    ensures Before(x, z)
  {
    if x.Some? && y.Some? && z.Some? {
      ComparatorTransitive(x.value, y.value, z.value);
    }
  }

  /** Every entry may stand before every later one. */
  predicate Sorted(s: seq<Option<CorpInfo>>)
  {
    forall i, j :: 0 <= i < j < |s| ==> Before(s[i], s[j])
  }

  /** A sorted sequence stays sorted when an entry that may follow all of it
      is appended. */
  lemma SortedSnoc(t: seq<Option<CorpInfo>>, x: Option<CorpInfo>)
    requires Sorted(t)
    requires forall p :: 0 <= p < |t| ==> Before(t[p], x)
    ensures Sorted(t + [x])
  {
    var r := t + [x];
    forall p, q | 0 <= p < q < |r|
      ensures Before(r[p], r[q])
    {
      if q < |t| {
        assert Before(t[p], t[q]);
      }
    }
  }

  // ---------------------------------------------------------------------------
  // The order the sort produces

  /** `x` inserted into `t` from the back: it moves forward past every entry
      that must come after it, and stops behind the first one it may follow. */
  function InsertBack(t: seq<Option<CorpInfo>>, x: Option<CorpInfo>): (r: seq<Option<CorpInfo>>)
    ensures |r| == |t| + 1
    decreases |t|
  {
    if |t| == 0 || Before(t[|t| - 1], x) then t + [x]
    else InsertBack(t[..|t| - 1], x) + [t[|t| - 1]]
  }

  /** Every entry in listing order, inserted from the back into the entries
      before it. */
  function SortSeq(s: seq<Option<CorpInfo>>): (r: seq<Option<CorpInfo>>)
    ensures |r| == |s|
    decreases |s|
  {
    if |s| == 0 then [] else InsertBack(SortSeq(s[..|s| - 1]), s[|s| - 1])
  }

  lemma {:induction false} InsertBackMultiset(t: seq<Option<CorpInfo>>, x: Option<CorpInfo>)
    ensures multiset(InsertBack(t, x)) == multiset(t) + multiset{x}
    decreases |t|
  {
    if |t| > 0 && !Before(t[|t| - 1], x) {
      InsertBackMultiset(t[..|t| - 1], x);
      assert t == t[..|t| - 1] + [t[|t| - 1]];
    }
  }

  /** The sort neither adds, drops nor duplicates an entry. */
  lemma {:induction false} SortSeqPermutation(s: seq<Option<CorpInfo>>)
    ensures multiset(SortSeq(s)) == multiset(s)
    decreases |s|
  {
    if |s| > 0 {
      SortSeqPermutation(s[..|s| - 1]);
      InsertBackMultiset(SortSeq(s[..|s| - 1]), s[|s| - 1]);
      assert s == s[..|s| - 1] + [s[|s| - 1]];
    }
  }

  lemma {:induction false} InsertBackSorted(t: seq<Option<CorpInfo>>, x: Option<CorpInfo>)
    requires Sorted(t)
    ensures Sorted(InsertBack(t, x))
    decreases |t|
  {
    if |t| == 0 {
      SortedSnoc(t, x);
      return;
    }
    var n := |t| - 1;
    var y := t[n];
    if Before(y, x) {
      forall p | 0 <= p < |t|
        ensures Before(t[p], x)
      {
        if p < n {
          BeforeTransitive(t[p], y, x);
        }
      }
      SortedSnoc(t, x);
    } else {
      BeforeTotal(y, x);
      var u := t[..n];
      assert Sorted(u);
      InsertBackSorted(u, x);
      var w := InsertBack(u, x);
      InsertBackMultiset(u, x);
      forall p | 0 <= p < |w|
        ensures Before(w[p], y)
      {
        var z := w[p];
        assert z in multiset(w);
        if z != x {
          assert z in multiset(u);
          var q :| 0 <= q < n && u[q] == z;
          assert Before(t[q], t[n]);
        }
      }
      SortedSnoc(w, y);
    }
  }

  /** The sort's result is sorted. */
  lemma {:induction false} SortSeqSorted(s: seq<Option<CorpInfo>>)
    ensures Sorted(SortSeq(s))
    decreases |s|
  {
    if |s| > 0 {
      SortSeqSorted(s[..|s| - 1]);
      InsertBackSorted(SortSeq(s[..|s| - 1]), s[|s| - 1]);
    }
  }

  /** Entries the comparator cannot tell apart. */
  predicate Tied(x: Option<CorpInfo>, y: Option<CorpInfo>)
  {
    Before(x, y) && Before(y, x)
  }

  /** Tied entries are two `undefined` ones, or two records with the same
      official flag, developer rate and project rate. */
  lemma TiedIff(x: Option<CorpInfo>, y: Option<CorpInfo>)
    ensures Tied(x, y) <==> (x.None? && y.None?) || (x.Some? && y.Some? && Key(x.value) == Key(y.value))
  {
    if x.Some? && y.Some? {
      ComparatorAntisymmetric(x.value, y.value);
    }
  }

  /** The entries of `s` tied with `e`, in their order in `s`. */
  function TiedWith(s: seq<Option<CorpInfo>>, e: Option<CorpInfo>): (r: seq<Option<CorpInfo>>)
    ensures |r| <= |s|
    ensures forall i :: 0 <= i < |r| ==> Tied(r[i], e)
    decreases |s|
  {
    if |s| == 0 then []
    else TiedWith(s[..|s| - 1], e) + (if Tied(s[|s| - 1], e) then [s[|s| - 1]] else [])
  }

  lemma TiedWithSnoc(t: seq<Option<CorpInfo>>, x: Option<CorpInfo>, e: Option<CorpInfo>)
    ensures TiedWith(t + [x], e) == TiedWith(t, e) + (if Tied(x, e) then [x] else [])
  {
    assert (t + [x])[..|t|] == t;
  }

  lemma {:induction false} InsertBackStable(t: seq<Option<CorpInfo>>, x: Option<CorpInfo>, e: Option<CorpInfo>)
    ensures TiedWith(InsertBack(t, x), e) == TiedWith(t, e) + (if Tied(x, e) then [x] else [])
    decreases |t|
  {
    if |t| == 0 || Before(t[|t| - 1], x) {
      TiedWithSnoc(t, x, e);
    } else {
      var u := t[..|t| - 1];
      var y := t[|t| - 1];
      var tx := if Tied(x, e) then [x] else [];
      var ty := if Tied(y, e) then [y] else [];
      assert TiedWith(InsertBack(t, x), e) == TiedWith(u, e) + tx + ty by {
        InsertBackStable(u, x, e);
        TiedWithSnoc(InsertBack(u, x), y, e);
      }
      assert TiedWith(t, e) == TiedWith(u, e) + ty by {
        TiedWithSnoc(u, y, e);
        assert t == u + [y];
      }
      assert tx == [] || ty == [] by {
        if Tied(x, e) && Tied(y, e) {
          BeforeTransitive(y, e, x);
        }
      }
    }
  }

  /** The sort is stable: the entries tied with any given entry keep their
      listing order. */
  lemma {:induction false} SortSeqStable(s: seq<Option<CorpInfo>>, e: Option<CorpInfo>)
    ensures TiedWith(SortSeq(s), e) == TiedWith(s, e)
    decreases |s|
  {
    if |s| > 0 {
      var u := s[..|s| - 1];
      SortSeqStable(u, e);
      InsertBackStable(SortSeq(u), s[|s| - 1], e);
      TiedWithSnoc(u, s[|s| - 1], e);
      assert s == u + [s[|s| - 1]];
    }
  }

  // ---------------------------------------------------------------------------
  // The sort in place

  /** Insertion sort in place: the array ends up in the order `SortSeq`
      gives, hence sorted, a permutation of its old contents and stable. */
  method SortCorpInfos(a: array<Option<CorpInfo>>)
    modifies a
    ensures a[..] == SortSeq(old(a[..]))
    ensures Sorted(a[..])
    ensures multiset(a[..]) == old(multiset(a[..]))
  {
    ghost var s := a[..];
    var i := 0;
    while i < a.Length
      invariant 0 <= i <= a.Length
      invariant a[..i] == SortSeq(s[..i])
      invariant a[i..] == s[i..]
    {
      InsertIntoPrefix(a, i);
      NextPrefix(s, i);
      i := i + 1;
    }
    assert a[..] == a[..a.Length] && s[..a.Length] == s;
    SortSeqSorted(s);
    SortSeqPermutation(s);
  }

  lemma NextPrefix(s: seq<Option<CorpInfo>>, i: nat)
    requires i < |s|
    ensures SortSeq(s[..i + 1]) == InsertBack(SortSeq(s[..i]), s[i])
  {
    assert s[..i + 1][..i] == s[..i];
  }

  /** One insertion step: the entry at `i` moves forward past every entry
      that must come after it, the prefix before it keeps its order, and
      the entries after `i` are untouched. */
  method InsertIntoPrefix(a: array<Option<CorpInfo>>, i: nat)
    requires i < a.Length
    modifies a
    ensures a[..i + 1] == InsertBack(old(a[..i]), old(a[i]))
    ensures a[i + 1..] == old(a[i + 1..])
  {
    ghost var t := a[..i];
    ghost var x := a[i];
    assert t[..i] == t && t[i..] == [];
    assert a[..i + 1] == t[..i] + [x] + t[i..];
    var j := i;
    while j > 0 && !Before(a[j - 1], a[j])
      invariant 0 <= j <= i
      invariant a[..i + 1] == t[..j] + [x] + t[j..]
      invariant a[j] == x && (j > 0 ==> a[j - 1] == t[j - 1])
      invariant a[i + 1..] == old(a[i + 1..])
      invariant InsertBack(t, x) == InsertBack(t[..j], x) + t[j..]
    {
      ghost var prev := a[..i + 1];
      a[j - 1], a[j] := a[j], a[j - 1];
      SwapStep(t, x, j, prev, a[..i + 1]);
      InsertBackStep(t, x, j);
      j := j - 1;
    }
    InsertBackStop(t, x, j);
  }

  /** Exchanging the moving entry with the one before it. */
  lemma SwapStep(t: seq<Option<CorpInfo>>, x: Option<CorpInfo>, j: nat,
                 prev: seq<Option<CorpInfo>>, next: seq<Option<CorpInfo>>)
    requires 0 < j <= |t|
    requires prev == t[..j] + [x] + t[j..]
    requires next == prev[j - 1 := prev[j]][j := prev[j - 1]]
    ensures next == t[..j - 1] + [x] + t[j - 1..]
    ensures next[j - 1] == x && (j > 1 ==> next[j - 2] == t[j - 2])
  {
    assert next == t[..j - 1] + [x] + t[j - 1..];
  }

  /** Moving past an entry that must come after `x`. */
  lemma InsertBackStep(t: seq<Option<CorpInfo>>, x: Option<CorpInfo>, j: nat)
    requires 0 < j <= |t|
    requires !Before(t[j - 1], x)
    ensures InsertBack(t[..j], x) + t[j..] == InsertBack(t[..j - 1], x) + t[j - 1..]
  {
    assert t[..j][..j - 1] == t[..j - 1];
    assert [t[j - 1]] + t[j..] == t[j - 1..];
  }

  /** Stopping behind an entry `x` may follow, or at the front. */
  lemma InsertBackStop(t: seq<Option<CorpInfo>>, x: Option<CorpInfo>, j: nat)
    requires j <= |t|
    requires j == 0 || Before(t[j - 1], x)
    ensures InsertBack(t[..j], x) == t[..j] + [x]
  {
  }

  /** In a sorted array, each adjacent pair of records is in descending
      lexicographic order of (official, nodeDeveloperRate, nodeProjectRate). */
  lemma SortedAdjacent(s: seq<Option<CorpInfo>>, i: nat)
    requires Sorted(s) && i + 1 < |s|
    requires s[i].Some? && s[i + 1].Some?
    ensures !Ahead(Key(s[i + 1].value), Key(s[i].value))
    ensures s[i + 1].value.official ==> s[i].value.official
  {
    assert Before(s[i], s[i + 1]);
    AheadOnThree(Key(s[i + 1].value), Key(s[i].value));
  }

  /** Undefined entries come after every record. */
  lemma SortedUndefinedLast(s: seq<Option<CorpInfo>>, i: nat, j: nat)
    requires Sorted(s) && i < j < |s|
    requires s[i].None?
    ensures s[j].None?
  {
    assert Before(s[i], s[j]);
  }

  /** An official record comes before every record that is not official. */
  lemma SortedOfficialFirst(s: seq<Option<CorpInfo>>, i: nat, j: nat)
    requires Sorted(s) && i < |s| && j < |s|
    requires s[i].Some? && s[j].Some? && s[i].value.official && !s[j].value.official
    ensures i < j
  {
    if j < i {
      assert Before(s[j], s[i]);
      OfficialFirst(s[i].value, s[j].value);
    }
  }

  /** `getCorpInfosFromFiles`: map the listing through the loader, then sort. */
  method GetCorpInfosFromFiles(files: seq<FileEntry>) returns (r: seq<Option<CorpInfo>>)
    ensures r == SortSeq(LoadAll(files))
    ensures Sorted(r)
    ensures multiset(r) == multiset(LoadAll(files))
  {
    var loaded := LoadAll(files);
    var a := new Option<CorpInfo>[|loaded|](i requires 0 <= i < |loaded| => loaded[i]);
    assert a[..] == loaded;
    SortCorpInfos(a);
    r := a[..];
  }

  /** A sorted permutation is fully defined exactly when every input entry is. */
  lemma AllDefinedPreserved(s: seq<Option<CorpInfo>>, t: seq<Option<CorpInfo>>)
    requires multiset(s) == multiset(t)
    ensures (forall i :: 0 <= i < |s| ==> s[i].Some?) <==> (forall i :: 0 <= i < |t| ==> t[i].Some?)
  {
    if exists i :: 0 <= i < |s| && s[i].None? {
      var i :| 0 <= i < |s| && s[i].None?;
      assert None in multiset(s);
      assert None in t;
    }
    if exists i :: 0 <= i < |t| && t[i].None? {
      var i :| 0 <= i < |t| && t[i].None?;
      assert None in multiset(t);
      assert None in s;
    }
  }

  /** One unparsable file beside one good one: the record comes first and a
      single `undefined` entry follows it. */
  lemma OneBadOneGood(bad: FileEntry, good: FileEntry, r: seq<Option<CorpInfo>>)
    requires bad.parsed.None?
    requires LoadEntry(good).Some?
    requires Sorted(r) && multiset(r) == multiset(LoadAll([bad, good]))
    ensures r == [LoadEntry(good), None]
  {
    var c := LoadEntry(good);
    assert LoadAll([bad, good]) == [None, c];
    assert |r| == 2 by {
      assert |multiset(r)| == |multiset([None, c])|;
    }
    assert r == [r[0], r[1]];
    assert multiset{r[0], r[1]} == multiset{None, c};
    assert Before(r[0], r[1]);
  }

  /** An official record with the lower developer rate still comes before a
      non-official one with the higher rate: the sorted pair is fixed. */
  lemma OfficialBeforeHigherRate(a: CorpInfo, b: CorpInfo, r: seq<Option<CorpInfo>>)
    requires a.official && !b.official && a.nodeDeveloperRate < b.nodeDeveloperRate
    requires Sorted(r) && multiset(r) == multiset([Some(b), Some(a)])
    ensures r == [Some(a), Some(b)]
  {
    assert |r| == 2 by {
      assert |multiset(r)| == |multiset([Some(b), Some(a)])|;
    }
    assert r == [r[0], r[1]];
    assert multiset{r[0], r[1]} == multiset{Some(b), Some(a)};
    assert Before(r[0], r[1]);
    OfficialFirst(a, b);
  }
}
