/** The comparator `sortByCorpInfo`: official first, then the higher
    developer rate, then the higher project rate. */
module Comparator {
  import opened CorpInfos

  /** JavaScript's numeric coercion of a boolean in `b.official - a.official`. */
  function BoolToNumber(b: bool): (n: int)
    ensures 0 <= n <= 1
    ensures n == 1 <==> b
  {
    if b then 1 else 0
  }

  /** The three sort keys, most significant first. */
  function Key(c: CorpInfo): (k: seq<int>)
    ensures |k| == 3
  {
    [BoolToNumber(c.official), c.nodeDeveloperRate, c.nodeProjectRate]
  }

  /** Descending lexicographic order on key sequences of equal length:
      `x` belongs strictly ahead of `y`. */
  predicate Ahead(x: seq<int>, y: seq<int>)
    requires |x| == |y|
    decreases |x|
  {
    |x| > 0 && (x[0] > y[0] || (x[0] == y[0] && Ahead(x[1..], y[1..])))
  }

  lemma {:induction false} AheadTransitive(x: seq<int>, y: seq<int>, z: seq<int>)
    requires |x| == |y| == |z|
    requires Ahead(x, y) && Ahead(y, z)
    ensures Ahead(x, z)
    decreases |x|
  {
    if x[0] == y[0] == z[0] {
      AheadTransitive(x[1..], y[1..], z[1..]);
    }
  }

  /** Exactly one of: equal, ahead, behind. */
  lemma {:induction false} AheadTrichotomy(x: seq<int>, y: seq<int>)
    requires |x| == |y|
    ensures x == y || Ahead(x, y) || Ahead(y, x)
    ensures !(Ahead(x, y) && Ahead(y, x))
    ensures x == y ==> !Ahead(x, y)
    decreases |x|
  {
    if |x| > 0 {
      AheadTrichotomy(x[1..], y[1..]);
      if x[0] == y[0] && x[1..] == y[1..] {
        assert x == [x[0]] + x[1..] && y == [y[0]] + y[1..];
      }
    }
  }

  /** On three keys the order reads: first key higher, or equal and second
      higher, or both equal and third higher. */
  lemma AheadOnThree(x: seq<int>, y: seq<int>)
    requires |x| == |y| == 3
    ensures Ahead(x, y) <==>
      x[0] > y[0] || (x[0] == y[0] && (x[1] > y[1] || (x[1] == y[1] && x[2] > y[2])))
  {
    assert Ahead(x[1..][1..][1..], y[1..][1..][1..]) == false;
    assert Ahead(x[1..][1..], y[1..][1..]) <==> x[2] > y[2];
    assert Ahead(x[1..], y[1..]) <==> x[1] > y[1] || (x[1] == y[1] && x[2] > y[2]);
  }

  /** `sortByCorpInfo(a, b)`: negative when `a` goes first, positive when `b`
      goes first, zero on a tie of all three keys. */
  function SortByCorpInfo(a: CorpInfo, b: CorpInfo): (r: int)
    ensures r < 0 <==> Ahead(Key(a), Key(b))
    ensures r > 0 <==> Ahead(Key(b), Key(a))
    ensures r == 0 <==> Key(a) == Key(b)
  {
    AheadTrichotomy(Key(a), Key(b));
    AheadOnThree(Key(a), Key(b));
    AheadOnThree(Key(b), Key(a));
    if b.official != a.official then
      BoolToNumber(b.official) - BoolToNumber(a.official)
    else if b.nodeDeveloperRate != a.nodeDeveloperRate then
      b.nodeDeveloperRate - a.nodeDeveloperRate
    else
      b.nodeProjectRate - a.nodeProjectRate
  }

  /** A tie means exactly that the three key fields agree. */
  lemma ComparatorZeroIff(a: CorpInfo, b: CorpInfo)
    ensures SortByCorpInfo(a, b) == 0 <==>
      a.official == b.official && a.nodeDeveloperRate == b.nodeDeveloperRate
      && a.nodeProjectRate == b.nodeProjectRate
  {
    var ka, kb := Key(a), Key(b);
    if ka == kb {
      assert ka[0] == kb[0] && ka[1] == kb[1] && ka[2] == kb[2];
    }
  }

  /** Swapping the arguments negates the result, so its sign too. */
  lemma ComparatorAntisymmetric(a: CorpInfo, b: CorpInfo)
    ensures SortByCorpInfo(a, b) == -SortByCorpInfo(b, a)
  {
  }

  lemma ComparatorReflexive(a: CorpInfo)
    ensures SortByCorpInfo(a, a) == 0
  {
  }

  /** "Goes no later than" is transitive, and so is "goes strictly first". */
  lemma ComparatorTransitive(a: CorpInfo, b: CorpInfo, c: CorpInfo)
    ensures SortByCorpInfo(a, b) <= 0 && SortByCorpInfo(b, c) <= 0 ==> SortByCorpInfo(a, c) <= 0
    ensures SortByCorpInfo(a, b) < 0 && SortByCorpInfo(b, c) < 0 ==> SortByCorpInfo(a, c) < 0
  {
    var ka, kb, kc := Key(a), Key(b), Key(c);
    if Ahead(ka, kb) && Ahead(kb, kc) {
      AheadTransitive(ka, kb, kc);
    }
  }

  /** An official company goes first whatever the rates. */
  lemma OfficialFirst(a: CorpInfo, b: CorpInfo)
    requires a.official && !b.official
    ensures SortByCorpInfo(a, b) < 0
  {
  }

  /** Between records with equal official flags, the higher developer rate
      goes first, whatever the project rates. */
  lemma DeveloperRateNext(a: CorpInfo, b: CorpInfo)
    requires a.official == b.official && a.nodeDeveloperRate > b.nodeDeveloperRate
    ensures SortByCorpInfo(a, b) < 0
  {
  }
}
