/** The truncated mean of the per-layer cluster sizes of one track: the
    cluster-size statistic of the analysis' common header. */
module Common {
  import opened ClusterWord
  import opened LayerStats
  import opened FloatValue

  /** The mean of `xs` as a single-precision sum over count; the mean of no
      values is 0/0. */
  function Mean(xs: seq<nat>): (m: Float)
    ensures m.NaN? <==> xs == []
    ensures m.Finite? <==> xs != []
  {
    Divide(Sum(xs) as real, |xs| as real)
  }

  /** Reference definition of the statistic: 0 when no layer has a cluster,
      otherwise the mean of the nonzero layer values after one occurrence of
      their maximum is discarded. */
  function TruncatedMean(layers: seq<nat>): Float
  {
    var sizes := Nonzero(layers);
    if sizes == [] then Finite(0.0) else Mean(RemoveOne(sizes, Max(sizes)))
  }

  /** Decodes the seven layer fields of the word, accumulating the number of
      layers with a cluster, the sum of their sizes and the largest size, and
      returns the sum minus the largest size over the count minus one, or 0
      when no layer has a cluster. */
  method AverageClusterSize(itsClusterSizes: uint32) returns (r: Float)
    ensures r == TruncatedMean(Layers(itsClusterSizes))
  {
    ghost var layers := Layers(itsClusterSizes);
    var sum: int := 0;
    var nclusters: int := 0;
    var max: int := 0;
    for layer := 0 to NumLayers
      invariant 0 <= nclusters <= layer
      invariant nclusters == |Nonzero(layers[..layer])|
      invariant sum == Sum(Nonzero(layers[..layer]))
      invariant max == Max(Nonzero(layers[..layer]))
    {
      var clsize := Nibble(itsClusterSizes, layer);
      assert layers[layer] == clsize;
      NextLayer(layers, layer);
      if clsize > 0 {
        nclusters := nclusters + 1;
        sum := sum + clsize;
        if clsize > max {
          max := clsize;
        }
      }
    }
    assert layers[..NumLayers] == layers;
    if nclusters == 0 {
      return Finite(0.0);
    }
    r := Divide((sum - max) as real, (nclusters - 1) as real);
    TruncatedMeanFromTotals(layers, nclusters, sum, max);
  }

  /** How layer `l` changes the count, sum and maximum of the clusters on
      the layers below it. */
  lemma NextLayer(layers: seq<nat>, l: nat)
    requires l < |layers|
    ensures |Nonzero(layers[..l + 1])| == |Nonzero(layers[..l])| + (if layers[l] > 0 then 1 else 0)
    ensures Sum(Nonzero(layers[..l + 1])) == Sum(Nonzero(layers[..l])) + layers[l]
    ensures Max(Nonzero(layers[..l + 1]))
         == if layers[l] > Max(Nonzero(layers[..l])) then layers[l] else Max(Nonzero(layers[..l]))
  {
    var prefix, x := layers[..l], layers[l];
    assert layers[..l + 1] == prefix + [x];
    var sizes := Nonzero(prefix);
    Snoc(prefix, x);
    if x > 0 {
      Snoc(sizes, x);
      assert Nonzero(prefix + [x]) == sizes + [x];
    } else {
      assert Nonzero(prefix + [x]) == sizes;
    }
  }

  /** With at least one cluster, the statistic is the sum minus the maximum
      divided by the count minus one. */
  lemma TruncatedMeanFromTotals(layers: seq<nat>, count: int, sum: int, max: int)
    requires count == |Nonzero(layers)| && sum == Sum(Nonzero(layers)) && max == Max(Nonzero(layers))
    requires count > 0
    ensures TruncatedMean(layers) == Divide((sum - max) as real, (count - 1) as real)
  {
    MeanWithoutMax(Nonzero(layers));
  }

  /** The mean left after taking out the maximum, from the totals. */
  lemma MeanWithoutMax(sizes: seq<nat>)
    requires sizes != []
    ensures Mean(RemoveOne(sizes, Max(sizes)))
         == Divide((Sum(sizes) - Max(sizes)) as real, (|sizes| - 1) as real)
  {
    var rest := RemoveOne(sizes, Max(sizes));
    RemoveMax(sizes);
    assert Sum(rest) as real == (Sum(sizes) - Max(sizes)) as real;
    assert |rest| as real == (|sizes| - 1) as real;
  }

  /** Every nonzero value of four-bit layers lies in 1..15. */
  lemma SizesWithin(layers: seq<nat>)
    requires forall l :: 0 <= l < |layers| ==> layers[l] < 16
    ensures forall i :: 0 <= i < |Nonzero(layers)| ==> 1 <= Nonzero(layers)[i] <= 15
  {
    var sizes := Nonzero(layers);
    NonzeroMembers(layers);
    forall i | 0 <= i < |sizes| ensures 1 <= sizes[i] <= 15 {
      assert sizes[i] in layers;
    }
  }

  /** Bounds on the accumulated totals when every layer value fits in four
      bits: the maximum is at most 15 and at most the sum, the sum is at most
      15 per cluster, and the sum without the maximum is at most 15 per
      remaining cluster. */
  lemma TotalsBounds(layers: seq<nat>)
    requires forall l :: 0 <= l < |layers| ==> layers[l] < 16
    ensures |Nonzero(layers)| <= |layers|
    ensures Max(Nonzero(layers)) <= 15
    ensures Max(Nonzero(layers)) <= Sum(Nonzero(layers)) <= 15 * |Nonzero(layers)|
    ensures |Nonzero(layers)| >= 1 ==>
              0 <= Sum(Nonzero(layers)) - Max(Nonzero(layers)) <= 15 * (|Nonzero(layers)| - 1)
  {
    var sizes := Nonzero(layers);
    SizesWithin(layers);
    SumBetween(sizes, 1, 15);
    MaxAtMostSum(sizes);
    if sizes != [] {
      MaxIsMember(sizes);
      SumWithoutMax(sizes, 1, 15);
    }
  }

  /** No layer has a cluster exactly when every layer value is zero. */
  lemma NoClusters(layers: seq<nat>)
    ensures Nonzero(layers) == [] <==> forall l :: 0 <= l < |layers| ==> layers[l] == 0
  {
    NonzeroMembers(layers);
    if Nonzero(layers) == [] {
      forall l | 0 <= l < |layers| ensures layers[l] == 0 {
        assert layers[l] in layers;
      }
    }
    if Nonzero(layers) != [] {
      assert Nonzero(layers)[0] in Nonzero(layers);
    }
  }

  /** The result is undefined (0/0) exactly when one layer has a cluster, and
      never infinite: a single cluster is its own maximum, so the numerator is
      zero whenever the divisor is. */
  lemma UndefinedIffSingleCluster(layers: seq<nat>)
    ensures TruncatedMean(layers).NaN? <==> |Nonzero(layers)| == 1
    ensures TruncatedMean(layers).Finite? <==> |Nonzero(layers)| != 1
  {
    var sizes := Nonzero(layers);
    if sizes != [] {
      RemoveMax(sizes);
    }
  }

  /** Converting a product of naturals to a real multiplies the converted
      factors. */
  lemma {:induction false} RealProduct(a: nat, b: nat)
    ensures (a * b) as real == (a as real) * (b as real)
  {
    if a > 0 {
      RealProduct(a - 1, b);
      assert a * b == (a - 1) * b + b;
      assert (a as real) * (b as real) == ((a - 1) as real) * (b as real) + b as real;
    }
  }

  lemma MulStrict(a: real, b: real, k: real)
    requires a < b && k > 0.0
    ensures a * k < b * k
  {
  }

  /** A quotient of naturals `n / k` with `k * lo <= n <= k * hi` lies
      between `lo` and `hi`. */
  lemma QuotientBetween(n: nat, k: nat, lo: nat, hi: nat)
    requires k > 0 && k * lo <= n <= k * hi
    ensures lo as real <= n as real / k as real <= hi as real
  {
    RealProduct(k, lo);
    RealProduct(k, hi);
    var kr := k as real;
    var v := n as real / kr;
    assert v * kr == n as real;
    if v < lo as real { MulStrict(v, lo as real, kr); }
    if v > hi as real { MulStrict(hi as real, v, kr); }
  }

  /** The mean of values within bounds lies within the same bounds. */
  lemma MeanBetween(xs: seq<nat>, lo: nat, hi: nat)
    requires xs != []
    requires forall i :: 0 <= i < |xs| ==> lo <= xs[i] <= hi
    ensures Mean(xs).Finite?
    ensures lo as real <= Mean(xs).value <= hi as real
  {
    SumBetween(xs, lo, hi);
    QuotientBetween(Sum(xs), |xs|, lo, hi);
  }

  /** With two or more clusters the result is a number between the smallest
      and the largest nonzero layer value. */
  lemma MeanWithinRange(layers: seq<nat>)
    requires |Nonzero(layers)| >= 2
    ensures TruncatedMean(layers).Finite?
    ensures Min(Nonzero(layers)) as real <= TruncatedMean(layers).value <= Max(Nonzero(layers)) as real
  {
    var sizes := Nonzero(layers);
    RemoveMax(sizes);
    RemoveOneWithin(sizes, Max(sizes), Min(sizes), Max(sizes));
    MeanBetween(RemoveOne(sizes, Max(sizes)), Min(sizes), Max(sizes));
  }

  /** The mean of a single value is that value. */
  lemma MeanOfOne(x: nat)
    ensures Mean([x]) == Finite(x as real)
  {
    assert [x][..0] == [];
    assert Sum([x]) == x;
  }

  /** With exactly two clusters the result is the smaller of the two. */
  lemma TwoClusters(layers: seq<nat>, a: nat, b: nat)
    requires Nonzero(layers) == [a, b]
    ensures TruncatedMean(layers) == Finite(if a <= b then a as real else b as real)
  {
    RemoveMaxOfTwo(a, b);
    MeanOfOne(if a <= b then a else b);
  }

  /** An empty word gives exactly 0, and nothing else does: any word with a
      cluster on one of its seven layers gives NaN or a mean of 1 or more. */
  lemma ZeroIffNoClusters(w: uint32)
    ensures TruncatedMean(Layers(w)) == Finite(0.0) <==> w % 0x1000_0000 == 0
  {
    var layers := Layers(w);
    AllLayersEmpty(w);
    NoClusters(layers);
    UndefinedIffSingleCluster(layers);
    var sizes := Nonzero(layers);
    if |sizes| >= 2 {
      MeanWithinRange(layers);
      assert Min(sizes) in sizes;
    }
  }

  /** Bits 28..31 of the word never change the result. */
  lemma HighBitsIgnored(w1: uint32, w2: uint32)
    requires w1 % 0x1000_0000 == w2 % 0x1000_0000
    ensures TruncatedMean(Layers(w1)) == TruncatedMean(Layers(w2))
  {
    LayersDetermineLowBits(w1, w2);
  }
}
