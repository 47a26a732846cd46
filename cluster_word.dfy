/** The packed per-layer cluster-size word of the inner tracker: an unsigned
    32-bit value in which layer `l` (0 <= l < 7) owns the four bits starting at
    bit 4 * l. A zero field means that the layer has no cluster.

    On an unsigned word, `w >> k` is `w / 2^k` and `x & 0xF` is `x % 16`; the
    decoder is written with those two operations. */
module ClusterWord {

  /** `uint32_t`. */
  type uint32 = w: int | 0 <= w < 0x1_0000_0000

  /** Number of layers packed into one word. */
  const NumLayers: nat := 7

  function Pow2(k: nat): (p: nat)
    ensures p >= 1
  {
    if k == 0 then 1 else 2 * Pow2(k - 1)
  }

  /** The cluster size of layer `l`: `(w >> (l * 4)) & 0xF`. */
  function Nibble(w: uint32, l: nat): (c: nat)
    requires l < NumLayers
    ensures c < 16
  {
    (w / Pow2(l * 4)) % 16
  }

  /** The seven decoded layer values, layer 0 first. */
  function Layers(w: uint32): (s: seq<nat>)
    ensures |s| == NumLayers
    ensures forall l :: 0 <= l < |s| ==> s[l] < 16
  {
    seq(NumLayers, l requires 0 <= l < NumLayers => Nibble(w, l))
  }

  /** Quotient and remainder are the only pair that represents `n`. */
  lemma DivModUnique(n: int, d: int, q: int, r: int)
    requires d > 0 && n == d * q + r && 0 <= r < d
    ensures n / d == q && n % d == r
  {
    var q', r' := n / d, n % d;
    assert d * (q' - q) == r - r';
    if q' - q > 0 { MulAtLeast(d, q' - q); }
    if q - q' > 0 { MulAtLeast(d, q - q'); }
  }

  lemma MulAtLeast(d: int, k: int)
    requires d > 0 && k > 0
    ensures d * k >= d
  {
  }

  /** Splitting a remainder by `d * m` into the remainder by `d` and the next
      digit in base `m`. */
  lemma ModSplit(w: nat, d: nat, m: nat)
    requires d > 0 && m > 0
    ensures w % (d * m) == w % d + d * ((w / d) % m)
  {
    var a, b := w / d, w % d;
    var hi, lo := a / m, a % m;
    assert w == d * a + b;
    assert a == m * hi + lo;
    assert w == (d * m) * hi + (d * lo + b) by {
      assert d * a == d * (m * hi) + d * lo;
      assert d * (m * hi) == (d * m) * hi;
    }
    assert d * lo <= d * (m - 1) by { MulMono(d, lo, m - 1); }
    assert d * (m - 1) == d * m - d;
    DivModUnique(w, d * m, hi, d * lo + b);
  }

  lemma MulMono(d: nat, x: nat, y: nat)
    requires x <= y
    ensures d * x <= d * y
  {
    assert d * y == d * x + d * (y - x);
  }

  /** `x + p * y` with `0 <= x < p` determines `x` and `y`. */
  lemma DigitPairUnique(x1: int, y1: int, x2: int, y2: int, p: int)
    requires p > 0 && 0 <= x1 < p && 0 <= x2 < p
    requires x1 + p * y1 == x2 + p * y2
    ensures x1 == x2 && y1 == y2
  {
    DivModUnique(x1 + p * y1, p, y1, x1);
    DivModUnique(x2 + p * y2, p, y2, x2);
  }

  /** One more layer is four more bits. */
  lemma Pow2NextLayer(n: nat)
    requires n >= 1
    ensures Pow2(n * 4) == Pow2((n - 1) * 4) * 16
  {
    var k := (n - 1) * 4;
    assert n * 4 == k + 4;
    assert Pow2(k + 4) == 2 * Pow2(k + 3) == 4 * Pow2(k + 2) == 8 * Pow2(k + 1) == 16 * Pow2(k);
  }

  /** The low `4 * n` bits of a word are its layers below `n`: two words agree
      on those bits exactly when they agree on every layer below `n`. */
  lemma {:induction false} LowBitsAreLayers(w1: uint32, w2: uint32, n: nat)
    requires n <= NumLayers
    ensures w1 % Pow2(n * 4) == w2 % Pow2(n * 4)
        <==> forall l :: 0 <= l < n ==> Nibble(w1, l) == Nibble(w2, l)
  {
    if n > 0 {
      var m := n - 1;
      var p := Pow2(m * 4);
      LowBitsAreLayers(w1, w2, m);
      Pow2NextLayer(n);
      ModSplit(w1, p, 16);
      ModSplit(w2, p, 16);
      assert w1 % Pow2(n * 4) == w1 % p + p * Nibble(w1, m);
      assert w2 % Pow2(n * 4) == w2 % p + p * Nibble(w2, m);
      if w1 % Pow2(n * 4) == w2 % Pow2(n * 4) {
        DigitPairUnique(w1 % p, Nibble(w1, m), w2 % p, Nibble(w2, m), p);
      }
    }
  }

  /** Bits 0..27 are the low `4 * NumLayers` bits. */
  lemma LayerBitsBound()
    ensures Pow2(NumLayers * 4) == 0x1000_0000
  {
    assert Pow2(4) == 16;
    Pow2NextLayer(2); Pow2NextLayer(3); Pow2NextLayer(4);
    Pow2NextLayer(5); Pow2NextLayer(6); Pow2NextLayer(7);
  }

  lemma LayersEqual(w1: uint32, w2: uint32)
    ensures Layers(w1) == Layers(w2) <==> forall l :: 0 <= l < NumLayers ==> Nibble(w1, l) == Nibble(w2, l)
  {
    if forall l :: 0 <= l < NumLayers ==> Nibble(w1, l) == Nibble(w2, l) {
      assert forall l :: 0 <= l < NumLayers ==> Layers(w1)[l] == Layers(w2)[l];
    }
    if Layers(w1) == Layers(w2) {
      forall l | 0 <= l < NumLayers
        ensures Nibble(w1, l) == Nibble(w2, l)
      {
        assert Layers(w1)[l] == Layers(w2)[l];
      }
    }
  }

  /** The decoded layers depend on bits 0..27 and on nothing else: two words
      decode alike exactly when they agree on those bits. */
  lemma LayersDetermineLowBits(w1: uint32, w2: uint32)
    ensures Layers(w1) == Layers(w2) <==> w1 % 0x1000_0000 == w2 % 0x1000_0000
  {
    LowBitsAreLayers(w1, w2, NumLayers);
    LayerBitsBound();
    LayersEqual(w1, w2);
  }

  /** Every layer reads zero exactly when bits 0..27 are all clear. */
  lemma AllLayersEmpty(w: uint32)
    ensures (forall l :: 0 <= l < NumLayers ==> Layers(w)[l] == 0) <==> w % 0x1000_0000 == 0
  {
    LayersDetermineLowBits(w, 0);
    assert forall l :: 0 <= l < NumLayers ==> Layers(0)[l] == 0;
  }
}
