/** Statistics over a sequence of per-layer cluster sizes, read in layer
    order. Sequences are taken apart from the end, so that a function applied
    to `s[..k+1]` is one step away from the same function on `s[..k]`, which
    is how a loop over the layers sees them. */
module LayerStats {

  /** The nonzero values of `s` (the layers that have a cluster), in order. */
  function Nonzero(s: seq<nat>): (r: seq<nat>)
    ensures |r| <= |s|
    ensures forall i :: 0 <= i < |r| ==> r[i] > 0
  {
    if s == [] then [] else
      var front, last := s[..|s| - 1], s[|s| - 1];
      assert s == front + [last];
      Nonzero(front) + (if last > 0 then [last] else [])
  }

  /** The filter keeps exactly the nonzero values. */
  lemma {:induction false} NonzeroMembers(s: seq<nat>)
    ensures forall x :: x in Nonzero(s) <==> x in s && x > 0
  {
    if s != [] {
      var front, last := s[..|s| - 1], s[|s| - 1];
      assert s == front + [last];
      NonzeroMembers(front);
    }
  }

  function Sum(s: seq<nat>): nat
  {
    if s == [] then 0 else Sum(s[..|s| - 1]) + s[|s| - 1]
  }

  /** The largest value of `s`, or 0 when `s` is empty. */
  function Max(s: seq<nat>): (m: nat)
    ensures forall i :: 0 <= i < |s| ==> s[i] <= m
    ensures s == [] ==> m == 0
  {
    if s == [] then 0 else
      var m' := Max(s[..|s| - 1]);
      assert s == s[..|s| - 1] + [s[|s| - 1]];
      if s[|s| - 1] > m' then s[|s| - 1] else m'
  }

  /** The maximum of a nonempty sequence is one of its values. */
  lemma {:induction false} MaxIsMember(s: seq<nat>)
    requires s != []
    ensures Max(s) in s
  {
    var front := s[..|s| - 1];
    assert s == front + [s[|s| - 1]];
    if front != [] {
      MaxIsMember(front);
    }
  }

  /** The smallest value of a nonempty `s`. */
  function Min(s: seq<nat>): (m: nat)
    requires s != []
    ensures forall i :: 0 <= i < |s| ==> m <= s[i]
    ensures m in s
  {
    if |s| == 1 then s[0] else
      var m' := Min(s[..|s| - 1]);
      assert s == s[..|s| - 1] + [s[|s| - 1]];
      if s[|s| - 1] < m' then s[|s| - 1] else m'
  }

  /** `s` with its last occurrence of `x` taken out, or `s` itself when `x`
      does not occur in it. */
  function RemoveOne(s: seq<nat>, x: nat): (r: seq<nat>)
    ensures x in s ==> |r| == |s| - 1
    ensures x !in s ==> r == s
  {
    if s == [] then [] else
      var front, last := s[..|s| - 1], s[|s| - 1];
      assert s == front + [last];
      if last == x then front else RemoveOne(front, x) + [last]
  }

  /** Taking out one occurrence takes exactly one copy of `x` off the
      multiset of values. */
  lemma {:induction false} RemoveOneMultiset(s: seq<nat>, x: nat)
    ensures multiset(RemoveOne(s, x)) == multiset(s) - multiset{x}
  {
    if s != [] {
      var front, last := s[..|s| - 1], s[|s| - 1];
      assert s == front + [last];
      assert multiset(s) == multiset(front) + multiset{last};
      if last != x {
        RemoveOneMultiset(front, x);
        assert multiset(RemoveOne(front, x) + [last]) == multiset(RemoveOne(front, x)) + multiset{last};
      }
    }
  }

  /** One more layer, seen by the filter, the sum and the maximum. */
  lemma Snoc(s: seq<nat>, x: nat)
    ensures Nonzero(s + [x]) == Nonzero(s) + (if x > 0 then [x] else [])
    ensures Sum(s + [x]) == Sum(s) + x
    ensures Max(s + [x]) == if x > Max(s) then x else Max(s)
  {
    assert (s + [x])[..|s|] == s;
  }

  lemma {:induction false} SumAppend(s: seq<nat>, t: seq<nat>)
    ensures Sum(s + t) == Sum(s) + Sum(t)
  {
    if t == [] {
      assert s + t == s;
    } else {
      var t', last := t[..|t| - 1], t[|t| - 1];
      assert s + t == (s + t') + [last];
      SumAppend(s, t');
    }
  }

  /** Taking out one occurrence of `x` takes `x` off the sum. */
  lemma {:induction false} SumRemoveOne(s: seq<nat>, x: nat)
    requires x in s
    ensures Sum(RemoveOne(s, x)) + x == Sum(s)
  {
    var front, last := s[..|s| - 1], s[|s| - 1];
    assert s == front + [last];
    if last != x {
      assert x in front;
      SumRemoveOne(front, x);
      SumAppend(RemoveOne(front, x), [last]);
    }
  }

  /** Taking out one occurrence of the maximum leaves one value fewer, summing
      to the total minus the maximum. */
  lemma RemoveMax(s: seq<nat>)
    requires s != []
    ensures |RemoveOne(s, Max(s))| == |s| - 1
    ensures Sum(RemoveOne(s, Max(s))) == Sum(s) - Max(s)
  {
    MaxIsMember(s);
    SumRemoveOne(s, Max(s));
  }

  /** Of two values, taking out the larger leaves the smaller. */
  lemma RemoveMaxOfTwo(a: nat, b: nat)
    ensures RemoveOne([a, b], Max([a, b])) == [if a <= b then a else b]
  {
    assert [a, b][..1] == [a];
    assert [a][..0] == [];
    if b > a {
      assert Max([a, b]) == b;
    } else {
      assert Max([a, b]) == a;
      assert RemoveOne([a], a) == [];
    }
  }

  /** A sum lies between the length times any lower bound and the length
      times any upper bound of the values summed. */
  lemma {:induction false} SumBetween(s: seq<nat>, lo: nat, hi: nat)
    requires forall i :: 0 <= i < |s| ==> lo <= s[i] <= hi
    ensures |s| * lo <= Sum(s) <= |s| * hi
  {
    if s != [] {
      var front := s[..|s| - 1];
      SumBetween(front, lo, hi);
      assert |s| * lo == |front| * lo + lo;
      assert |s| * hi == |front| * hi + hi;
    }
  }

  /** Taking a value out keeps every remaining value within the bounds of
      the original ones. */
  lemma RemoveOneWithin(s: seq<nat>, x: nat, lo: nat, hi: nat)
    requires forall i :: 0 <= i < |s| ==> lo <= s[i] <= hi
    ensures forall i :: 0 <= i < |RemoveOne(s, x)| ==> lo <= RemoveOne(s, x)[i] <= hi
  {
    var r := RemoveOne(s, x);
    RemoveOneMultiset(s, x);
    forall i | 0 <= i < |r| ensures lo <= r[i] <= hi {
      assert r[i] in multiset(r);
      assert r[i] in s;
    }
  }

  /** The values left after taking out the maximum sum to the total minus
      the maximum, and stay within the bounds of the original values. */
  lemma SumWithoutMax(s: seq<nat>, lo: nat, hi: nat)
    requires s != []
    requires forall i :: 0 <= i < |s| ==> lo <= s[i] <= hi
    ensures (|s| - 1) * lo <= Sum(s) - Max(s) <= (|s| - 1) * hi
  {
    var r := RemoveOne(s, Max(s));
    RemoveMax(s);
    RemoveOneWithin(s, Max(s), lo, hi);
    SumBetween(r, lo, hi);
  }

  /** The largest value is part of the sum. */
  lemma {:induction false} MaxAtMostSum(s: seq<nat>)
    ensures Max(s) <= Sum(s)
  {
    if s != [] {
      var front := s[..|s| - 1];
      MaxAtMostSum(front);
    }
  }
}
