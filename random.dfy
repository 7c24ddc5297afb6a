// Random selection utilities. The generator itself is not modelled: every
// draw is an input, constrained to the values the corresponding standard
// distribution can produce.

module Random {

  /** A draw of the uniform real distribution over [0, 1). */
  type Draw = u: real | 0.0 <= u < 1.0

  /** s with positions a and b exchanged. */
  function Swap<T>(s: seq<T>, a: nat, b: nat): (r: seq<T>)
    requires a < |s| && b < |s|
    ensures |r| == |s|
  {
    s[a := s[b]][b := s[a]]
  }

  /** a reorders b: the same elements, each as often. */
  ghost predicate Permutation<T>(a: seq<T>, b: seq<T>)
  {
    multiset(a) == multiset(b)
  }

  lemma SwapPermutes<T>(s: seq<T>, a: nat, b: nat, r: seq<T>)
    requires a < |s| && b < |s| && r == Swap(s, a, b)
    ensures Permutation(r, s)
  {
    if a != b {
      var t := s[a := s[b]];
      assert multiset(t) == multiset(s) - multiset{s[a]} + multiset{s[b]};
      assert multiset(t[b := s[a]]) == multiset(t) - multiset{t[b]} + multiset{s[a]};
    }
  }

  function Min(a: nat, b: nat): nat { if a <= b then a else b }

  /** The draws a run of k shuffle steps may see: step s picks an offset among the weights not yet passed, and the item at that offset exists. */
  predicate DrawsFit(n: nat, w: nat, draws: seq<nat>, k: nat)
  {
    k <= |draws| && forall s :: 0 <= s < k ==> draws[s] < w - s && s + draws[s] < n
  }

  /** The sequence after the first k steps of the shuffle: step s exchanges position s with position s + draws[s]. */
  function Shuffled<T>(s: seq<T>, draws: seq<nat>, k: nat): (r: seq<T>)
    requires k <= |draws| && forall j :: 0 <= j < k ==> j + draws[j] < |s|
    ensures |r| == |s|
  {
    if k == 0 then s
    else Swap(Shuffled(s, draws, k - 1), k - 1, k - 1 + draws[k - 1])
  }

  lemma ShuffledStep<T>(s: seq<T>, draws: seq<nat>, k: nat)
    requires 0 < k <= |draws| && forall j :: 0 <= j < k ==> j + draws[j] < |s|
    ensures k - 1 + draws[k - 1] < |s|
    ensures Permutation(Shuffled(s, draws, k), Shuffled(s, draws, k - 1))
  {
    SwapPermutes(Shuffled(s, draws, k - 1), k - 1, k - 1 + draws[k - 1], Shuffled(s, draws, k));
  }

  lemma ShuffledNext<T>(s: seq<T>, draws: seq<nat>, k: nat)
    requires k < |draws| && forall j :: 0 <= j <= k ==> j + draws[j] < |s|
    ensures k + draws[k] < |s|
    ensures Shuffled(s, draws, k + 1) == Swap(Shuffled(s, draws, k), k, k + draws[k])
  {
  }

  /** The shuffle only exchanges elements: the result is a permutation of the input. */
  lemma {:induction false} ShuffledPermutes<T>(s: seq<T>, draws: seq<nat>, k: nat)
    requires k <= |draws| && forall j :: 0 <= j < k ==> j + draws[j] < |s|
    ensures Permutation(Shuffled(s, draws, k), s)
  {
    if k > 0 {
      ShuffledPermutes(s, draws, k - 1);
      ShuffledStep(s, draws, k);
      ghost var before, after := Shuffled(s, draws, k - 1), Shuffled(s, draws, k);
      assert multiset(after) == multiset(before) == multiset(s);
    }
  }

  /** Positions already passed are never touched again: later steps keep the first k elements. */
  lemma {:induction false} ShuffledKeepsPassed<T>(s: seq<T>, draws: seq<nat>, k: nat, m: nat)
    requires k <= m <= |draws| && forall j :: 0 <= j < m ==> j + draws[j] < |s|
    ensures Shuffled(s, draws, m)[..k] == Shuffled(s, draws, k)[..k]
  {
    if m > k {
      ShuffledKeepsPassed(s, draws, k, m - 1);
      var prev := Shuffled(s, draws, m - 1);
      assert Shuffled(s, draws, m) == Swap(prev, m - 1, m - 1 + draws[m - 1]);
      assert Swap(prev, m - 1, m - 1 + draws[m - 1])[..k] == prev[..k];
    }
  }

  function Zip<T, W>(s: seq<T>, ws: seq<W>): (r: seq<(T, W)>)
    requires |s| == |ws|
    ensures |r| == |s| && forall i :: 0 <= i < |s| ==> r[i] == (s[i], ws[i])
  {
    seq(|s|, i requires 0 <= i < |s| => (s[i], ws[i]))
  }

  lemma SwapZip<T, W>(s: seq<T>, ws: seq<W>, a: nat, b: nat)
    requires |s| == |ws| && a < |s| && b < |s|
    ensures Swap(Zip(s, ws), a, b) == Zip(Swap(s, a, b), Swap(ws, a, b))
  {
  }

  /** Items and weights undergo the same exchanges, so the pair at each position after the shuffle came from one position before it. */
  lemma {:induction false} ShuffledInLockStep<T, W>(s: seq<T>, ws: seq<W>, draws: seq<nat>, k: nat)
    requires |s| == |ws|
    requires k <= |draws| && forall j :: 0 <= j < k ==> j + draws[j] < |s|
    ensures Shuffled(Zip(s, ws), draws, k) == Zip(Shuffled(s, draws, k), Shuffled(ws, draws, k))
  {
    if k > 0 {
      ShuffledInLockStep(s, ws, draws, k - 1);
      SwapZip(Shuffled(s, draws, k - 1), Shuffled(ws, draws, k - 1), k - 1, k - 1 + draws[k - 1]);
    }
  }

  /**
   * weighted_shuffle: walks both ranges together, and at each step swaps the
   * current item and weight with the ones at the drawn offset (offset 0 swaps
   * nothing). It stops when either range is used up, so with no weights
   * nothing moves.
   */
  method WeightedShuffle<T>(items: array<T>, weights: array<real>, draws: seq<nat>)
    requires items as object != weights as object
    requires DrawsFit(items.Length, weights.Length, draws, Min(items.Length, weights.Length))
    modifies items, weights
    ensures items[..] == Shuffled(old(items[..]), draws, Min(items.Length, weights.Length))
    ensures weights[..] == Shuffled(old(weights[..]), draws, Min(items.Length, weights.Length))
    ensures weights.Length == 0 ==> items[..] == old(items[..])
  {
    ghost var items0, weights0 := items[..], weights[..];
    ghost var n := Min(items.Length, weights.Length);
    assert forall j :: 0 <= j < n ==> j + draws[j] < |items0| && j + draws[j] < |weights0|;
    var first := 0;
    while first != items.Length && first != weights.Length
      invariant first <= n
      invariant items[..] == Shuffled(items0, draws, first)
      invariant weights[..] == Shuffled(weights0, draws, first)
    {
      ShuffledNext(items0, draws, first);
      ShuffledNext(weights0, draws, first);
      SwapPair(items, weights, first, first + draws[first]);
      first := first + 1;
    }
  }

  /** One step of weighted_shuffle: the item and the weight at x trade places with those at y, and nothing moves when y is x. */
  method SwapPair<T>(items: array<T>, weights: array<real>, x: nat, y: nat)
    requires items as object != weights as object
    requires x < items.Length && x < weights.Length && y < items.Length && y < weights.Length
    modifies items, weights
    ensures items[..] == Swap(old(items[..]), x, y)
    ensures weights[..] == Swap(old(weights[..]), x, y)
  {
    if y != x {
      IterSwap(items, x, y);
      IterSwap(weights, x, y);
    } else {
      assert items[..] == Swap(items[..], x, x);
      assert weights[..] == Swap(weights[..], x, x);
    }
  }

  /** std::iter_swap on two positions of one array. */
  method IterSwap<T>(a: array<T>, x: nat, y: nat)
    requires x < a.Length && y < a.Length
    modifies a
    ensures a[..] == Swap(old(a[..]), x, y)
  {
    a[x], a[y] := a[y], a[x];
  }

  /** random_choice: the position first + draw, draw being uniform over [0, last - first - 1]. */
  function RandomChoice(first: nat, last: nat, draw: int): (r: nat)
    requires first < last && 0 <= draw <= last - first - 1
    ensures first <= r < last && r - first == draw
  {
    first + draw
  }

  /** random_weighted_choice: the offset drawn from the discrete distribution over the weights, which only yields offsets of positive weight. */
  function RandomWeightedChoice(weights: seq<real>, draw: nat): (r: nat)
    requires draw < |weights| && weights[draw] > 0.0
    ensures r < |weights| && weights[r] > 0.0
  {
    draw
  }
}
