// Order-preserving selection over sequences: the std::remove_if/erase and
// find_if/push_back idioms of the containers are stated with these.
module Seqs {

  /** The elements of s that satisfy p, in their original order. */
  function Filter<T>(s: seq<T>, p: T -> bool): (r: seq<T>)
    ensures |r| <= |s|
    ensures forall k :: 0 <= k < |r| ==> p(r[k])
  {
    if |s| == 0 then []
    else Filter(s[..|s| - 1], p) + (if p(s[|s| - 1]) then [s[|s| - 1]] else [])
  }

  lemma {:induction false} FilterAppend<T>(a: seq<T>, b: seq<T>, p: T -> bool)
    ensures Filter(a + b, p) == Filter(a, p) + Filter(b, p)
    decreases |b|
  {
    if |b| == 0 {
      assert a + b == a;
    } else {
      var b' := b[..|b| - 1];
      assert (a + b)[..|a + b| - 1] == a + b';
      FilterAppend(a, b', p);
    }
  }

  lemma {:induction false} FilterCons<T>(x: T, s: seq<T>, p: T -> bool)
    ensures Filter([x] + s, p) == (if p(x) then [x] else []) + Filter(s, p)
  {
    FilterAppend([x], s, p);
    assert [x][..0] == [];
    assert Filter([x], p) == Filter([], p) + (if p(x) then [x] else []);
  }

  lemma FilterSnoc<T>(s: seq<T>, x: T, p: T -> bool)
    ensures Filter(s + [x], p) == Filter(s, p) + (if p(x) then [x] else [])
  {
    assert (s + [x])[..|s|] == s;
  }

  /** An element is selected iff it occurs in the input and satisfies p. */
  lemma {:induction false} FilterMember<T>(s: seq<T>, p: T -> bool, x: T)
    ensures x in Filter(s, p) <==> x in s && p(x)
    decreases |s|
  {
    if |s| > 0 {
      var s' := s[..|s| - 1];
      FilterMember(s', p, x);
      assert s == s' + [s[|s| - 1]];
      assert x in s <==> x in s' || x == s[|s| - 1];
    }
  }

  /** Nothing is dropped when every element satisfies p. */
  lemma {:induction false} FilterKeepsAll<T>(s: seq<T>, p: T -> bool)
    requires forall k :: 0 <= k < |s| ==> p(s[k])
    ensures Filter(s, p) == s
    decreases |s|
  {
    if |s| > 0 {
      FilterKeepsAll(s[..|s| - 1], p);
    }
  }

  /** The number of elements of s that satisfy p. */
  function Count<T>(s: seq<T>, p: T -> bool): nat
  {
    if |s| == 0 then 0 else Count(s[..|s| - 1], p) + (if p(s[|s| - 1]) then 1 else 0)
  }

  function Not<T>(p: T -> bool): T -> bool { x => !p(x) }

  /** Selecting by p and by its negation splits s without loss. */
  lemma {:induction false} FilterSizes<T>(s: seq<T>, p: T -> bool)
    ensures |Filter(s, p)| == Count(s, p)
    ensures |Filter(s, p)| + Count(s, Not(p)) == |s|
    decreases |s|
  {
    if |s| > 0 {
      FilterSizes(s[..|s| - 1], p);
    }
  }

  /** The position of the first element satisfying p, or |s| when none does. */
  function FirstWhere<T>(s: seq<T>, p: T -> bool): (k: nat)
    ensures k <= |s|
    ensures k < |s| ==> p(s[k])
    ensures forall j :: 0 <= j < k ==> !p(s[j])
  {
    if |s| == 0 then 0
    else if p(s[0]) then 0
    else 1 + FirstWhere(s[1..], p)
  }

  /** Appending never moves the first match of the old elements. */
  lemma FirstWhereAppend<T>(s: seq<T>, x: T, p: T -> bool)
    ensures FirstWhere(s + [x], p) == (if FirstWhere(s, p) < |s| then FirstWhere(s, p) else if p(x) then |s| else |s| + 1)
  {
    var k := FirstWhere(s + [x], p);
    var k0 := FirstWhere(s, p);
    if k0 < |s| {
      assert (s + [x])[k0] == s[k0];
    } else {
      if p(x) { assert (s + [x])[|s|] == x; }
    }
  }

  /** The lists of xss appended in order. */
  function Flatten<T>(xss: seq<seq<T>>): seq<T>
  {
    if |xss| == 0 then [] else Flatten(xss[..|xss| - 1]) + xss[|xss| - 1]
  }

  /** Flattening one list more appends that list. */
  lemma FlattenSnoc<T>(xss: seq<seq<T>>, n: nat)
    requires n < |xss|
    ensures Flatten(xss[..n + 1]) == Flatten(xss[..n]) + xss[n]
  {
    assert xss[..n + 1][..n] == xss[..n];
  }

  /** Every element of a flattened list is element j of some list t of xss. */
  lemma {:induction false} FlattenIndex<T>(xss: seq<seq<T>>, i: nat) returns (t: nat, j: nat)
    requires i < |Flatten(xss)|
    ensures t < |xss| && j < |xss[t]| && Flatten(xss)[i] == xss[t][j]
  {
    var prev := xss[..|xss| - 1];
    if i < |Flatten(prev)| {
      t, j := FlattenIndex(prev, i);
    } else {
      t, j := |xss| - 1, i - |Flatten(prev)|;
    }
  }
}
