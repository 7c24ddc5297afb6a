// std::stable_sort with a "key(a) < key(b)" comparator, and std::string's
// operator< (lexicographic by character). The program sorts molecules by
// name (Topology::sort) and rate-table entries by distance (the reaction
// parser) this way.
module StableSort {

  import opened Seqs

  ghost predicate Irreflexive<K(!new)>(lt: (K, K) -> bool)
  {
    forall a :: !lt(a, a)
  }

  ghost predicate StrictTotalOrder<K(!new)>(lt: (K, K) -> bool)
  {
    && Irreflexive(lt)
    && (forall a, b, c :: lt(a, b) && lt(b, c) ==> lt(a, c))
    && (forall a, b :: a == b || lt(a, b) || lt(b, a))
  }

  /** No element is followed by one whose key is smaller. */
  predicate SortedBy<T, K>(s: seq<T>, key: T -> K, lt: (K, K) -> bool)
  {
    forall i, j :: 0 <= i < j < |s| ==> !lt(key(s[j]), key(s[i]))
  }

  function KeyIs<T, K(==)>(key: T -> K, k: K): T -> bool
  {
    y => key(y) == k
  }

  /** Insert x before the first element whose key is not smaller than x's. */
  function Insert<T, K>(x: T, t: seq<T>, key: T -> K, lt: (K, K) -> bool): (r: seq<T>)
    ensures |r| == |t| + 1
  {
    if |t| == 0 then [x]
    else if lt(key(t[0]), key(x)) then [t[0]] + Insert(x, t[1..], key, lt)
    else [x] + t
  }

  /** Insertion sort: each element is placed after every earlier element with an equal key. */
  function SortBy<T, K>(s: seq<T>, key: T -> K, lt: (K, K) -> bool): (r: seq<T>)
    ensures |r| == |s|
  {
    if |s| == 0 then [] else Insert(s[0], SortBy(s[1..], key, lt), key, lt)
  }

  lemma {:induction false} InsertPermutes<T, K>(x: T, t: seq<T>, key: T -> K, lt: (K, K) -> bool)
    ensures multiset(Insert(x, t, key, lt)) == multiset(t) + multiset{x}
  {
    if |t| > 0 && lt(key(t[0]), key(x)) {
      InsertPermutes(x, t[1..], key, lt);
      assert t == [t[0]] + t[1..];
    }
  }

  /** The sort only reorders: the result is a permutation of the input. */
  lemma {:induction false} SortByPermutes<T, K>(s: seq<T>, key: T -> K, lt: (K, K) -> bool)
    ensures multiset(SortBy(s, key, lt)) == multiset(s)
  {
    if |s| > 0 {
      SortByPermutes(s[1..], key, lt);
      InsertPermutes(s[0], SortBy(s[1..], key, lt), key, lt);
      assert s == [s[0]] + s[1..];
    }
  }

  lemma {:induction false} InsertSorted<T, K(!new)>(x: T, t: seq<T>, key: T -> K, lt: (K, K) -> bool)
    requires StrictTotalOrder(lt)
    requires SortedBy(t, key, lt)
    ensures SortedBy(Insert(x, t, key, lt), key, lt)
    ensures forall k :: 0 <= k < |Insert(x, t, key, lt)| ==>
              Insert(x, t, key, lt)[k] == x || exists j :: 0 <= j < |t| && Insert(x, t, key, lt)[k] == t[j]
  {
    var r := Insert(x, t, key, lt);
    if |t| == 0 {
    } else if lt(key(t[0]), key(x)) {
      var t' := t[1..];
      InsertSorted(x, t', key, lt);
      var r' := Insert(x, t', key, lt);
      assert r == [t[0]] + r';
      forall i, j | 0 <= i < j < |r| ensures !lt(key(r[j]), key(r[i])) {
        if i == 0 {
          assert r[j] == r'[j - 1];
          if r'[j - 1] == x {
          } else {
            var m :| 0 <= m < |t'| && r'[j - 1] == t'[m];
            assert t'[m] == t[m + 1];
          }
        } else {
          assert r[i] == r'[i - 1] && r[j] == r'[j - 1];
        }
      }
      forall k | 0 <= k < |r| ensures r[k] == x || exists j :: 0 <= j < |t| && r[k] == t[j] {
        if k == 0 {
          assert r[k] == t[0];
        } else if r'[k - 1] != x {
          var m :| 0 <= m < |t'| && r'[k - 1] == t'[m];
          assert r[k] == t[m + 1];
        }
      }
    } else {
      assert r == [x] + t;
      forall i, j | 0 <= i < j < |r| ensures !lt(key(r[j]), key(r[i])) {
        if i == 0 {
          assert r[j] == t[j - 1];
          if j - 1 > 0 {
            assert !lt(key(t[j - 1]), key(t[0]));
          }
        } else {
          assert r[i] == t[i - 1] && r[j] == t[j - 1];
        }
      }
      forall k | 0 <= k < |r| ensures r[k] == x || exists j :: 0 <= j < |t| && r[k] == t[j] {
        if k > 0 { assert r[k] == t[k - 1]; }
      }
    }
  }

  /** The result is ordered by key. */
  lemma {:induction false} SortBySorted<T, K(!new)>(s: seq<T>, key: T -> K, lt: (K, K) -> bool)
    requires StrictTotalOrder(lt)
    ensures SortedBy(SortBy(s, key, lt), key, lt)
  {
    if |s| > 0 {
      SortBySorted(s[1..], key, lt);
      InsertSorted(s[0], SortBy(s[1..], key, lt), key, lt);
    }
  }

  lemma {:induction false} InsertStable<T, K(!new)>(x: T, t: seq<T>, key: T -> K, lt: (K, K) -> bool, k: K)
    requires Irreflexive(lt)
    ensures Filter(Insert(x, t, key, lt), KeyIs(key, k)) == (if key(x) == k then [x] else []) + Filter(t, KeyIs(key, k))
    decreases |t|, 1
  {
    var p := KeyIs(key, k);
    if |t| == 0 {
      FilterCons(x, [], p);
    } else if lt(key(t[0]), key(x)) {
      InsertStablePast(x, t, key, lt, k);
    } else {
      FilterCons(x, t, p);
    }
  }

  lemma {:induction false} InsertStablePast<T, K(!new)>(x: T, t: seq<T>, key: T -> K, lt: (K, K) -> bool, k: K)
    requires Irreflexive(lt)
    requires |t| > 0 && lt(key(t[0]), key(x))
    ensures Filter(Insert(x, t, key, lt), KeyIs(key, k)) == (if key(x) == k then [x] else []) + Filter(t, KeyIs(key, k))
    decreases |t|, 0
  {
    var p := KeyIs(key, k);
    var rest := Insert(x, t[1..], key, lt);
    assert Insert(x, t, key, lt) == [t[0]] + rest;
    InsertStable(x, t[1..], key, lt, k);
    FilterCons(t[0], rest, p);
    FilterCons(t[0], t[1..], p);
    assert t == [t[0]] + t[1..];
    if key(x) == k {
      assert !p(t[0]) by {
        assert !lt(key(x), key(x));
      }
      assert Filter(Insert(x, t, key, lt), p) == Filter(rest, p);
    } else {
      assert Filter(rest, p) == Filter(t[1..], p);
    }
  }

  /** Stability: for every key, the elements with that key keep their relative order. */
  lemma {:induction false} SortByStable<T, K(!new)>(s: seq<T>, key: T -> K, lt: (K, K) -> bool, k: K)
    requires Irreflexive(lt)
    ensures Filter(SortBy(s, key, lt), KeyIs(key, k)) == Filter(s, KeyIs(key, k))
  {
    if |s| > 0 {
      SortByStable(s[1..], key, lt, k);
      InsertStable(s[0], SortBy(s[1..], key, lt), key, lt, k);
      FilterCons(s[0], s[1..], KeyIs(key, k));
      assert s == [s[0]] + s[1..];
    }
  }

  // ----------------------------------------------------- std::string operator<

  /** Lexicographic comparison by character code; a proper prefix is smaller. */
  predicate LexLess(a: string, b: string)
    decreases |a|
  {
    if |a| == 0 then |b| > 0
    else if |b| == 0 then false
    else a[0] < b[0] || (a[0] == b[0] && LexLess(a[1..], b[1..]))
  }

  lemma {:induction false} LexIrreflexive(a: string)
    ensures !LexLess(a, a)
    decreases |a|
  {
    if |a| > 0 { LexIrreflexive(a[1..]); }
  }

  lemma {:induction false} LexTransitive(a: string, b: string, c: string)
    requires LexLess(a, b) && LexLess(b, c)
    ensures LexLess(a, c)
    decreases |a|
  {
    if |a| > 0 && |b| > 0 && |c| > 0 && a[0] == b[0] == c[0] {
      LexTransitive(a[1..], b[1..], c[1..]);
    }
  }

  lemma {:induction false} LexTotal(a: string, b: string)
    ensures a == b || LexLess(a, b) || LexLess(b, a)
    decreases |a|
  {
    if |a| > 0 && |b| > 0 && a[0] == b[0] {
      LexTotal(a[1..], b[1..]);
      if a[1..] == b[1..] {
        assert a == [a[0]] + a[1..] && b == [b[0]] + b[1..];
      }
    }
  }

  /** std::string's operator< is a strict total order, so sorting by name is well defined. */
  lemma LexIsStrictTotalOrder()
    ensures StrictTotalOrder(LexLess)
  {
    forall a ensures !LexLess(a, a) { LexIrreflexive(a); }
    forall a, b, c | LexLess(a, b) && LexLess(b, c) ensures LexLess(a, c) { LexTransitive(a, b, c); }
    forall a, b ensures a == b || LexLess(a, b) || LexLess(b, a) { LexTotal(a, b); }
  }

  predicate RealLess(a: real, b: real) { a < b }

  lemma RealLessIsStrictTotalOrder()
    ensures StrictTotalOrder(RealLess)
  {
  }
}
