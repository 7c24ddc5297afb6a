// What Topology::sort (container/topology.cpp) computes, as functions of the
// molecule list and the molecule reaction records before the call: the
// stable order by name, the dense molecule and atom ids, and the rewritten
// reaction records.
module Renumbering {

  import opened Seqs
  import opened Molecules
  import opened StableSort

  /** A reaction record: (old id, new id). */
  datatype Record = Record(first: nat, second: nat)

  function NameOf(m: Molecule): string { m.name }

  lemma NameKey(m: Molecule, name: string)
    ensures KeyIs(NameOf, name)(m) <==> m.name == name
  {
    assert NameOf(m) == m.name;
  }

  /** std::stable_sort by name. */
  function SortedByName(ms: seq<Molecule>): (r: seq<Molecule>)
    ensures |r| == |ms|
  {
    SortBy(ms, NameOf, LexLess)
  }

  // --------------------------------------------------------------- counting

  /** The number of atoms in a list of molecules. */
  function AtomCount(ms: seq<Molecule>): nat
  {
    if |ms| == 0 then 0 else |ms[0].atoms| + AtomCount(ms[1..])
  }

  lemma {:induction false} AtomCountAppend(a: seq<Molecule>, b: seq<Molecule>)
    ensures AtomCount(a + b) == AtomCount(a) + AtomCount(b)
    decreases |a|
  {
    if |a| > 0 {
      AtomCountAppend(a[1..], b);
      assert (a + b)[1..] == a[1..] + b;
    } else {
      assert a + b == b;
    }
  }

  /** The number of atoms in the molecules before position i. */
  function AtomsBefore(ms: seq<Molecule>, i: nat): nat
    requires i <= |ms|
  {
    AtomCount(ms[..i])
  }

  lemma AtomsBeforeStep(ms: seq<Molecule>, i: nat)
    requires i < |ms|
    ensures AtomsBefore(ms, i + 1) == AtomsBefore(ms, i) + |ms[i].atoms|
  {
    assert ms[..i + 1] == ms[..i] + [ms[i]];
    AtomCountAppend(ms[..i], [ms[i]]);
  }

  lemma {:induction false} InsertKeepsAtomCount(x: Molecule, t: seq<Molecule>)
    ensures AtomCount(Insert(x, t, NameOf, LexLess)) == |x.atoms| + AtomCount(t)
    decreases |t|
  {
    if |t| > 0 && LexLess(NameOf(t[0]), NameOf(x)) {
      InsertKeepsAtomCount(x, t[1..]);
      var r := Insert(x, t, NameOf, LexLess);
      assert r[1..] == Insert(x, t[1..], NameOf, LexLess);
    } else if |t| > 0 {
      assert ([x] + t)[1..] == t;
    }
  }

  /** Sorting neither adds nor loses atoms. */
  lemma {:induction false} SortKeepsAtomCount(ms: seq<Molecule>)
    ensures AtomCount(SortedByName(ms)) == AtomCount(ms)
    decreases |ms|
  {
    if |ms| > 0 {
      SortKeepsAtomCount(ms[1..]);
      InsertKeepsAtomCount(ms[0], SortedByName(ms[1..]));
    }
  }

  // ------------------------------------------------------------ renumbering

  /** Atom q of a molecule whose atoms are preceded by base others gets id base + q + 1. */
  function RenumberAtoms(atoms: seq<Atom>, base: nat): (r: seq<Atom>)
    ensures |r| == |atoms|
  {
    seq(|atoms|, q requires 0 <= q < |atoms| => atoms[q].(id := base + q + 1))
  }

  function Renumbered(m: Molecule, id: nat, base: nat): Molecule
  {
    m.(id := id, atoms := RenumberAtoms(m.atoms, base))
  }

  /** The running counters over an already ordered list: molecule i gets id i+1, atoms follow on. */
  function Renumber(ms: seq<Molecule>): (r: seq<Molecule>)
    ensures |r| == |ms|
  {
    seq(|ms|, i requires 0 <= i < |ms| => Renumbered(ms[i], i + 1, AtomsBefore(ms, i)))
  }

  /** The molecule list after sort. */
  function SortOutcome(ms: seq<Molecule>): (r: seq<Molecule>)
    ensures |r| == |ms|
  {
    Renumber(SortedByName(ms))
  }

  /** All atom ids of a molecule list, molecule by molecule, in atom order. */
  function AtomIds(ms: seq<Molecule>): seq<nat>
  {
    if |ms| == 0 then [] else AtomIds(ms[..|ms| - 1]) + seq(|ms[|ms| - 1].atoms|, q requires 0 <= q < |ms[|ms| - 1].atoms| => ms[|ms| - 1].atoms[q].id)
  }

  /** 1, 2, ..., n */
  function Range(n: nat): (r: seq<nat>)
    ensures |r| == n
  {
    seq(n, k requires 0 <= k < n => k + 1)
  }

  lemma {:induction false} RenumberPrefixIds(ms: seq<Molecule>, i: nat)
    requires i <= |ms|
    ensures AtomIds(Renumber(ms)[..i]) == Range(AtomsBefore(ms, i))
    decreases i
  {
    if i > 0 {
      var r := Renumber(ms);
      RenumberPrefixIds(ms, i - 1);
      AtomsBeforeStep(ms, i - 1);
      assert r[..i][..i - 1] == r[..i - 1];
      var base := AtomsBefore(ms, i - 1);
      var n := |ms[i - 1].atoms|;
      assert r[i - 1].atoms == RenumberAtoms(ms[i - 1].atoms, base);
      var tail := seq(|r[i - 1].atoms|, q requires 0 <= q < |r[i - 1].atoms| => r[i - 1].atoms[q].id);
      assert AtomIds(r[..i]) == Range(base) + tail;
      assert Range(base) + tail == Range(base + n);
    } else {
      assert ms[..0] == [];
    }
  }

  /** After renumbering, the ids of an ordered list are 1..N and its atom ids 1..M in list order. */
  lemma RenumberIsDense(ms: seq<Molecule>)
    ensures forall i :: 0 <= i < |ms| ==> Renumber(ms)[i].id == i + 1
    ensures AtomIds(Renumber(ms)) == Range(AtomCount(ms))
    ensures forall i :: 0 <= i < |ms| ==> Renumber(ms)[i].name == ms[i].name
                                          && |Renumber(ms)[i].atoms| == |ms[i].atoms|
    ensures forall i, q :: 0 <= i < |ms| && 0 <= q < |ms[i].atoms| ==>
              Renumber(ms)[i].atoms[q] == ms[i].atoms[q].(id := Renumber(ms)[i].atoms[q].id)
  {
    RenumberMoleculeIds(ms);
    RenumberAtomIds(ms);
    RenumberKeepsAtoms(ms);
  }

  lemma RenumberMoleculeIds(ms: seq<Molecule>)
    ensures forall i :: 0 <= i < |ms| ==> Renumber(ms)[i].id == i + 1
    ensures forall i :: 0 <= i < |ms| ==> Renumber(ms)[i].name == ms[i].name
                                          && |Renumber(ms)[i].atoms| == |ms[i].atoms|
  {
    forall i | 0 <= i < |ms|
      ensures Renumber(ms)[i] == Renumbered(ms[i], i + 1, AtomsBefore(ms, i))
    {
    }
  }

  lemma RenumberKeepsAtoms(ms: seq<Molecule>)
    ensures forall i, q :: 0 <= i < |ms| && 0 <= q < |ms[i].atoms| ==>
              Renumber(ms)[i].atoms[q] == ms[i].atoms[q].(id := Renumber(ms)[i].atoms[q].id)
  {
    forall i, q | 0 <= i < |ms| && 0 <= q < |ms[i].atoms|
      ensures Renumber(ms)[i].atoms[q] == ms[i].atoms[q].(id := Renumber(ms)[i].atoms[q].id)
    {
      var r := Renumber(ms)[i];
      assert r.atoms == RenumberAtoms(ms[i].atoms, AtomsBefore(ms, i));
      assert r.atoms[q] == ms[i].atoms[q].(id := AtomsBefore(ms, i) + q + 1);
    }
  }

  lemma RenumberAtomIds(ms: seq<Molecule>)
    ensures AtomIds(Renumber(ms)) == Range(AtomCount(ms))
  {
    RenumberPrefixIds(ms, |ms|);
    assert Renumber(ms)[..|ms|] == Renumber(ms);
    assert ms[..|ms|] == ms;
  }

  /**
   * After sort: names are in order, molecules of one name keep their relative
   * order, nothing is gained or lost, molecule ids are 1..N and atom ids
   * 1..M with M the number of atoms before the call.
   */
  lemma SortOutcomeProperties(ms: seq<Molecule>, name: string)
    ensures SortedBy(SortOutcome(ms), NameOf, LexLess)
    ensures multiset(SortedByName(ms)) == multiset(ms)
    ensures Filter(SortedByName(ms), KeyIs(NameOf, name)) == Filter(ms, KeyIs(NameOf, name))
    ensures forall i :: 0 <= i < |ms| ==> SortOutcome(ms)[i].id == i + 1
    ensures AtomIds(SortOutcome(ms)) == Range(AtomCount(ms))
  {
    var s := SortedByName(ms);
    LexIsStrictTotalOrder();
    SortBySorted(ms, NameOf, LexLess);
    SortByPermutes(ms, NameOf, LexLess);
    SortByStable(ms, NameOf, LexLess, name);
    RenumberIsDense(s);
    SortKeepsAtomCount(ms);
    var r := SortOutcome(ms);
    forall i, j | 0 <= i < j < |r| ensures !LexLess(NameOf(r[j]), NameOf(r[i])) {
      assert r[i].name == s[i].name && r[j].name == s[j].name;
    }
  }

  // ------------------------------------------------------ molecule records

  function RecordKeyIs(key: nat): Record -> bool { (r: Record) => r.first == key }

  /** The first record whose old id is key, or |recs|. */
  function FindRecord(recs: seq<Record>, key: nat): nat
  {
    FirstWhere(recs, RecordKeyIs(key))
  }

  predicate Reacted(recs: seq<Record>, key: nat)
  {
    FindRecord(recs, key) < |recs|
  }

  /** Record lists with the same old ids find the same record. */
  lemma FindRecordByKeys(a: seq<Record>, b: seq<Record>, key: nat)
    requires |a| == |b| && forall k :: 0 <= k < |a| ==> a[k].first == b[k].first
    ensures FindRecord(a, key) == FindRecord(b, key)
  {
  }

  /** search->second = v on the first record with that old id, if there is one. */
  function SetRecord(recs: seq<Record>, key: nat, v: nat): (r: seq<Record>)
    ensures |r| == |recs|
  {
    var k := FindRecord(recs, key);
    if k < |recs| then recs[k := recs[k].(second := v)] else recs
  }

  /** The molecule records after the loop has visited molecules 0..i-1 (molecule p gets id p+1). */
  function RecordsUpTo(recs: seq<Record>, ms: seq<Molecule>, i: nat): (r: seq<Record>)
    requires i <= |ms|
    ensures |r| == |recs|
  {
    if i == 0 then recs else SetRecord(RecordsUpTo(recs, ms, i - 1), ms[i - 1].id, i)
  }

  /** The last position before i holding a molecule with that id, or -1. */
  function LastWithId(ms: seq<Molecule>, key: nat, i: nat): (p: int)
    requires i <= |ms|
    ensures -1 <= p < i
    ensures p >= 0 ==> ms[p].id == key
    ensures forall q :: p < q < i ==> ms[q].id != key
  {
    if i == 0 then -1 else if ms[i - 1].id == key then i - 1 else LastWithId(ms, key, i - 1)
  }

  /**
   * Only the first record of each old id is ever rewritten, and it ends up
   * holding the new id (position + 1) of the last visited molecule that had
   * that old id; every other record keeps its contents.
   */
  lemma {:induction false} RecordsUpToAt(recs: seq<Record>, ms: seq<Molecule>, i: nat, k: nat)
    requires i <= |ms| && k < |recs|
    ensures RecordsUpTo(recs, ms, i)[k].first == recs[k].first
    ensures RecordsUpTo(recs, ms, i)[k] ==
              if k == FindRecord(recs, recs[k].first) && LastWithId(ms, recs[k].first, i) >= 0
              then Record(recs[k].first, LastWithId(ms, recs[k].first, i) + 1)
              else recs[k]
    decreases i
  {
    if i > 0 {
      var prev := RecordsUpTo(recs, ms, i - 1);
      forall k' | 0 <= k' < |recs| ensures prev[k'].first == recs[k'].first {
        RecordsUpToAt(recs, ms, i - 1, k');
      }
      RecordsUpToAt(recs, ms, i - 1, k);
      var key := ms[i - 1].id;
      FindRecordByKeys(prev, recs, key);
      var f := FindRecord(recs, key);
      if k == f {
        assert recs[k].first == key;
      } else if key == recs[k].first {
        assert k != FindRecord(recs, recs[k].first);
      }
    }
  }

  /** The old ids of the molecule records never change. */
  lemma RecordsKeepKeys(recs: seq<Record>, ms: seq<Molecule>, i: nat)
    requires i <= |ms|
    ensures forall k :: 0 <= k < |recs| ==> RecordsUpTo(recs, ms, i)[k].first == recs[k].first
    ensures forall key :: FindRecord(RecordsUpTo(recs, ms, i), key) == FindRecord(recs, key)
  {
    forall k | 0 <= k < |recs| ensures RecordsUpTo(recs, ms, i)[k].first == recs[k].first {
      RecordsUpToAt(recs, ms, i, k);
    }
    forall key ensures FindRecord(RecordsUpTo(recs, ms, i), key) == FindRecord(recs, key) {
      FindRecordByKeys(RecordsUpTo(recs, ms, i), recs, key);
    }
  }

  // ---------------------------------------------------------- atom records

  /** One (old atom id, new atom id) pair per atom of a molecule whose atoms start after base. */
  function AtomPairs(atoms: seq<Atom>, base: nat): (r: seq<Record>)
    ensures |r| == |atoms|
  {
    seq(|atoms|, q requires 0 <= q < |atoms| => Record(atoms[q].id, base + q + 1))
  }

  /** The atom records after the loop has visited molecules 0..i-1: pairs only for reacted molecules. */
  function AtomRecordsUpTo(recs: seq<Record>, ms: seq<Molecule>, i: nat): seq<Record>
    requires i <= |ms|
  {
    if i == 0 then []
    else AtomRecordsUpTo(recs, ms, i - 1)
         + (if Reacted(recs, ms[i - 1].id) then AtomPairs(ms[i - 1].atoms, AtomsBefore(ms, i - 1)) else [])
  }

  /** Atom q of molecule p, renamed as the renumbering does it. */
  ghost predicate IsAtomPair(recs: seq<Record>, ms: seq<Molecule>, i: nat, r: Record)
    requires i <= |ms|
  {
    exists p, q :: 0 <= p < i && 0 <= q < |ms[p].atoms| && Reacted(recs, ms[p].id)
                   && r == Record(ms[p].atoms[q].id, AtomsBefore(ms, p) + q + 1)
  }

  /**
   * The atom records are exactly the (old id, new id) pairs of the atoms of
   * molecules that have a molecule record.
   */
  lemma {:induction false} AtomRecordsExact(recs: seq<Record>, ms: seq<Molecule>, i: nat)
    requires i <= |ms|
    ensures forall r :: r in AtomRecordsUpTo(recs, ms, i) <==> IsAtomPair(recs, ms, i, r)
    decreases i
  {
    if i > 0 {
      AtomRecordsExact(recs, ms, i - 1);
      var prev := AtomRecordsUpTo(recs, ms, i - 1);
      var added := if Reacted(recs, ms[i - 1].id) then AtomPairs(ms[i - 1].atoms, AtomsBefore(ms, i - 1)) else [];
      assert AtomRecordsUpTo(recs, ms, i) == prev + added;
      forall r ensures r in prev + added <==> IsAtomPair(recs, ms, i, r) {
        if r in added {
          AddedIsPair(recs, ms, i, r);
        }
        if r in prev {
          EarlierIsPair(recs, ms, i, r);
        }
        if IsAtomPair(recs, ms, i, r) {
          PairSplit(recs, ms, i, r);
        }
      }
    }
  }

  /** A pair of the molecule visited last is a renamed atom. */
  lemma AddedIsPair(recs: seq<Record>, ms: seq<Molecule>, i: nat, r: Record)
    requires 0 < i <= |ms| && Reacted(recs, ms[i - 1].id) && r in AtomPairs(ms[i - 1].atoms, AtomsBefore(ms, i - 1))
    ensures IsAtomPair(recs, ms, i, r)
  {
    var added := AtomPairs(ms[i - 1].atoms, AtomsBefore(ms, i - 1));
    var q :| 0 <= q < |added| && added[q] == r;
    assert r == Record(ms[i - 1].atoms[q].id, AtomsBefore(ms, i - 1) + q + 1);
  }

  /** A renamed atom of the first i - 1 molecules is one of the first i. */
  lemma EarlierIsPair(recs: seq<Record>, ms: seq<Molecule>, i: nat, r: Record)
    requires 0 < i <= |ms| && IsAtomPair(recs, ms, i - 1, r)
    ensures IsAtomPair(recs, ms, i, r)
  {
    var p, q :| 0 <= p < i - 1 && 0 <= q < |ms[p].atoms| && Reacted(recs, ms[p].id)
                && r == Record(ms[p].atoms[q].id, AtomsBefore(ms, p) + q + 1);
  }

  /** A renamed atom of the first i molecules belongs to the first i - 1 or to the last one. */
  lemma PairSplit(recs: seq<Record>, ms: seq<Molecule>, i: nat, r: Record)
    requires 0 < i <= |ms| && IsAtomPair(recs, ms, i, r)
    ensures IsAtomPair(recs, ms, i - 1, r)
            || (Reacted(recs, ms[i - 1].id) && r in AtomPairs(ms[i - 1].atoms, AtomsBefore(ms, i - 1)))
  {
    var p, q :| 0 <= p < i && 0 <= q < |ms[p].atoms| && Reacted(recs, ms[p].id)
                && r == Record(ms[p].atoms[q].id, AtomsBefore(ms, p) + q + 1);
    if p == i - 1 {
      assert AtomPairs(ms[i - 1].atoms, AtomsBefore(ms, i - 1))[q] == r;
    } else {
      assert IsAtomPair(recs, ms, i - 1, r);
    }
  }

  /** The new ids in the atom records increase strictly and never exceed the atom count so far. */
  lemma {:induction false} AtomRecordsIncreasing(recs: seq<Record>, ms: seq<Molecule>, i: nat)
    requires i <= |ms|
    ensures forall a, b :: 0 <= a < b < |AtomRecordsUpTo(recs, ms, i)| ==>
              AtomRecordsUpTo(recs, ms, i)[a].second < AtomRecordsUpTo(recs, ms, i)[b].second
    ensures forall a :: 0 <= a < |AtomRecordsUpTo(recs, ms, i)| ==>
              0 < AtomRecordsUpTo(recs, ms, i)[a].second <= AtomsBefore(ms, i)
    decreases i
  {
    if i > 0 {
      AtomRecordsIncreasing(recs, ms, i - 1);
      AtomsBeforeStep(ms, i - 1);
      var prev := AtomRecordsUpTo(recs, ms, i - 1);
      var base := AtomsBefore(ms, i - 1);
      var m := ms[i - 1];
      var added := if Reacted(recs, m.id) then AtomPairs(m.atoms, base) else [];
      var all := AtomRecordsUpTo(recs, ms, i);
      assert all == prev + added;
      assert forall q :: 0 <= q < |added| ==> added[q].second == base + q + 1;
      assert base + |added| <= AtomsBefore(ms, i);
      forall a | 0 <= a < |all| ensures 0 < all[a].second <= AtomsBefore(ms, i) {
        if a < |prev| { assert all[a] == prev[a]; } else { assert all[a] == added[a - |prev|]; }
      }
      forall a, b | 0 <= a < b < |all| ensures all[a].second < all[b].second {
        if b < |prev| {
          assert all[a] == prev[a] && all[b] == prev[b];
        } else if a < |prev| {
          assert all[a] == prev[a] && all[b] == added[b - |prev|];
        } else {
          assert all[a] == added[a - |prev|] && all[b] == added[b - |prev|];
        }
      }
    }
  }
}
