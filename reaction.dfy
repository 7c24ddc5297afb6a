// The reaction template: the reactant and product molecules, the atom
// transition table, the translation table, the geometric criteria, the two
// energies and the distance-dependent rate table. Reaction candidates are
// copies of a template, so the template is a value here; a member function
// that adds to it returns the extended template.

module Reactions {

  import opened Wrappers
  import opened Seqs
  import opened Molecules
  import opened Topologies

  /** One row of the [products] table: reactant atom (oldMolix, oldix) becomes product atom (newMolix, newix), all 0-based. */
  datatype Transition = Transition(oldMolix: nat, oldix: nat, newMolix: nat, newix: nat)

  /** A (molecule index, atom index) pair, 0-based. */
  type AtomIndex = (nat, nat)

  /** One row of the [translations] table: two product atoms and a value. */
  datatype Translation = Translation(indices1: AtomIndex, indices2: AtomIndex, value: real)

  /** The criterion class chosen by the number of atoms it involves. */
  datatype CriterionKind = Zone | Distance | Angle | Dihedral

  /** A criterion: its atoms, its thresholds and the last value it measured (0 until measured). */
  datatype Criterion = Criterion(kind: CriterionKind, indices: seq<AtomIndex>, minValue: real, maxValue: real, latest: real)

  datatype Reaction = Reaction(
    name: string,
    reactants: seq<Molecule>,
    products: seq<Molecule>,
    transitions: seq<Transition>,
    translations: seq<Translation>,
    criteria: seq<Criterion>,
    reactionEnergy: real,
    activationEnergy: real,
    rate: seq<(real, real)>)

  const EmptyReaction := Reaction("", [], [], [], [], [], 0.0, 0.0, [])

  // ---------------------------------------------------------------------------
  // Reactant and product lists
  // ---------------------------------------------------------------------------

  /**
   * find_if on the id, emplacing a default molecule with that id when none
   * matches; the result is the new list and the position of the molecule.
   */
  function GetAdd(ms: seq<Molecule>, molid: nat): (r: (seq<Molecule>, nat))
    ensures r.1 < |r.0| && r.0[r.1].id == molid
    ensures forall j :: 0 <= j < r.1 ==> r.0[j].id != molid
    ensures (exists k :: 0 <= k < |ms| && ms[k].id == molid) ==> r.0 == ms
    ensures (forall k :: 0 <= k < |ms| ==> ms[k].id != molid) ==>
              r.0 == ms + [Molecule(molid, "", [])] && r.1 == |ms|
  {
    var k := FirstWhere(ms, HasMoleculeId(molid));
    if k < |ms| then (ms, k)
    else
      assert forall j :: 0 <= j < |ms| ==> !HasMoleculeId(molid)(ms[j]);
      (ms + [Molecule(molid, "", [])], |ms|)
  }

  /** find_if on the id; a missing id is a fatal error. */
  function GetFirst(ms: seq<Molecule>, molid: nat, what: string): (r: Result<Molecule>)
    ensures r.Ok? <==> exists k :: 0 <= k < |ms| && ms[k].id == molid
    ensures r.Ok? ==> exists k :: 0 <= k < |ms| && ms[k] == r.value && r.value.id == molid
                        && forall j :: 0 <= j < k ==> ms[j].id != molid
  {
    var k := FirstWhere(ms, HasMoleculeId(molid));
    if k < |ms| then Ok(ms[k])
    else
      assert forall j :: 0 <= j < |ms| ==> !HasMoleculeId(molid)(ms[j]);
      Err("couldn't find molecule in " + what)
  }

  /** getAddReactant: the reactant with the id, appended with that id if missing. */
  function GetAddReactant(rx: Reaction, molid: nat): (r: (Reaction, nat))
    ensures r.1 < |r.0.reactants| && r.0.reactants[r.1].id == molid
    ensures r.0 == rx.(reactants := r.0.reactants)
    ensures |rx.reactants| <= |r.0.reactants| <= |rx.reactants| + 1
    ensures r.0.reactants[..|rx.reactants|] == rx.reactants
  {
    var (ms, k) := GetAdd(rx.reactants, molid);
    (rx.(reactants := ms), k)
  }

  /** getAddProduct: the product with the id, appended with that id if missing. */
  function GetAddProduct(rx: Reaction, molid: nat): (r: (Reaction, nat))
    ensures r.1 < |r.0.products| && r.0.products[r.1].id == molid
    ensures r.0 == rx.(products := r.0.products)
    ensures |rx.products| <= |r.0.products| <= |rx.products| + 1
    ensures r.0.products[..|rx.products|] == rx.products
  {
    var (ms, k) := GetAdd(rx.products, molid);
    (rx.(products := ms), k)
  }

  /** Calling GetAdd twice with the same id adds at most once: the second call finds the first one's molecule. */
  lemma GetAddIdempotent(ms: seq<Molecule>, molid: nat)
    ensures GetAdd(GetAdd(ms, molid).0, molid) == GetAdd(ms, molid)
  {
    var (ms1, k1) := GetAdd(ms, molid);
    var (ms2, k2) := GetAdd(ms1, molid);
    assert ms2 == ms1;
  }

  /** getReactant: the first reactant with the id; missing is fatal. */
  function GetReactant(rx: Reaction, molid: nat): (r: Result<Molecule>)
    ensures r.Ok? <==> exists k :: 0 <= k < |rx.reactants| && rx.reactants[k].id == molid
    ensures r.Ok? ==> exists k :: 0 <= k < |rx.reactants| && rx.reactants[k] == r.value && r.value.id == molid
                        && forall j :: 0 <= j < k ==> rx.reactants[j].id != molid
  {
    GetFirst(rx.reactants, molid, "reactants")
  }

  /** getProduct: the first product with the id; missing is fatal. */
  function GetProduct(rx: Reaction, molid: nat): (r: Result<Molecule>)
    ensures r.Ok? <==> exists k :: 0 <= k < |rx.products| && rx.products[k].id == molid
    ensures r.Ok? ==> exists k :: 0 <= k < |rx.products| && rx.products[k] == r.value && r.value.id == molid
                        && forall j :: 0 <= j < k ==> rx.products[j].id != molid
  {
    GetFirst(rx.products, molid, "products")
  }

  /** Whatever GetAddReactant returns is then found by GetReactant. */
  lemma GetAddThenGet(rx: Reaction, molid: nat)
    ensures var (rx', k) := GetAddReactant(rx, molid);
            GetReactant(rx', molid) == Ok(rx'.reactants[k])
  {
    var (rx', k) := GetAddReactant(rx, molid);
    var r := GetReactant(rx', molid);
    assert rx'.reactants[k].id == molid;
    var j :| 0 <= j < |rx'.reactants| && rx'.reactants[j] == r.value && r.value.id == molid
              && forall i :: 0 <= i < j ==> rx'.reactants[i].id != molid;
  }

  // ---------------------------------------------------------------------------
  // Tables
  // ---------------------------------------------------------------------------

  /** addTransition: one more row at the end of the transition table. */
  function AddTransition(rx: Reaction, oldMolix: nat, oldix: nat, newMolix: nat, newix: nat): (r: Reaction)
    ensures |r.transitions| == |rx.transitions| + 1
    ensures r.transitions[..|rx.transitions|] == rx.transitions
    ensures r.transitions[|rx.transitions|] == Transition(oldMolix, oldix, newMolix, newix)
    ensures r == rx.(transitions := r.transitions)
  {
    rx.(transitions := rx.transitions + [Transition(oldMolix, oldix, newMolix, newix)])
  }

  /** The criterion class for an index list of the given length, if there is one. */
  function KindFor(n: nat): (r: Option<CriterionKind>)
    ensures r.Some? <==> 1 <= n <= 4
    ensures r == Some(Zone) <==> n == 1
    ensures r == Some(Distance) <==> n == 2
    ensures r == Some(Angle) <==> n == 3
    ensures r == Some(Dihedral) <==> n == 4
  {
    if n == 1 then Some(Zone)
    else if n == 2 then Some(Distance)
    else if n == 3 then Some(Angle)
    else if n == 4 then Some(Dihedral)
    else None
  }

  /** addCriterion: one criterion of the class chosen by the list length, holding the indices in order and the thresholds; any other length is fatal. */
  function AddCriterion(rx: Reaction, ixList: seq<AtomIndex>, thresholds: (real, real)): (r: Result<Reaction>)
    ensures r.Ok? <==> 1 <= |ixList| <= 4
    ensures r.Ok? ==>
              r.value == rx.(criteria := r.value.criteria)
              && |r.value.criteria| == |rx.criteria| + 1
              && r.value.criteria[..|rx.criteria|] == rx.criteria
              && r.value.criteria[|rx.criteria|].indices == ixList
              && r.value.criteria[|rx.criteria|].minValue == thresholds.0
              && r.value.criteria[|rx.criteria|].maxValue == thresholds.1
              && r.value.criteria[|rx.criteria|].latest == 0.0
              && Some(r.value.criteria[|rx.criteria|].kind) == KindFor(|ixList|)
  {
    match KindFor(|ixList|)
    case None => Err("no criterion involving more than 4 atoms has been implemented yet")
    case Some(kind) =>
      Ok(rx.(criteria := rx.criteria + [Criterion(kind, ixList, thresholds.0, thresholds.1, 0.0)]))
  }

  /** addTranslation: exactly two index pairs (the source asserts it) and a value. */
  function AddTranslation(rx: Reaction, indices: seq<AtomIndex>, value: real): (r: Reaction)
    requires |indices| == 2
    ensures r == rx.(translations := r.translations)
    ensures r.translations == rx.translations + [Translation(indices[0], indices[1], value)]
  {
    rx.(translations := rx.translations + [Translation(indices[0], indices[1], value)])
  }

  // ---------------------------------------------------------------------------
  // Consistency check
  // ---------------------------------------------------------------------------

  predicate InReactants(rx: Reaction, ix: AtomIndex)
  {
    ix.0 < |rx.reactants| && ix.1 < |rx.reactants[ix.0].atoms|
  }

  predicate InProducts(rx: Reaction, ix: AtomIndex)
  {
    ix.0 < |rx.products| && ix.1 < |rx.products[ix.0].atoms|
  }

  predicate TransitionOk(rx: Reaction, tt: Transition)
  {
    InReactants(rx, (tt.oldMolix, tt.oldix)) && InProducts(rx, (tt.newMolix, tt.newix))
  }

  predicate TranslationOk(rx: Reaction, tt: Translation)
  {
    InProducts(rx, tt.indices1) && InProducts(rx, tt.indices2)
  }

  predicate CriterionOk(rx: Reaction, c: Criterion)
  {
    (forall q :: 0 <= q < |c.indices| ==> InReactants(rx, c.indices[q])) && c.minValue < c.maxValue
  }

  /** What a template must satisfy before it is used. */
  predicate Consistent(rx: Reaction)
  {
    |rx.reactants| > 0 && |rx.products| > 0
    && (forall t :: 0 <= t < |rx.transitions| ==> TransitionOk(rx, rx.transitions[t]))
    && (forall t :: 0 <= t < |rx.translations| ==> TranslationOk(rx, rx.translations[t]))
    && (forall t :: 0 <= t < |rx.criteria| ==> CriterionOk(rx, rx.criteria[t]))
  }

  /**
   * The reasons consistencyCheck exits with, each naming the table row and,
   * where the message shows one, the offending atom as the 1-based pair the
   * message prints.
   */
  datatype Inconsistency =
    | NoReactants
    | NoProducts
    | TransitionSourceMissing(row: nat, atom: AtomIndex)
    | TransitionTargetMissing(row: nat, atom: AtomIndex)
    | TranslationAtomMissing(row: nat, atom: AtomIndex)
    | CriterionAtomMissing(row: nat, atom: AtomIndex)
    | ThresholdsInterchanged(row: nat)

  function OneBased(ix: AtomIndex): AtomIndex { (ix.0 + 1, ix.1 + 1) }

  predicate Populated(rx: Reaction) { |rx.reactants| > 0 && |rx.products| > 0 }

  predicate TransitionsOk(rx: Reaction, n: nat)
    requires n <= |rx.transitions|
  {
    forall t :: 0 <= t < n ==> TransitionOk(rx, rx.transitions[t])
  }

  predicate TranslationsOk(rx: Reaction, n: nat)
    requires n <= |rx.translations|
  {
    forall t :: 0 <= t < n ==> TranslationOk(rx, rx.translations[t])
  }

  predicate CriteriaOk(rx: Reaction, n: nat)
    requires n <= |rx.criteria|
  {
    forall t :: 0 <= t < n ==> CriterionOk(rx, rx.criteria[t])
  }

  /**
   * f is the first failure in the order consistencyCheck visits things: the two
   * lists, then each transition (source before target), each translation
   * (first pair before second), each criterion (its atoms in order, then its
   * thresholds).
   */
  predicate FirstFailure(rx: Reaction, f: Inconsistency)
  {
    match f
    case NoReactants => |rx.reactants| == 0
    case NoProducts => |rx.reactants| > 0 && |rx.products| == 0
    case TransitionSourceMissing(t, atom) =>
      Populated(rx) && t < |rx.transitions| && TransitionsOk(rx, t)
      && var tt := rx.transitions[t];
         !InReactants(rx, (tt.oldMolix, tt.oldix)) && atom == OneBased((tt.oldMolix, tt.oldix))
    case TransitionTargetMissing(t, atom) =>
      Populated(rx) && t < |rx.transitions| && TransitionsOk(rx, t)
      && var tt := rx.transitions[t];
         InReactants(rx, (tt.oldMolix, tt.oldix)) && !InProducts(rx, (tt.newMolix, tt.newix))
         && atom == OneBased((tt.newMolix, tt.newix))
    case TranslationAtomMissing(t, atom) =>
      Populated(rx) && TransitionsOk(rx, |rx.transitions|)
      && t < |rx.translations| && TranslationsOk(rx, t)
      && var tt := rx.translations[t];
         if !InProducts(rx, tt.indices1) then atom == OneBased(tt.indices1)
         else !InProducts(rx, tt.indices2) && atom == OneBased(tt.indices2)
    case CriterionAtomMissing(t, atom) =>
      Populated(rx) && TransitionsOk(rx, |rx.transitions|) && TranslationsOk(rx, |rx.translations|)
      && t < |rx.criteria| && CriteriaOk(rx, t)
      && var ixs := rx.criteria[t].indices;
         exists q :: 0 <= q < |ixs| && !InReactants(rx, ixs[q]) && atom == OneBased(ixs[q])
                     && forall p :: 0 <= p < q ==> InReactants(rx, ixs[p])
    case ThresholdsInterchanged(t) =>
      Populated(rx) && TransitionsOk(rx, |rx.transitions|) && TranslationsOk(rx, |rx.translations|)
      && t < |rx.criteria| && CriteriaOk(rx, t)
      && (forall q :: 0 <= q < |rx.criteria[t].indices| ==> InReactants(rx, rx.criteria[t].indices[q]))
      && rx.criteria[t].minValue >= rx.criteria[t].maxValue
  }

  /**
   * consistencyCheck: walks the template in the source's order and reports
   * the first problem it meets, or nothing when the template is consistent.
   */
  method ConsistencyCheck(rx: Reaction) returns (e: Option<Inconsistency>)
    ensures e.None? <==> Consistent(rx)
    ensures e.Some? ==> FirstFailure(rx, e.value)
  {
    if |rx.reactants| == 0 { return Some(NoReactants); }
    if |rx.products| == 0 { return Some(NoProducts); }
    var t := 0;
    while t < |rx.transitions|
      invariant t <= |rx.transitions| && TransitionsOk(rx, t)
    {
      var tt := rx.transitions[t];
      if !InReactants(rx, (tt.oldMolix, tt.oldix)) {
        return Some(TransitionSourceMissing(t, OneBased((tt.oldMolix, tt.oldix))));
      }
      if !InProducts(rx, (tt.newMolix, tt.newix)) {
        return Some(TransitionTargetMissing(t, OneBased((tt.newMolix, tt.newix))));
      }
      t := t + 1;
    }
    t := 0;
    while t < |rx.translations|
      invariant t <= |rx.translations| && TranslationsOk(rx, t)
    {
      var tt := rx.translations[t];
      if !InProducts(rx, tt.indices1) {
        return Some(TranslationAtomMissing(t, OneBased(tt.indices1)));
      }
      if !InProducts(rx, tt.indices2) {
        return Some(TranslationAtomMissing(t, OneBased(tt.indices2)));
      }
      t := t + 1;
    }
    t := 0;
    while t < |rx.criteria|
      invariant t <= |rx.criteria| && CriteriaOk(rx, t)
    {
      var ixs := rx.criteria[t].indices;
      var q := 0;
      while q < |ixs|
        invariant q <= |ixs|
        invariant forall p :: 0 <= p < q ==> InReactants(rx, ixs[p])
      {
        if !InReactants(rx, ixs[q]) {
          return Some(CriterionAtomMissing(t, OneBased(ixs[q])));
        }
        q := q + 1;
      }
      if rx.criteria[t].minValue >= rx.criteria[t].maxValue {
        return Some(ThresholdsInterchanged(t));
      }
      t := t + 1;
    }
    e := None;
  }

  /** A reported failure is a genuine one: the template is then not consistent. */
  lemma FailureMeansInconsistent(rx: Reaction, f: Inconsistency)
    requires FirstFailure(rx, f)
    ensures !Consistent(rx)
  {
    match f
    case TransitionSourceMissing(t, _) => assert !TransitionOk(rx, rx.transitions[t]);
    case TransitionTargetMissing(t, _) => assert !TransitionOk(rx, rx.transitions[t]);
    case TranslationAtomMissing(t, _) => assert !TranslationOk(rx, rx.translations[t]);
    case CriterionAtomMissing(t, _) => assert !CriterionOk(rx, rx.criteria[t]);
    case ThresholdsInterchanged(t) => assert !CriterionOk(rx, rx.criteria[t]);
    case _ =>
  }

  /** The verdict of consistencyCheck is determined: at most one failure is first. */
  lemma FirstFailureUnique(rx: Reaction, f: Inconsistency, g: Inconsistency)
    requires FirstFailure(rx, f) && FirstFailure(rx, g)
    ensures f == g
  {
  }
}
