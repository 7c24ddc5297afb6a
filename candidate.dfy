// A reaction candidate: a copy of a reaction template whose reactants are
// bound to real molecules of the system. Geometry is not modelled: the value
// a criterion measures is an uninterpreted function of its kind, its atoms,
// the reactants and the box.

module Candidates {

  import opened Seqs
  import opened Molecules
  import opened Reactions

  /** The geometric measurement behind a criterion (distance, angle, dihedral, zone). */
  type Measure = (CriterionKind, seq<AtomIndex>, seq<Molecule>, Vec3) -> real

  // ---------------------------------------------------------------------------
  // Rate lookup
  // ---------------------------------------------------------------------------

  function Exceeds(d: real): ((real, real)) -> bool { (e: (real, real)) => e.0 > d }

  /**
   * The rate the lookup settles on: the entry just before the first entry
   * whose distance exceeds d, or the first entry when that is the first one.
   */
  function RateAt(rate: seq<(real, real)>, d: real): real
    requires |rate| > 0
  {
    var k := FirstWhere(rate, Exceeds(d));
    if k == 0 then rate[0].1 else rate[k - 1].1
  }

  predicate SortedByDistance(rate: seq<(real, real)>)
  {
    forall i, j :: 0 <= i < j < |rate| ==> rate[i].0 <= rate[j].0
  }

  /** The loop of getCurrentReactionRateValue: starts at the first rate, takes each entry's rate until one lies beyond d. */
  method LookupRate(rate: seq<(real, real)>, d: real) returns (v: real)
    requires |rate| > 0
    ensures v == RateAt(rate, d)
  {
    v := rate[0].1;
    var i := 0;
    while i < |rate|
      invariant i <= |rate|
      invariant forall j :: 0 <= j < i ==> !Exceeds(d)(rate[j])
      invariant v == if i == 0 then rate[0].1 else rate[i - 1].1
    {
      if rate[i].0 > d {
        assert Exceeds(d)(rate[i]);
        assert FirstWhere(rate, Exceeds(d)) == i by {
          FirstWhereIs(rate, Exceeds(d), i);
        }
        return;
      }
      v := rate[i].1;
      i := i + 1;
    }
    FirstWhereIs(rate, Exceeds(d), |rate|);
  }

  lemma FirstWhereIs<T>(s: seq<T>, p: T -> bool, i: nat)
    requires i <= |s|
    requires forall j :: 0 <= j < i ==> !p(s[j])
    requires i < |s| ==> p(s[i])
    ensures FirstWhere(s, p) == i
  {
  }

  /**
   * For a table sorted by distance the rate is that of the last entry whose
   * distance is at most d, or the first entry's rate when d lies below them all.
   */
  lemma RateOfSortedTable(rate: seq<(real, real)>, d: real)
    requires |rate| > 0 && SortedByDistance(rate)
    ensures d < rate[0].0 ==> RateAt(rate, d) == rate[0].1
    ensures rate[0].0 <= d ==>
              exists k :: 0 <= k < |rate| && rate[k].0 <= d && RateAt(rate, d) == rate[k].1
                          && forall j :: k < j < |rate| ==> rate[j].0 > d
  {
    var k := FirstWhere(rate, Exceeds(d));
    if rate[0].0 <= d {
      assert !Exceeds(d)(rate[0]);
      assert 0 < k;
      assert rate[k - 1].0 <= d by { assert !Exceeds(d)(rate[k - 1]); }
      forall j | k - 1 < j < |rate| ensures rate[j].0 > d {
        assert Exceeds(d)(rate[k]);
        assert rate[k].0 <= rate[j].0;
      }
    } else {
      assert Exceeds(d)(rate[0]);
    }
  }

  /** getCurrentDistanceValue: the value the first criterion measured last. */
  function CurrentDistanceValue(c: Reaction): real
    requires |c.criteria| > 0
  {
    c.criteria[0].latest
  }

  /** getCurrentReactionRateValue: the rate looked up at the current distance. */
  method CurrentReactionRateValue(c: Reaction) returns (v: real)
    requires |c.criteria| > 0 && |c.rate| > 0
    ensures v == RateAt(c.rate, CurrentDistanceValue(c))
  {
    v := LookupRate(c.rate, c.criteria[0].latest);
  }

  // ---------------------------------------------------------------------------
  // Binding reactants
  // ---------------------------------------------------------------------------

  /** The atom with the id, position and velocity of a, keeping its own name. */
  function TakeFrom(template: Atom, a: Atom): Atom
  {
    template.(id := a.id, position := a.position, velocity := a.velocity)
  }

  /** Every template atom names, by its 1-based id, an atom of the molecule. */
  predicate IdsIndexInto(reactant: Molecule, molecule: Molecule)
  {
    forall q :: 0 <= q < |reactant.atoms| ==> 1 <= reactant.atoms[q].id <= |molecule.atoms|
  }

  /** The reactant after being bound to molecule: each atom takes the data of molecule's atom at (its id - 1), and the reactant takes the molecule's id. */
  function Bound(reactant: Molecule, molecule: Molecule): Molecule
    requires IdsIndexInto(reactant, molecule)
  {
    reactant.(id := molecule.id,
              atoms := seq(|reactant.atoms|, q requires 0 <= q < |reactant.atoms| =>
                             TakeFrom(reactant.atoms[q], molecule.atoms[reactant.atoms[q].id - 1])))
  }

  /** updateReactant: binds reactant reactantix to molecule, one template atom at a time. */
  method UpdateReactant(c: Reaction, reactantix: nat, molecule: Molecule) returns (r: Reaction)
    requires reactantix < |c.reactants|
    requires IdsIndexInto(c.reactants[reactantix], molecule)
    ensures r == c.(reactants := c.reactants[reactantix := Bound(c.reactants[reactantix], molecule)])
  {
    var reactant := c.reactants[reactantix];
    var atoms := reactant.atoms;
    var q := 0;
    while q < |atoms|
      invariant q <= |atoms| == |reactant.atoms|
      invariant forall p :: 0 <= p < q ==> atoms[p] == TakeFrom(reactant.atoms[p], molecule.atoms[reactant.atoms[p].id - 1])
      invariant forall p :: q <= p < |atoms| ==> atoms[p] == reactant.atoms[p]
    {
      var atom := molecule.atoms[atoms[q].id - 1];
      atoms := atoms[q := atoms[q].(id := atom.id, position := atom.position, velocity := atom.velocity)];
      q := q + 1;
    }
    assert atoms == Bound(reactant, molecule).atoms;
    reactant := reactant.(atoms := atoms, id := molecule.id);
    r := c.(reactants := c.reactants[reactantix := reactant]);
  }

  /** A fresh template numbers its atoms 1..n in order. */
  predicate FreshlyNumbered(reactant: Molecule)
  {
    forall q :: 0 <= q < |reactant.atoms| ==> reactant.atoms[q].id == q + 1
  }

  /**
   * Bound to a molecule with as many atoms, a freshly numbered template takes
   * the molecule's id and, position by position, its atoms' ids, positions
   * and velocities, keeping the template's atom names.
   */
  lemma BindFreshTemplate(reactant: Molecule, molecule: Molecule)
    requires FreshlyNumbered(reactant) && |reactant.atoms| == |molecule.atoms|
    ensures IdsIndexInto(reactant, molecule)
    ensures var b := Bound(reactant, molecule);
            b.id == molecule.id && b.name == reactant.name && |b.atoms| == |molecule.atoms|
            && forall q :: 0 <= q < |b.atoms| ==>
                 b.atoms[q] == molecule.atoms[q].(name := reactant.atoms[q].name)
  {
  }

  // ---------------------------------------------------------------------------
  // Transitions
  // ---------------------------------------------------------------------------

  predicate SourceIn(rs: seq<Molecule>, tt: Transition)
  {
    tt.oldMolix < |rs| && tt.oldix < |rs[tt.oldMolix].atoms|
  }

  predicate TargetIn(ps: seq<Molecule>, tt: Transition)
  {
    tt.newMolix < |ps| && tt.newix < |ps[tt.newMolix].atoms|
  }

  /** Two product lists with the same molecules, atom counts and ids, differing at most in atoms. */
  predicate SameShape(ps: seq<Molecule>, qs: seq<Molecule>)
  {
    |ps| == |qs| && forall m :: 0 <= m < |ps| ==> |ps[m].atoms| == |qs[m].atoms| && ps[m].id == qs[m].id && ps[m].name == qs[m].name
  }

  /** The products after one table row: the target atom takes the source atom's id, position and velocity. */
  function ApplyTransition(ps: seq<Molecule>, rs: seq<Molecule>, tt: Transition): (r: seq<Molecule>)
    requires SourceIn(rs, tt) && TargetIn(ps, tt)
    ensures SameShape(ps, r)
  {
    var target := ps[tt.newMolix];
    var atom := TakeFrom(target.atoms[tt.newix], rs[tt.oldMolix].atoms[tt.oldix]);
    ps[tt.newMolix := target.(atoms := target.atoms[tt.newix := atom])]
  }

  /** The products after the table rows in order. */
  function Transitioned(ps: seq<Molecule>, rs: seq<Molecule>, tts: seq<Transition>): (r: seq<Molecule>)
    requires forall t :: 0 <= t < |tts| ==> SourceIn(rs, tts[t]) && TargetIn(ps, tts[t])
    ensures SameShape(ps, r)
  {
    if |tts| == 0 then ps
    else
      var prev := Transitioned(ps, rs, tts[..|tts| - 1]);
      var tt := tts[|tts| - 1];
      assert TargetIn(ps, tt);
      assert |prev[tt.newMolix].atoms| == |ps[tt.newMolix].atoms|;
      ApplyTransition(prev, rs, tt)
  }

  /** applyTransitions: every row of the table in order. */
  method ApplyTransitions(c: Reaction) returns (r: Reaction)
    requires forall t :: 0 <= t < |c.transitions| ==> SourceIn(c.reactants, c.transitions[t]) && TargetIn(c.products, c.transitions[t])
    ensures r == c.(products := Transitioned(c.products, c.reactants, c.transitions))
  {
    var products := c.products;
    var t := 0;
    while t < |c.transitions|
      invariant t <= |c.transitions|
      invariant products == Transitioned(c.products, c.reactants, c.transitions[..t])
    {
      var tt := c.transitions[t];
      var target := products[tt.newMolix];
      var source := c.reactants[tt.oldMolix].atoms[tt.oldix];
      var atom := target.atoms[tt.newix].(id := source.id, position := source.position, velocity := source.velocity);
      products := products[tt.newMolix := target.(atoms := target.atoms[tt.newix := atom])];
      assert c.transitions[..t + 1][..t] == c.transitions[..t];
      t := t + 1;
    }
    assert c.transitions[..t] == c.transitions;
    r := c.(products := products);
  }

  /** The last row whose target is atom a of product m, or -1 when there is none. */
  function LastTargeting(tts: seq<Transition>, m: nat, a: nat): (r: int)
    ensures -1 <= r < |tts|
    ensures r >= 0 ==> tts[r].newMolix == m && tts[r].newix == a
    ensures forall t :: r < t < |tts| ==> !(tts[t].newMolix == m && tts[t].newix == a)
  {
    if |tts| == 0 then -1
    else if tts[|tts| - 1].newMolix == m && tts[|tts| - 1].newix == a then |tts| - 1
    else LastTargeting(tts[..|tts| - 1], m, a)
  }

  /**
   * Each product atom ends up with the data of the source of the last row
   * targeting it; an atom no row targets is unchanged. An earlier row for the
   * same target is overwritten.
   */
  lemma {:induction false} LastTransitionWins(ps: seq<Molecule>, rs: seq<Molecule>, tts: seq<Transition>, m: nat, a: nat)
    requires forall t :: 0 <= t < |tts| ==> SourceIn(rs, tts[t]) && TargetIn(ps, tts[t])
    requires m < |ps| && a < |ps[m].atoms|
    ensures var r := Transitioned(ps, rs, tts);
            var last := LastTargeting(tts, m, a);
            r[m].atoms[a] == if last < 0 then ps[m].atoms[a]
                             else TakeFrom(ps[m].atoms[a], rs[tts[last].oldMolix].atoms[tts[last].oldix])
  {
    if |tts| > 0 {
      var init := tts[..|tts| - 1];
      assert forall t :: 0 <= t < |init| ==> init[t] == tts[t];
      LastTransitionWins(ps, rs, init, m, a);
    }
  }

  // ---------------------------------------------------------------------------
  // Criteria
  // ---------------------------------------------------------------------------

  /** The candidate's criterion c with its latest value measured. */
  function Measured(cr: Criterion, rs: seq<Molecule>, dims: Vec3, measure: Measure): Criterion
  {
    cr.(latest := measure(cr.kind, cr.indices, rs, dims))
  }

  predicate Holds(cr: Criterion)
  {
    cr.minValue <= cr.latest <= cr.maxValue
  }

  function FailsOn(rs: seq<Molecule>, dims: Vec3, measure: Measure): Criterion -> bool
  {
    cr => !Holds(Measured(cr, rs, dims, measure))
  }

  /**
   * valid: measures the criteria in order, storing each value, and stops at
   * the first one outside its thresholds. The result holds iff every
   * criterion holds; the criteria up to and including the first failing one
   * carry their new values, the rest keep their old ones.
   */
  method Valid(c: Reaction, dims: Vec3, measure: Measure) returns (ok: bool, r: Reaction)
    ensures ok <==> forall t :: 0 <= t < |c.criteria| ==> Holds(Measured(c.criteria[t], c.reactants, dims, measure))
    ensures r == c.(criteria := r.criteria) && |r.criteria| == |c.criteria|
    ensures var stop := FirstWhere(c.criteria, FailsOn(c.reactants, dims, measure));
            forall t :: 0 <= t < |c.criteria| ==>
              r.criteria[t] == if t <= stop then Measured(c.criteria[t], c.reactants, dims, measure) else c.criteria[t]
    ensures |c.criteria| > 0 ==> CurrentDistanceValue(r) == measure(c.criteria[0].kind, c.criteria[0].indices, c.reactants, dims)
  {
    var criteria := c.criteria;
    var t := 0;
    while t < |criteria|
      invariant t <= |criteria| == |c.criteria|
      invariant forall j :: 0 <= j < t ==> criteria[j] == Measured(c.criteria[j], c.reactants, dims, measure) && Holds(criteria[j])
      invariant forall j :: t <= j < |criteria| ==> criteria[j] == c.criteria[j]
    {
      var cr := criteria[t];
      cr := cr.(latest := measure(cr.kind, cr.indices, c.reactants, dims));
      criteria := criteria[t := cr];
      if !(cr.minValue <= cr.latest <= cr.maxValue) {
        assert FailsOn(c.reactants, dims, measure)(c.criteria[t]);
        FirstWhereIs(c.criteria, FailsOn(c.reactants, dims, measure), t);
        return false, c.(criteria := criteria);
      }
      t := t + 1;
    }
    assert forall j :: 0 <= j < |c.criteria| ==> !FailsOn(c.reactants, dims, measure)(c.criteria[j]);
    FirstWhereIs(c.criteria, FailsOn(c.reactants, dims, measure), |c.criteria|);
    return true, c.(criteria := criteria);
  }
}
