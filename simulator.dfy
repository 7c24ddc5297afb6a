// control/simulator{Base,Rate,Metropolis}.{hpp,cpp}: the cycle loop of a
// hybrid MC/MD run and its two reactive steps. The MD engine is outside the
// model: its calls are logged, and whether a relaxation succeeds is an input,
// as are the random draws, the topology the parser reads for each cycle, the
// Metropolis condition computed from the engine's energies and the signals
// that arrive.
module Simulators {

  import opened Wrappers
  import opened Seqs
  import opened Molecules
  import opened Renumbering
  import opened CellGrid
  import opened Topologies
  import opened Reactions
  import opened Candidates
  import opened CandidateSearch
  import opened Random
  import opened Universes

  const SIGABRT := 6
  const SIGUSR1 := 10

  /** The calls made on the MD engine, in the order they are made. */
  datatype EngineCall =
    | RunMDInitial
    | RunMD(cycle: nat)
    | RunMDAppending(cycle: nat, last: nat)
    | RunRelaxation(cycle: nat)
    | RunEnergyComputation(cycle: nat, last: nat)
    | Cleanup(cycle: nat)

  /** The simulator chosen by the options: rate based with its frequency, or Metropolis with its temperature. */
  datatype Algorithm = Rate(frequency: real) | Metropolis(temperature: real)

  datatype SimMode = New | Restart(restartCycle: nat, restartCycleFiles: nat)

  /**
   * What one cycle takes from outside the program: the molecules, box and
   * cell counts the parser reads; the uniform draws in the order they are
   * made; the Boltzmann factor exp(-E/(R T)) of an energy E; the offset the
   * weighted choice draws for a weight list; whether the relaxation
   * succeeds; the potential-energy difference the energy parser reads; and
   * the signal (0 for none) arriving before the cycle and during its
   * reactive step.
   */
  datatype CycleInput = CycleInput(
    molecules: seq<Molecule>, dims: Vec3, counts: CellCounts,
    uniform: nat -> Draw, boltzmann: real -> real, choice: seq<real> -> nat,
    relaxed: bool, energyDifference: real,
    signalBefore: int, signalDuring: int)

  /** What the parser and the distributions guarantee of a cycle's input. */
  ghost predicate InputOk(tpls: seq<Reaction>, inp: CycleInput)
  {
    Positive(inp.counts) && PositiveBox(inp.dims) && NonEmptyMolecules(inp.molecules)
    && TemplatesFit(tpls, inp.molecules)
    && (forall e :: inp.boltzmann(e) > 0.0)
    && (forall ws :: |ws| > 0 ==> inp.choice(ws) < |ws|)
  }

  // ---------------------------------------------------------------------------
  // The candidates of a cycle
  // ---------------------------------------------------------------------------

  /** The buckets getCellList builds over a molecule list. */
  function GridCells(ms: seq<Molecule>, dims: Vec3, c: CellCounts): (r: seq<seq<Molecule>>)
    requires Positive(c)
    ensures |r| == Total(c)
  {
    seq(Total(c), cell requires 0 <= cell < Total(c) => Filter(ms, InCellTest(dims, c, cell)))
  }

  /** The neighbour lists getCellList builds for a grid. */
  function GridNeighbours(c: CellCounts): (r: seq<seq<int>>)
    requires Positive(c)
    ensures |r| == Total(c)
  {
    seq(Total(c), cell requires 0 <= cell < Total(c) => StencilAt(cell, c))
  }

  /** Every neighbour list of the grid names cells of the grid. */
  lemma GridSeedsReady(ms: seq<Molecule>, dims: Vec3, c: CellCounts)
    requires Positive(c)
    ensures AllSeedsReady(GridCells(ms, dims, c), GridNeighbours(c))
  {
    StencilsByPosition(GridNeighbours(c), c);
    NeighboursInRange(GridNeighbours(c), c);
  }

  /** The buckets hold only molecules of the list, so they fit the templates as the list does. */
  lemma GridFits(tpls: seq<Reaction>, ms: seq<Molecule>, dims: Vec3, c: CellCounts)
    requires Positive(c) && TemplatesFit(tpls, ms)
    ensures var cells := GridCells(ms, dims, c);
      AllFit(tpls, cells) && forall cell, m :: 0 <= cell < |cells| && m in cells[cell] ==> m in ms
  {
    var cells := GridCells(ms, dims, c);
    CellsFromMolecules(tpls, ms, cells, dims, c);
    forall cell, m | 0 <= cell < |cells| && m in cells[cell] ensures m in ms {
      FilterMember(ms, InCellTest(dims, c, cell), m);
    }
  }

  /** The candidates update and the cell search give for a cycle's topology, in search order. */
  ghost function CycleCandidates(tpls: seq<Reaction>, inp: CycleInput, check: SlotCheck): seq<Reaction>
    requires InputOk(tpls, inp)
  {
    GridFits(tpls, inp.molecules, inp.dims, inp.counts);
    GridSeedsReady(inp.molecules, inp.dims, inp.counts);
    AllCandidates(tpls, GridCells(inp.molecules, inp.dims, inp.counts), GridNeighbours(inp.counts), inp.dims, check)
  }

  /**
   * Every candidate of a cycle is its template with reactants bound, so it
   * can be reacted and put to the acceptance test like the template, and carries a template's
   * name; a cycle with candidates has molecules.
   */
  lemma CycleCandidatesReady(tpls: seq<Reaction>, inp: CycleInput, check: SlotCheck, alg: Algorithm)
    requires InputOk(tpls, inp) && TemplatesReady(tpls, alg)
    ensures var cands := CycleCandidates(tpls, inp, check);
      (forall k :: 0 <= k < |cands| ==> Reactable(cands[k], alg) && NamedAfterTemplate(cands[k], tpls))
      && (|cands| > 0 ==> |inp.molecules| > 0)
  {
    GridFits(tpls, inp.molecules, inp.dims, inp.counts);
    GridSeedsReady(inp.molecules, inp.dims, inp.counts);
    var cells := GridCells(inp.molecules, inp.dims, inp.counts);
    var nbrs := GridNeighbours(inp.counts);
    forall k | 0 <= k < |AllCandidates(tpls, cells, nbrs, inp.dims, check)|
      ensures var cand := AllCandidates(tpls, cells, nbrs, inp.dims, check)[k];
        Reactable(cand, alg) && NamedAfterTemplate(cand, tpls) && |inp.molecules| > 0
    {
      CandidateReadyAt(tpls, inp.molecules, cells, nbrs, inp.dims, check, alg, k);
    }
    if |AllCandidates(tpls, cells, nbrs, inp.dims, check)| > 0 {
      CandidateReadyAt(tpls, inp.molecules, cells, nbrs, inp.dims, check, alg, 0);
    }
  }

  lemma CandidateReadyAt(tpls: seq<Reaction>, ms: seq<Molecule>, cells: seq<seq<Molecule>>, nbrs: seq<seq<int>>,
                         dims: Vec3, check: SlotCheck, alg: Algorithm, k: nat)
    requires AllFit(tpls, cells) && AllSeedsReady(cells, nbrs)
    requires forall c, m :: 0 <= c < |cells| && m in cells[c] ==> m in ms
    requires TemplatesReady(tpls, alg)
    requires k < |AllCandidates(tpls, cells, nbrs, dims, check)|
    ensures var cand := AllCandidates(tpls, cells, nbrs, dims, check)[k];
      Reactable(cand, alg) && NamedAfterTemplate(cand, tpls) && |ms| > 0
  {
    var cand := AllCandidates(tpls, cells, nbrs, dims, check)[k];
    CandidateReactable(tpls, ms, cells, nbrs, dims, check, k);
    var t :| 0 <= t < |tpls| && InstanceOf(cand, tpls[t]);
    assert Reactable(tpls[t], alg);
  }

  /**
   * What a reaction needs to be reacted and, under the rate algorithm,
   * given the acceptance test: in-range transitions, products with atoms, at least one
   * reactant and one product, and a first criterion and a rate table.
   */
  predicate Reactable(c: Reaction, alg: Algorithm)
  {
    CanReact(c) && |c.reactants| > 0 && |c.products| > 0
    && (alg.Rate? ==> |c.criteria| > 0 && |c.rate| > 0)
  }

  predicate TemplatesReady(tpls: seq<Reaction>, alg: Algorithm)
  {
    forall t :: 0 <= t < |tpls| ==> Reactable(tpls[t], alg)
  }

  predicate NamedAfterTemplate(c: Reaction, tpls: seq<Reaction>)
  {
    NameIn(tpls, c.name)
  }

  /** containsMolecule on values: some molecule of ms has m's id and name. */
  predicate Holds(ms: seq<Molecule>, m: Molecule)
  {
    exists k :: 0 <= k < |ms| && ms[k].id == m.id && ms[k].name == m.name
  }

  /** isAvailable on values: every reactant, by id and name, is still in ms. */
  predicate Available(ms: seq<Molecule>, c: Reaction)
  {
    forall s :: 0 <= s < |c.reactants| ==> Holds(ms, c.reactants[s])
  }

  function ReactionNamed(n: string): Reaction -> bool { (c: Reaction) => c.name == n }

  // ---------------------------------------------------------------------------
  // Acceptance
  // ---------------------------------------------------------------------------

  /** Rate acceptance: the uniform draw u lies below frequency times rate. */
  function RateAccepts(u: Draw, frequency: real, rate: real): (r: bool)
    ensures frequency * rate <= 0.0 ==> !r
    ensures frequency * rate >= 1.0 ==> r
  {
    u < frequency * rate
  }

  /** Metropolis acceptance: the uniform draw u lies below the condition exp(-dE/(R T)). */
  function MetropolisAccepts(u: Draw, condition: real): (r: bool)
    ensures condition <= 0.0 ==> !r
    ensures condition >= 1.0 ==> r
  {
    u < condition
  }

  // ---------------------------------------------------------------------------
  // Per-template buckets
  // ---------------------------------------------------------------------------

  function Sum(s: seq<nat>): nat
  {
    if |s| == 0 then 0 else Sum(s[..|s| - 1]) + s[|s| - 1]
  }

  /** The buckets after one candidate named name: every template of that name gets one more. */
  function Bumped(buckets: seq<nat>, tpls: seq<Reaction>, name: string): (r: seq<nat>)
    requires |buckets| == |tpls|
    ensures |r| == |tpls|
  {
    seq(|tpls|, i requires 0 <= i < |tpls| => buckets[i] + (if tpls[i].name == name then 1 else 0))
  }

  /** A candidate adds to the bucket total once per template that carries its name. */
  lemma {:induction false} BumpedSum(buckets: seq<nat>, tpls: seq<Reaction>, name: string)
    requires |buckets| == |tpls|
    ensures Sum(Bumped(buckets, tpls, name)) == Sum(buckets) + Count(tpls, ReactionNamed(name))
    decreases |tpls|
  {
    if |tpls| > 0 {
      var n := |tpls| - 1;
      assert Bumped(buckets, tpls, name)[..n] == Bumped(buckets[..n], tpls[..n], name);
      BumpedSum(buckets[..n], tpls[..n], name);
    }
  }

  lemma {:induction false} CountNamed(tpls: seq<Reaction>, name: string, t: nat)
    requires t < |tpls| && tpls[t].name == name
    ensures Count(tpls, ReactionNamed(name)) >= 1
    decreases |tpls|
  {
    if t < |tpls| - 1 {
      CountNamed(tpls[..|tpls| - 1], name, t);
    }
  }

  /** The bucket loop of reactiveStep: every template whose name matches gets one more. */
  method BumpBuckets(buckets: seq<nat>, tpls: seq<Reaction>, name: string) returns (r: seq<nat>)
    requires |buckets| == |tpls|
    ensures r == Bumped(buckets, tpls, name)
  {
    r := buckets;
    var i := 0;
    while i < |tpls|
      invariant i <= |tpls| && |r| == |tpls|
      invariant forall j :: 0 <= j < i ==> r[j] == Bumped(buckets, tpls, name)[j]
      invariant forall j :: i <= j < |tpls| ==> r[j] == buckets[j]
    {
      if tpls[i].name == name {
        r := r[i := r[i] + 1];
      }
      i := i + 1;
    }
  }

  /** The size reactiveStep gives its attempted and accepted bucket vectors. */
  const AsWrittenBuckets: nat := 8

  /**
   * The bucket update as written: buckets is a vector of fixed size indexed
   * by template position, so a matching template at a position past its end
   * is a write outside the vector (None).
   */
  function BumpedAsWritten(buckets: seq<nat>, tpls: seq<Reaction>, name: string): (r: Option<seq<nat>>)
    ensures r.None? <==> exists i :: 0 <= i < |tpls| && tpls[i].name == name && |buckets| <= i
    ensures r.Some? ==> |r.value| == |buckets|
  {
    if exists i :: 0 <= i < |tpls| && tpls[i].name == name && |buckets| <= i then None
    else Some(seq(|buckets|, j requires 0 <= j < |buckets| => buckets[j] + (if j < |tpls| && tpls[j].name == name then 1 else 0)))
  }

  /** With a ninth template, a candidate named after it bumps a bucket outside the eight. */
  lemma NinthTemplateOverflows(tpls: seq<Reaction>)
    requires |tpls| > AsWrittenBuckets
    ensures BumpedAsWritten(seq(AsWrittenBuckets, _ => 0), tpls, tpls[AsWrittenBuckets].name).None?
  {
    var i := AsWrittenBuckets;
    assert 0 <= i < |tpls| && tpls[i].name == tpls[AsWrittenBuckets].name;
  }

  /** With at most eight templates, the fixed vector agrees with one bucket per template on the templates' positions. */
  lemma AsWrittenAgreesWithinEight(buckets: seq<nat>, tpls: seq<Reaction>, name: string)
    requires |buckets| == AsWrittenBuckets && |tpls| <= AsWrittenBuckets
    ensures BumpedAsWritten(buckets, tpls, name).Some?
    ensures BumpedAsWritten(buckets, tpls, name).value[..|tpls|] == Bumped(buckets[..|tpls|], tpls, name)
    ensures forall j :: |tpls| <= j < |buckets| ==> BumpedAsWritten(buckets, tpls, name).value[j] == buckets[j]
  {
  }

  /** The summing loop over a bucket vector. */
  method SumBuckets(buckets: seq<nat>) returns (total: nat)
    ensures total == Sum(buckets)
  {
    total := 0;
    var i := 0;
    while i < |buckets|
      invariant i <= |buckets| && total == Sum(buckets[..i])
    {
      assert buckets[..i + 1][..i] == buckets[..i];
      total := total + buckets[i];
      i := i + 1;
    }
    assert buckets[..i] == buckets;
  }

  // ---------------------------------------------------------------------------
  // The candidate loop of the rate algorithm, on values
  // ---------------------------------------------------------------------------

  /**
   * The state the candidate loop carries: the new topology's molecules and
   * molecule records, the attempted and accepted buckets, the candidates
   * reacted (as react leaves them) and the number of draws made.
   */
  datatype RateTally = RateTally(molecules: seq<Molecule>, records: seq<Record>,
                                 attempted: seq<nat>, accepted: seq<nat>, reacted: seq<Reaction>, drawn: nat)

  predicate TallyFits(t: RateTally, tpls: seq<Reaction>)
  {
    |t.attempted| == |tpls| && |t.accepted| == |tpls|
  }

  /** The test an available candidate takes: the draw u lies below frequency times the rate at its current distance. */
  predicate CandidateAccepts(c: Reaction, frequency: real, u: Draw)
    requires |c.criteria| > 0 && |c.rate| > 0
  {
    RateAccepts(u, frequency, RateAt(c.rate, CurrentDistanceValue(c)))
  }

  /** Candidate c is reacted from tally t: it is available and its draw is accepted. */
  predicate Reacts(t: RateTally, c: Reaction, frequency: real, u: Draw)
    requires |c.criteria| > 0 && |c.rate| > 0
  {
    Available(t.molecules, c) && CandidateAccepts(c, frequency, u)
  }

  /**
   * One candidate: an unavailable one changes nothing; an available one is
   * counted as attempted and put to the acceptance test with the next draw, and if accepted it
   * is reacted (reactants removed, products numbered above the highest id,
   * one record each) and counted as accepted.
   */
  function RateVisit(t: RateTally, c: Reaction, tpls: seq<Reaction>, frequency: real, dims: Vec3, u: Draw): (r: RateTally)
    requires TallyFits(t, tpls) && Reactable(c, Rate(frequency)) && PositiveBox(dims)
    ensures TallyFits(r, tpls)
  {
    if !Available(t.molecules, c) then t
    else
      var attempted := Bumped(t.attempted, tpls, c.name);
      if CandidateAccepts(c, frequency, u) then
        AvailableNonEmpty(t.molecules, c);
        var h := HighestId(t.molecules);
        var after := AfterReact(c, dims, h);
        RateTally(WithoutIds(t.molecules, Ids(c.reactants)) + after.products, t.records + NewRecords(h, |after.products|),
                  attempted, Bumped(t.accepted, tpls, c.name), t.reacted + [after], t.drawn + 1)
      else
        t.(attempted := attempted, drawn := t.drawn + 1)
  }

  lemma AvailableNonEmpty(ms: seq<Molecule>, c: Reaction)
    requires Available(ms, c) && |c.reactants| > 0
    ensures |ms| > 0
  {
    assert Holds(ms, c.reactants[0]);
  }

  ghost predicate ScanReady(cands: seq<Reaction>, tpls: seq<Reaction>, frequency: real, dims: Vec3, uniform: nat -> Draw)
  {
    PositiveBox(dims)
    && forall k :: 0 <= k < |cands| ==> Reactable(cands[k], Rate(frequency)) && NamedAfterTemplate(cands[k], tpls)
  }

  /** The candidate loop over the first n candidates, from empty buckets. */
  function RateScan(cands: seq<Reaction>, tpls: seq<Reaction>, frequency: real, dims: Vec3, uniform: nat -> Draw,
                    ms: seq<Molecule>, recs: seq<Record>, n: nat): (r: RateTally)
    requires n <= |cands| && ScanReady(cands, tpls, frequency, dims, uniform)
    ensures TallyFits(r, tpls)
  {
    if n == 0 then RateTally(ms, recs, seq(|tpls|, _ => 0), seq(|tpls|, _ => 0), [], 0)
    else
      var prev := RateScan(cands, tpls, frequency, dims, uniform, ms, recs, n - 1);
      RateVisit(prev, cands[n - 1], tpls, frequency, dims, uniform(prev.drawn))
  }

  /** What one step does to the buckets: accepted stays below attempted, and the total grows by one template match per reacted candidate. */
  lemma RateVisitBuckets(t: RateTally, c: Reaction, tpls: seq<Reaction>, frequency: real, dims: Vec3, u: Draw)
    requires TallyFits(t, tpls) && Reactable(c, Rate(frequency)) && PositiveBox(dims)
    requires NamedAfterTemplate(c, tpls)
    requires forall i :: 0 <= i < |tpls| ==> t.accepted[i] <= t.attempted[i]
    ensures var r := RateVisit(t, c, tpls, frequency, dims, u);
      (forall i :: 0 <= i < |tpls| ==> r.accepted[i] <= r.attempted[i])
      && (Reacts(t, c, frequency, u) ==> |r.reacted| == |t.reacted| + 1 && Sum(r.accepted) > Sum(t.accepted))
      && (!Reacts(t, c, frequency, u) ==> |r.reacted| == |t.reacted| && Sum(r.accepted) == Sum(t.accepted))
  {
    if Available(t.molecules, c) {
      BumpedSum(t.accepted, tpls, c.name);
      var k :| 0 <= k < |tpls| && tpls[k].name == c.name;
      CountNamed(tpls, c.name, k);
    }
  }

  /** Over the whole candidate loop the buckets agree with what was reacted. */
  lemma {:induction false} RateScanBuckets(cands: seq<Reaction>, tpls: seq<Reaction>, frequency: real, dims: Vec3,
                                           uniform: nat -> Draw, ms: seq<Molecule>, recs: seq<Record>, n: nat)
    requires n <= |cands| && ScanReady(cands, tpls, frequency, dims, uniform)
    ensures BucketsAgree(RateScan(cands, tpls, frequency, dims, uniform, ms, recs, n), tpls)
  {
    if n == 0 {
      ZeroSum(|tpls|);
    } else {
      assert BucketsAgree(RateScan(cands, tpls, frequency, dims, uniform, ms, recs, n - 1), tpls) by {
        RateScanBuckets(cands, tpls, frequency, dims, uniform, ms, recs, n - 1);
      }
      ScanBucketsStep(cands, tpls, frequency, dims, uniform, ms, recs, n);
    }
  }

  /**
   * No bucket accepts more than it attempted, the accepted total is at
   * least the number of candidates reacted, and it is zero exactly when
   * none was.
   */
  predicate BucketsAgree(r: RateTally, tpls: seq<Reaction>)
    requires TallyFits(r, tpls)
  {
    (forall i :: 0 <= i < |tpls| ==> r.accepted[i] <= r.attempted[i])
    && Sum(r.accepted) >= |r.reacted|
    && (Sum(r.accepted) == 0 <==> |r.reacted| == 0)
  }

  /** One step of the scan keeps the buckets in agreement with what was reacted. */
  lemma ScanBucketsStep(cands: seq<Reaction>, tpls: seq<Reaction>, frequency: real, dims: Vec3,
                        uniform: nat -> Draw, ms: seq<Molecule>, recs: seq<Record>, n: nat)
    requires 0 < n <= |cands| && ScanReady(cands, tpls, frequency, dims, uniform)
    requires BucketsAgree(RateScan(cands, tpls, frequency, dims, uniform, ms, recs, n - 1), tpls)
    ensures BucketsAgree(RateScan(cands, tpls, frequency, dims, uniform, ms, recs, n), tpls)
  {
    var prev := RateScan(cands, tpls, frequency, dims, uniform, ms, recs, n - 1);
    RateVisitBuckets(prev, cands[n - 1], tpls, frequency, dims, uniform(prev.drawn));
  }

  lemma {:induction false} ZeroSum(n: nat)
    ensures Sum(seq(n, _ => 0)) == 0
  {
    if n > 0 {
      assert seq(n, _ => 0)[..n - 1] == seq(n - 1, _ => 0);
      ZeroSum(n - 1);
    }
  }

  /** No molecule carries id, and the highest id there is not below it: the state react leaves a reactant id in. */
  predicate Gone(ms: seq<Molecule>, id: nat)
  {
    |ms| > 0 && HighestId(ms) >= id && forall k :: 0 <= k < |ms| ==> ms[k].id != id
  }

  /** A later step of the loop keeps a removed id removed: kept molecules were there before, products lie above the highest id. */
  lemma RateVisitKeepsGone(t: RateTally, c: Reaction, tpls: seq<Reaction>, frequency: real, dims: Vec3, u: Draw, id: nat)
    requires TallyFits(t, tpls) && Reactable(c, Rate(frequency)) && PositiveBox(dims)
    requires Gone(t.molecules, id)
    ensures Gone(RateVisit(t, c, tpls, frequency, dims, u).molecules, id)
  {
    var r := RateVisit(t, c, tpls, frequency, dims, u);
    if r.molecules != t.molecules {
      var h := HighestId(t.molecules);
      var ps := Transitioned(c.products, c.reactants, c.transitions);
      ReactedTopology(t.molecules, c.reactants, WholeAll(ps, dims));
      var last := |r.molecules| - 1;
      assert r.molecules[last].id > h;
    }
  }

  /** The step that reacts a candidate leaves none of its reactant ids behind. */
  lemma RateVisitRemoves(t: RateTally, c: Reaction, tpls: seq<Reaction>, frequency: real, dims: Vec3, u: Draw, id: nat)
    requires TallyFits(t, tpls) && Reactable(c, Rate(frequency)) && PositiveBox(dims)
    requires Reacts(t, c, frequency, u) && id in Ids(c.reactants)
    ensures Gone(RateVisit(t, c, tpls, frequency, dims, u).molecules, id)
  {
    var r := RateVisit(t, c, tpls, frequency, dims, u);
    var h := HighestId(t.molecules);
    var ps := Transitioned(c.products, c.reactants, c.transitions);
    SharedReactantUnavailable(t.molecules, c, dims, c.reactants[0].(id := id));
    ReactedTopology(t.molecules, c.reactants, WholeAll(ps, dims));
    var s :| 0 <= s < |c.reactants| && c.reactants[s].id == id;
    assert id <= h;
    var last := |r.molecules| - 1;
    assert r.molecules[last].id > h;
  }

  /** A candidate one of whose reactant ids is gone is not available. */
  lemma GoneUnavailable(ms: seq<Molecule>, c: Reaction, id: nat)
    requires Gone(ms, id) && id in Ids(c.reactants)
    ensures !Available(ms, c)
  {
    var s :| 0 <= s < |c.reactants| && c.reactants[s].id == id;
    assert !Holds(ms, c.reactants[s]);
  }

  /** A step of the scan that keeps a removed id removed, stated on the scan itself. */
  lemma ScanKeepsGone(cands: seq<Reaction>, tpls: seq<Reaction>, frequency: real, dims: Vec3,
                      uniform: nat -> Draw, ms: seq<Molecule>, recs: seq<Record>, n: nat, id: nat)
    requires 0 < n <= |cands| && ScanReady(cands, tpls, frequency, dims, uniform)
    requires Gone(RateScan(cands, tpls, frequency, dims, uniform, ms, recs, n - 1).molecules, id)
    ensures Gone(RateScan(cands, tpls, frequency, dims, uniform, ms, recs, n).molecules, id)
  {
    var prev := RateScan(cands, tpls, frequency, dims, uniform, ms, recs, n - 1);
    RateVisitKeepsGone(prev, cands[n - 1], tpls, frequency, dims, uniform(prev.drawn), id);
  }

  /** The step that reacts candidate j, stated on the scan itself. */
  lemma ScanRemoves(cands: seq<Reaction>, tpls: seq<Reaction>, frequency: real, dims: Vec3,
                    uniform: nat -> Draw, ms: seq<Molecule>, recs: seq<Record>, j: nat, id: nat)
    requires j < |cands| && ScanReady(cands, tpls, frequency, dims, uniform)
    requires var prev := RateScan(cands, tpls, frequency, dims, uniform, ms, recs, j);
             Reacts(prev, cands[j], frequency, uniform(prev.drawn))
    requires id in Ids(cands[j].reactants)
    ensures Gone(RateScan(cands, tpls, frequency, dims, uniform, ms, recs, j + 1).molecules, id)
  {
    var prev := RateScan(cands, tpls, frequency, dims, uniform, ms, recs, j);
    RateVisitRemoves(prev, cands[j], tpls, frequency, dims, uniform(prev.drawn), id);
  }

  /** Once an id is removed at step m, it stays removed at every later step. */
  lemma {:induction false} GoneFrom(cands: seq<Reaction>, tpls: seq<Reaction>, frequency: real, dims: Vec3,
                                    uniform: nat -> Draw, ms: seq<Molecule>, recs: seq<Record>,
                                    m: nat, n: nat, id: nat)
    requires m <= n <= |cands| && ScanReady(cands, tpls, frequency, dims, uniform)
    requires Gone(RateScan(cands, tpls, frequency, dims, uniform, ms, recs, m).molecules, id)
    ensures Gone(RateScan(cands, tpls, frequency, dims, uniform, ms, recs, n).molecules, id)
    decreases n
  {
    if n > m {
      assert Gone(RateScan(cands, tpls, frequency, dims, uniform, ms, recs, n - 1).molecules, id) by {
        GoneFrom(cands, tpls, frequency, dims, uniform, ms, recs, m, n - 1, id);
      }
      ScanKeepsGone(cands, tpls, frequency, dims, uniform, ms, recs, n, id);
    }
  }

  // ---------------------------------------------------------------------------
  // Counting candidates by name
  // ---------------------------------------------------------------------------

  /** The names the elements of s carry. */
  function Names(s: seq<Reaction>): set<string>
  {
    set k | 0 <= k < |s| :: s[k].name
  }

  /** Whether some element of s carries the name n. */
  predicate NameIn(s: seq<Reaction>, n: string)
  {
    exists k :: 0 <= k < |s| && s[k].name == n
  }

  lemma {:induction false} CountNone(s: seq<Reaction>, n: string)
    requires !NameIn(s, n)
    ensures Count(s, ReactionNamed(n)) == 0
  {
    if |s| > 0 {
      CountNone(s[..|s| - 1], n);
    }
  }

  /** The accumulate of Metropolis' reactiveStep: how many candidates carry the name. */
  method CountCandidates(cands: seq<Reaction>, name: string) returns (count: nat)
    ensures count == Count(cands, ReactionNamed(name))
    ensures count > 0 <==> NameIn(cands, name)
  {
    count := 0;
    var i := 0;
    while i < |cands|
      invariant i <= |cands| && count == Count(cands[..i], ReactionNamed(name))
      invariant count > 0 <==> NameIn(cands[..i], name)
    {
      assert cands[..i + 1][..i] == cands[..i];
      assert NameIn(cands[..i + 1], name) <==> NameIn(cands[..i], name) || cands[i].name == name by {
        if NameIn(cands[..i + 1], name) && cands[i].name != name {
          var k :| 0 <= k < i + 1 && cands[..i + 1][k].name == name;
          assert cands[..i][k].name == name;
        }
        if NameIn(cands[..i], name) {
          var k :| 0 <= k < i && cands[..i][k].name == name;
          assert cands[..i + 1][k].name == name;
        }
        if cands[i].name == name {
          assert cands[..i + 1][i].name == name;
        }
      }
      if cands[i].name == name {
        count := count + 1;
      }
      i := i + 1;
    }
    assert cands[..i] == cands;
  }

  /** The counts map of Metropolis' reactiveStep: one entry per template name, the number of candidates carrying it. */
  method CountPerTemplate(cands: seq<Reaction>, tpls: seq<Reaction>) returns (counts: map<string, nat>)
    ensures forall n :: n in counts <==> NameIn(tpls, n)
    ensures forall n :: n in counts ==> counts[n] == Count(cands, ReactionNamed(n))
  {
    counts := map[];
    var t := 0;
    while t < |tpls|
      invariant t <= |tpls|
      invariant forall n :: n in counts <==> NameIn(tpls[..t], n)
      invariant forall n :: n in counts ==> counts[n] == Count(cands, ReactionNamed(n))
    {
      var count := CountCandidates(cands, tpls[t].name);
      counts := counts[tpls[t].name := count];
      NameInSnoc(tpls, t);
      t := t + 1;
    }
    assert tpls[..t] == tpls;
  }

  /** One more candidate adds one to the count of its own name and nothing to any other. */
  lemma CountNamedSnoc(s: seq<Reaction>, t: nat)
    requires t < |s|
    ensures forall n :: Count(s[..t + 1], ReactionNamed(n)) == Count(s[..t], ReactionNamed(n)) + (if s[t].name == n then 1 else 0)
  {
    assert s[..t + 1][..t] == s[..t];
  }

  lemma NameInSnoc(s: seq<Reaction>, t: nat)
    requires t < |s|
    ensures forall n :: NameIn(s[..t + 1], n) <==> NameIn(s[..t], n) || n == s[t].name
  {
    forall n ensures NameIn(s[..t + 1], n) <==> NameIn(s[..t], n) || n == s[t].name {
      if NameIn(s[..t + 1], n) && n != s[t].name {
        var k :| 0 <= k < t + 1 && s[..t + 1][k].name == n;
        assert s[..t][k].name == n;
      }
      if NameIn(s[..t], n) {
        var k :| 0 <= k < t && s[..t][k].name == n;
        assert s[..t + 1][k].name == n;
      }
      if n == s[t].name {
        assert s[..t + 1][t].name == n;
      }
    }
  }

  /**
   * The candidateTypes map of the rate reactiveStep: every candidate,
   * available or not, adds one under its name (try_emplace with 0, then
   * increment).
   */
  method CandidateTypes(cands: seq<Reaction>) returns (types: map<string, nat>)
    ensures forall n :: n in types <==> NameIn(cands, n)
    ensures forall n :: n in types ==> types[n] == Count(cands, ReactionNamed(n)) && types[n] > 0
  {
    types := map[];
    var i := 0;
    while i < |cands|
      invariant i <= |cands|
      invariant TypesOf(types, cands[..i])
    {
      var name := cands[i].name;
      var before := if name in types then types[name] else 0;
      TypesStep(cands, i, types);
      types := types[name := before + 1];
      i := i + 1;
    }
    assert cands[..i] == cands;
  }

  /** The types map of a list of candidates: one entry per name, holding how many candidates carry it. */
  ghost predicate TypesOf(types: map<string, nat>, cands: seq<Reaction>)
  {
    (forall n :: n in types <==> NameIn(cands, n))
    && (forall n :: n in types ==> types[n] == Count(cands, ReactionNamed(n)) && types[n] > 0)
  }

  /** One step of CandidateTypes: counting candidate i under its name keeps the per-name counts of the prefix. */
  lemma TypesStep(cands: seq<Reaction>, i: nat, types: map<string, nat>)
    requires i < |cands| && TypesOf(types, cands[..i])
    ensures TypesOf(types[cands[i].name := (if cands[i].name in types then types[cands[i].name] else 0) + 1], cands[..i + 1])
  {
    var name := cands[i].name;
    NameInSnoc(cands, i);
    CountNamedSnoc(cands, i);
    if name !in types {
      CountNone(cands[..i], name);
    }
  }

  /** setup of the Metropolis simulator: a failed-relaxation count of 0 for every template name. */
  method ZeroPerTemplate(tpls: seq<Reaction>) returns (failed: map<string, nat>)
    ensures forall n :: n in failed <==> NameIn(tpls, n)
    ensures forall n :: n in failed ==> failed[n] == 0
  {
    failed := map[];
    var t := 0;
    while t < |tpls|
      invariant t <= |tpls|
      invariant forall n :: n in failed <==> NameIn(tpls[..t], n)
      invariant forall n :: n in failed ==> failed[n] == 0
    {
      failed := failed[tpls[t].name := 0];
      NameInSnoc(tpls, t);
      t := t + 1;
    }
    assert tpls[..t] == tpls;
  }

  /** The transform of Metropolis' reactiveStep: each candidate's weight is the Boltzmann factor of its activation energy. */
  method Weights(cands: seq<Reaction>, boltzmann: real -> real) returns (weights: seq<real>)
    ensures |weights| == |cands|
    ensures forall k :: 0 <= k < |cands| ==> weights[k] == boltzmann(cands[k].activationEnergy)
  {
    weights := [];
    var i := 0;
    while i < |cands|
      invariant i <= |cands| && |weights| == i
      invariant forall k :: 0 <= k < i ==> weights[k] == boltzmann(cands[k].activationEnergy)
    {
      weights := weights + [boltzmann(cands[i].activationEnergy)];
      i := i + 1;
    }
  }

  // ---------------------------------------------------------------------------
  // The simulator
  // ---------------------------------------------------------------------------

  /** The three ways a Metropolis cycle with candidates ends. */
  datatype MetropolisOutcome = Accepted | Rejected | FailedRelaxation

  /** A relaxation that fails ends the cycle; otherwise the acceptance test decides. */
  function OutcomeOf(relaxed: bool, accepted: bool): MetropolisOutcome
  {
    if !relaxed then FailedRelaxation else if accepted then Accepted else Rejected
  }

  /** The engine calls a Metropolis cycle with candidates makes after writing the topology. */
  function MetropolisCalls(cycle: nat, last: nat, outcome: MetropolisOutcome): (r: seq<EngineCall>)
    ensures |r| > 0 && r[0] == RunRelaxation(cycle)
    ensures Cleanup(cycle) in r <==> outcome != Accepted
    ensures RunEnergyComputation(cycle, last) in r <==> outcome != FailedRelaxation
  {
    match outcome
    case Accepted => [RunRelaxation(cycle), RunEnergyComputation(cycle, last)]
    case Rejected => [RunRelaxation(cycle), RunEnergyComputation(cycle, last), Cleanup(cycle)]
    case FailedRelaxation => [RunRelaxation(cycle), Cleanup(cycle)]
  }

  /** What a Metropolis cycle updates: the engine log, the last reactive cycle and the outcome counters. */
  datatype Bookkeeping = Bookkeeping(log: seq<EngineCall>, last: nat, accepted: nat, rejected: nat,
                                     failedRelaxation: nat, failedByName: map<string, nat>)

  /**
   * The bookkeeping after a Metropolis cycle with candidates ends with the
   * given outcome for the candidate named name (its properties are
   * ResolveFacts).
   */
  function Resolve(b: Bookkeeping, cycle: nat, name: string, outcome: MetropolisOutcome): Bookkeeping
  {
    var calls := MetropolisCalls(cycle, b.last, outcome);
    match outcome
    case Accepted => b.(log := b.log + calls, last := cycle, accepted := b.accepted + 1)
    case Rejected => b.(log := b.log + calls, rejected := b.rejected + 1)
    case FailedRelaxation =>
      var prior := if name in b.failedByName then b.failedByName[name] else 0;
      b.(log := b.log + calls, failedRelaxation := b.failedRelaxation + 1, failedByName := b.failedByName[name := prior + 1])
  }

  /**
   * The engine calls of the outcome are logged after the earlier ones, an
   * acceptance makes cycle the last reactive cycle, exactly one outcome
   * counter grows, and a failed relaxation is counted under the reaction's
   * name as well (from 0 when the name is new), adding no other name.
   */
  lemma ResolveFacts(b: Bookkeeping, cycle: nat, name: string, outcome: MetropolisOutcome)
    ensures var r := Resolve(b, cycle, name, outcome);
            LogExtends(r.log, b.log) && |r.log| > |b.log|
            && r.accepted + r.rejected + r.failedRelaxation == b.accepted + b.rejected + b.failedRelaxation + 1
            && (outcome == Accepted ==> r.last == cycle && r.accepted == b.accepted + 1)
            && (outcome != Accepted ==> r.last == b.last && r.accepted == b.accepted)
            && r.failedByName.Keys == b.failedByName.Keys + (if outcome == FailedRelaxation then {name} else {})
            && (outcome == FailedRelaxation ==> r.failedByName[name] == (if name in b.failedByName then b.failedByName[name] else 0) + 1)
  {
    var r := Resolve(b, cycle, name, outcome);
    var calls := MetropolisCalls(cycle, b.last, outcome);
    assert r.log[|b.log|..] == calls;
  }

  /** The calls a reactive step makes: relaxations, energy computations and clean-ups, no MD run. */
  predicate ReactiveCalls(log: seq<EngineCall>)
  {
    forall k :: 0 <= k < |log| ==> log[k].RunRelaxation? || log[k].RunEnergyComputation? || log[k].Cleanup?
  }

  predicate NoInitialMD(log: seq<EngineCall>)
  {
    forall k :: 0 <= k < |log| ==> log[k] != RunMDInitial
  }

  /** log continues prefix with the calls of reactive steps only. */
  predicate LogExtends(log: seq<EngineCall>, prefix: seq<EngineCall>)
  {
    |prefix| <= |log| && log[..|prefix|] == prefix && ReactiveCalls(log[|prefix|..])
  }

  /** log continues prefix with calls other than the initial MD run. */
  predicate Continues(log: seq<EngineCall>, prefix: seq<EngineCall>)
  {
    |prefix| <= |log| && log[..|prefix|] == prefix && NoInitialMD(log[|prefix|..])
  }

  /** The initial MD sequence run makes when it starts at cycle 1. */
  function InitialRun(cycle: nat): seq<EngineCall>
  {
    if cycle == 1 then [RunMDInitial] else []
  }

  /** The number of per-cycle MD sequences (plain or appending) in a log. */
  function MdRuns(log: seq<EngineCall>): nat
  {
    if |log| == 0 then 0
    else MdRuns(log[..|log| - 1]) + (if log[|log| - 1].RunMD? || log[|log| - 1].RunMDAppending? then 1 else 0)
  }

  /** A reactive step runs no MD sequence. */
  lemma {:induction false} ReactiveRunsNoMd(log: seq<EngineCall>, prefix: seq<EngineCall>)
    requires LogExtends(log, prefix)
    ensures MdRuns(log) == MdRuns(prefix)
    decreases |log|
  {
    if |log| > |prefix| {
      var init := log[..|log| - 1];
      assert init[..|prefix|] == prefix;
      assert init[|prefix|..] == log[|prefix|..|log| - 1];
      assert log[|log| - 1] == log[|prefix|..][|log| - 1 - |prefix|];
      ReactiveRunsNoMd(init, prefix);
    } else {
      assert log == prefix;
    }
  }

  /** One more MD sequence adds one run to the count. */
  lemma MdRunsAppend(log: seq<EngineCall>, call: EngineCall)
    ensures MdRuns(log + [call]) == MdRuns(log) + (if call.RunMD? || call.RunMDAppending? then 1 else 0)
  {
    assert (log + [call])[..|log|] == log;
  }

  /** The calls of a reactive step include no initial MD run. */
  lemma ExtendsContinues(log: seq<EngineCall>, prefix: seq<EngineCall>)
    requires LogExtends(log, prefix)
    ensures Continues(log, prefix)
  {
    forall k | 0 <= k < |log| - |prefix|
      ensures log[|prefix|..][k] != RunMDInitial
    {
      assert log[|prefix|..][k].RunRelaxation? || log[|prefix|..][k].RunEnergyComputation? || log[|prefix|..][k].Cleanup?;
    }
  }

  /** Continuing a continuation continues the original log. */
  lemma ContinuesTrans(log: seq<EngineCall>, mid: seq<EngineCall>, prefix: seq<EngineCall>)
    requires Continues(mid, prefix) && Continues(log, mid)
    ensures Continues(log, prefix)
  {
    assert log[..|prefix|] == mid[..|prefix|];
    forall k | 0 <= k < |log| - |prefix|
      ensures log[|prefix|..][k] != RunMDInitial
    {
      if k < |mid| - |prefix| {
        assert log[|prefix|..][k] == mid[|prefix|..][k];
      } else {
        assert log[|prefix|..][k] == log[|mid|..][k - (|mid| - |prefix|)];
      }
    }
  }

  /**
   * SimulatorBase with its two derived simulators: the algorithm selects the
   * reactive step and which counters it keeps. SIGNAL and
   * CIVILISED_SHUTDOWN, the controller's flags, are fields here, and so is
   * the call count of the signal handler.
   */
  class Simulator {

    const universe: Universe
    const algorithm: Algorithm
    const nCycles: nat

    var currentCycle: nat
    var lastReactiveCycle: nat
    var nCyclesCompleted: nat
    /** The calls made on the MD engine so far. */
    var engineLog: seq<EngineCall>
    var signal: int
    var civilisedShutdown: bool
    /** How often Controller::signal ran, and whether its third run ended the process with std::exit. */
    var signalCalls: nat
    var exited: bool

    // SimulatorRate
    var nCyclesReaction: nat
    var nCyclesNoReaction: nat

    // SimulatorMetropolis
    var nCyclesAccepted: nat
    var nCyclesRejected: nat
    var nCyclesRejectedFailedRelaxation: nat
    var failedRelaxations: map<string, nat>

    ghost predicate Valid()
      reads this, universe
    {
      universe.topologyOld != universe.topologyNew && TemplatesReady(universe.reactionTemplates, algorithm)
      && (algorithm.Metropolis? ==> failedRelaxations.Keys == Names(universe.reactionTemplates))
    }

    /** The process is running, and the handler has run exactly when a signal is held. */
    ghost predicate Handling()
      reads this
    {
      !exited && (signal == 0 <==> signalCalls == 0)
    }

    /** The cycle counters and the signal flags are as they were. */
    twostate predicate CycleKept()
      reads this
    {
      currentCycle == old(currentCycle) && nCyclesCompleted == old(nCyclesCompleted)
      && signal == old(signal) && civilisedShutdown == old(civilisedShutdown)
      && signalCalls == old(signalCalls) && exited == old(exited)
    }

    twostate predicate RateCountersKept()
      reads this
    {
      nCyclesReaction == old(nCyclesReaction) && nCyclesNoReaction == old(nCyclesNoReaction)
    }

    twostate predicate MetropolisCountersKept()
      reads this
    {
      nCyclesAccepted == old(nCyclesAccepted) && nCyclesRejected == old(nCyclesRejected)
      && nCyclesRejectedFailedRelaxation == old(nCyclesRejectedFailedRelaxation)
      && failedRelaxations == old(failedRelaxations)
    }

    /**
     * setup: the universe with its templates, the cycle count, and in restart
     * mode the cycle to go on from and the cycle whose files to read;
     * Metropolis starts a failed-relaxation count of 0 per template name.
     */
    constructor (templates: seq<Reaction>, alg: Algorithm, cycles: nat, mode: SimMode)
      requires TemplatesReady(templates, alg)
      ensures Valid() && fresh(universe) && fresh(universe.topologyOld) && fresh(universe.topologyNew)
      ensures universe.reactionTemplates == templates && algorithm == alg && nCycles == cycles
      ensures mode.New? ==> currentCycle == 1 && lastReactiveCycle == 0
      ensures mode.Restart? ==> currentCycle == mode.restartCycle && lastReactiveCycle == mode.restartCycleFiles
      ensures nCyclesCompleted == 0 && engineLog == [] && signal == 0 && !civilisedShutdown
      ensures signalCalls == 0 && !exited
      ensures nCyclesReaction == 0 && nCyclesNoReaction == 0
      ensures nCyclesAccepted == 0 && nCyclesRejected == 0 && nCyclesRejectedFailedRelaxation == 0
      ensures alg.Rate? ==> failedRelaxations == map[]
      ensures alg.Metropolis? ==> (forall n :: n in failedRelaxations <==> NameIn(templates, n))
                                  && forall n :: n in failedRelaxations ==> failedRelaxations[n] == 0
    {
      var failed: map<string, nat> := map[];
      if alg.Metropolis? {
        failed := ZeroPerTemplate(templates);
      }
      universe := new Universe(templates);
      algorithm := alg;
      nCycles := cycles;
      match mode {
        case New =>
          currentCycle, lastReactiveCycle := 1, 0;
        case Restart(restartCycle, restartCycleFiles) =>
          lastReactiveCycle := restartCycleFiles;
          currentCycle := restartCycle;
      }
      nCyclesCompleted := 0;
      engineLog := [];
      signal, civilisedShutdown := 0, false;
      signalCalls, exited := 0, false;
      nCyclesReaction, nCyclesNoReaction := 0, 0;
      nCyclesAccepted, nCyclesRejected, nCyclesRejectedFailedRelaxation := 0, 0, 0;
      failedRelaxations := failed;
    }

    /**
     * Controller::signal, with 0 standing for no signal arriving. Each run
     * counts; the third one ends the process at once. Otherwise SIGUSR1
     * marks the shutdown civilised and SIGNAL holds the signal.
     */
    method Deliver(sig: int)
      requires !exited
      modifies this
      ensures sig == 0 ==> signal == old(signal) && civilisedShutdown == old(civilisedShutdown)
                           && signalCalls == old(signalCalls) && !exited
      ensures sig != 0 ==> signalCalls == old(signalCalls) + 1
      ensures sig != 0 && signalCalls == 3 ==> exited && signal == old(signal) && civilisedShutdown == old(civilisedShutdown)
      ensures sig != 0 && signalCalls != 3 ==> !exited && signal == sig
                                               && civilisedShutdown == (old(civilisedShutdown) || sig == SIGUSR1)
      ensures currentCycle == old(currentCycle) && nCyclesCompleted == old(nCyclesCompleted)
      ensures lastReactiveCycle == old(lastReactiveCycle) && engineLog == old(engineLog)
      ensures RateCountersKept() && MetropolisCountersKept()
    {
      if sig != 0 {
        signalCalls := signalCalls + 1;
        if signalCalls == 3 {
          exited := true;
          return;
        }
        if sig == SIGUSR1 {
          civilisedShutdown := true;
        }
        signal := sig;
      }
    }

    /** mdSequence: a plain MD run right after a reactive cycle, an appending run otherwise. */
    method MdSequence()
      modifies this
      ensures lastReactiveCycle == old(lastReactiveCycle) && CycleKept()
      ensures engineLog == old(engineLog) + [if lastReactiveCycle == currentCycle then RunMD(currentCycle)
                                              else RunMDAppending(currentCycle, lastReactiveCycle)]
      ensures RateCountersKept() && MetropolisCountersKept()
    {
      if lastReactiveCycle == currentCycle {
        engineLog := engineLog + [RunMD(currentCycle)];
      } else {
        engineLog := engineLog + [RunMDAppending(currentCycle, lastReactiveCycle)];
      }
    }

    /** update then CellSearchReactionCandidates: both topologies hold the cycle's molecules, and the candidates are those of its cell grid. */
    method Search(check: SlotCheck, inp: CycleInput) returns (cands: seq<Reaction>)
      requires Valid() && InputOk(universe.reactionTemplates, inp)
      modifies universe, universe.topologyOld, universe.topologyNew
      ensures Valid() && universe.reactionTemplates == old(universe.reactionTemplates)
      ensures universe.topologyOld == old(universe.topologyOld) && universe.topologyNew == old(universe.topologyNew)
      ensures universe.topologyNew.data == inp.molecules && universe.topologyNew.moleculeRecords == []
      ensures universe.topologyNew.dimensions == inp.dims
      ensures cands == CycleCandidates(universe.reactionTemplates, inp, check)
    {
      universe.Update(inp.molecules, inp.dims, inp.counts);
      cands := universe.CellSearchReactionCandidates(check);
      GridCellsAre(universe.cellList, inp.molecules, inp.dims, inp.counts);
      GridNeighboursAre(universe.cellNeighbourIndices, inp.counts);
    }
  
    /**
     * The body of the rate candidate loop for candidate c: the buckets, the
     * reacted candidates and the number of draws so far go in, their new
     * values come out, and the new topology is reacted in place.
     */
    method RateCandidate(c: Reaction, attempted: seq<nat>, accepted: seq<nat>, reacted: seq<Reaction>, drawn: nat,
                         uniform: nat -> Draw)
      returns (attempted': seq<nat>, accepted': seq<nat>, reacted': seq<Reaction>, drawn': nat)
      requires algorithm.Rate? && Reactable(c, algorithm) && PositiveBox(universe.topologyNew.dimensions)
      requires |attempted| == |universe.reactionTemplates| && |accepted| == |universe.reactionTemplates|
      modifies universe.topologyNew
      ensures RateTally(universe.topologyNew.data, universe.topologyNew.moleculeRecords, attempted', accepted', reacted', drawn')
              == RateVisit(RateTally(old(universe.topologyNew.data), old(universe.topologyNew.moleculeRecords),
                                     attempted, accepted, reacted, drawn),
                           c, universe.reactionTemplates, algorithm.frequency, old(universe.topologyNew.dimensions), uniform(drawn))
      ensures universe.topologyNew.dimensions == old(universe.topologyNew.dimensions)
      ensures universe.topologyNew.cellNumbers == old(universe.topologyNew.cellNumbers)
    {
      var tpls := universe.reactionTemplates;
      attempted', accepted', reacted', drawn' := attempted, accepted, reacted, drawn;
      var available := universe.IsAvailable(c);
      if available {
        assert Available(universe.topologyNew.data, c);
        attempted' := BumpBuckets(attempted, tpls, c.name);
        var rate := CurrentReactionRateValue(c);
        if RateAccepts(uniform(drawn), algorithm.frequency, rate) {
          AvailableNonEmpty(universe.topologyNew.data, c);
          var after := universe.React(c);
          accepted' := BumpBuckets(accepted, tpls, c.name);
          reacted' := reacted + [after];
        }
        drawn' := drawn + 1;
      } else {
        assert !Available(universe.topologyNew.data, c);
      }
    }

    /** The candidate loop of the rate reactive step, from empty buckets and no draws. */
    method RateLoop(cands: seq<Reaction>, uniform: nat -> Draw)
      returns (attempted: seq<nat>, accepted: seq<nat>, reacted: seq<Reaction>)
      requires algorithm.Rate?
      requires ScanReady(cands, universe.reactionTemplates, algorithm.frequency, universe.topologyNew.dimensions, uniform)
      modifies universe.topologyNew
      ensures var scan := RateScan(cands, universe.reactionTemplates, algorithm.frequency, old(universe.topologyNew.dimensions),
                                   uniform, old(universe.topologyNew.data), old(universe.topologyNew.moleculeRecords), |cands|);
              universe.topologyNew.data == scan.molecules && universe.topologyNew.moleculeRecords == scan.records
              && attempted == scan.attempted && accepted == scan.accepted && reacted == scan.reacted
      ensures universe.topologyNew.dimensions == old(universe.topologyNew.dimensions)
      ensures universe.topologyNew.cellNumbers == old(universe.topologyNew.cellNumbers)
    {
      var tpls, dims := universe.reactionTemplates, universe.topologyNew.dimensions;
      ghost var ms, recs := universe.topologyNew.data, universe.topologyNew.moleculeRecords;
      attempted, accepted, reacted := seq(|tpls|, _ => 0), seq(|tpls|, _ => 0), [];
      var drawn := 0;
      var k := 0;
      while k < |cands|
        invariant k <= |cands|
        invariant universe.topologyNew.dimensions == dims
        invariant universe.topologyNew.cellNumbers == old(universe.topologyNew.cellNumbers)
        invariant RateTally(universe.topologyNew.data, universe.topologyNew.moleculeRecords, attempted, accepted, reacted, drawn)
                  == RateScan(cands, tpls, algorithm.frequency, dims, uniform, ms, recs, k)
      {
        attempted, accepted, reacted, drawn := RateCandidate(cands[k], attempted, accepted, reacted, drawn, uniform);
        k := k + 1;
      }
    }

    /**
     * reactiveStep of SimulatorRate: search, run the candidate loop, and if
     * any candidate was accepted write the topology and relax it; a failed
     * relaxation raises SIGABRT, which reaches Controller::signal.
     * types counts the candidates per reaction name for the log.
     */
    method RateStep(check: SlotCheck, inp: CycleInput) returns (types: map<string, nat>)
      requires Valid() && algorithm.Rate? && InputOk(universe.reactionTemplates, inp)
      requires Handling() && signal == 0
      modifies this, universe, universe.topologyOld, universe.topologyNew
      ensures Handling() && signalCalls <= 1
      ensures universe.topologyOld == old(universe.topologyOld) && universe.topologyNew == old(universe.topologyNew)
      ensures Valid() && universe.reactionTemplates == old(universe.reactionTemplates)
      ensures currentCycle == old(currentCycle) && nCyclesCompleted == old(nCyclesCompleted)
      ensures civilisedShutdown == old(civilisedShutdown) && MetropolisCountersKept()
      ensures LogExtends(engineLog, old(engineLog))
      ensures lastReactiveCycle == old(lastReactiveCycle) || lastReactiveCycle == currentCycle
      ensures signal == old(signal) || (!inp.relaxed && signal == SIGABRT)
      ensures var cands := CycleCandidates(universe.reactionTemplates, inp, check);
              (forall n :: n in types <==> NameIn(cands, n))
              && forall n :: n in types ==> types[n] == Count(cands, ReactionNamed(n))
      ensures var scan := CycleScan(universe.reactionTemplates, inp, check, algorithm.frequency);
              if |scan.reacted| > 0 then
                universe.topologyNew.data == SortOutcome(scan.molecules)
                && engineLog == old(engineLog) + [RunRelaxation(currentCycle)]
                && nCyclesNoReaction == old(nCyclesNoReaction)
                && (inp.relaxed ==> lastReactiveCycle == currentCycle && nCyclesReaction == old(nCyclesReaction) + 1
                                    && signal == old(signal))
                && (!inp.relaxed ==> lastReactiveCycle == old(lastReactiveCycle) && nCyclesReaction == old(nCyclesReaction)
                                     && signal == SIGABRT)
              else
                universe.topologyNew.data == scan.molecules && engineLog == old(engineLog)
                && lastReactiveCycle == old(lastReactiveCycle) && signal == old(signal)
                && nCyclesReaction == old(nCyclesReaction) && nCyclesNoReaction == old(nCyclesNoReaction) + 1
    {
      var tpls := universe.reactionTemplates;
      var cands := Search(check, inp);
      assert ScanReady(cands, tpls, algorithm.frequency, inp.dims, inp.uniform) by {
        CycleCandidatesReady(tpls, inp, check, algorithm);
      }
      types := RateCycle(cands, inp.uniform, inp.relaxed);
    }

    /** The rate reactive step once the candidates are found: the candidate loop, the totals and the relaxation. */
    method RateCycle(cands: seq<Reaction>, uniform: nat -> Draw, relaxed: bool) returns (types: map<string, nat>)
      requires algorithm.Rate?
      requires ScanReady(cands, universe.reactionTemplates, algorithm.frequency, universe.topologyNew.dimensions, uniform)
      requires Handling() && signal == 0
      modifies this, universe.topologyNew
      ensures Handling() && signalCalls <= 1
      ensures (forall n :: n in types <==> NameIn(cands, n))
              && forall n :: n in types ==> types[n] == Count(cands, ReactionNamed(n))
      ensures var scan := RateScan(cands, universe.reactionTemplates, algorithm.frequency, old(universe.topologyNew.dimensions),
                                   uniform, old(universe.topologyNew.data), old(universe.topologyNew.moleculeRecords), |cands|);
              if |scan.reacted| > 0 then
                universe.topologyNew.data == SortOutcome(scan.molecules)
                && engineLog == old(engineLog) + [RunRelaxation(currentCycle)]
                && nCyclesNoReaction == old(nCyclesNoReaction)
                && (relaxed ==> lastReactiveCycle == currentCycle && nCyclesReaction == old(nCyclesReaction) + 1
                                && signal == old(signal))
                && (!relaxed ==> lastReactiveCycle == old(lastReactiveCycle) && nCyclesReaction == old(nCyclesReaction)
                                 && signal == SIGABRT)
              else
                universe.topologyNew.data == scan.molecules && engineLog == old(engineLog)
                && lastReactiveCycle == old(lastReactiveCycle) && signal == old(signal)
                && nCyclesReaction == old(nCyclesReaction) && nCyclesNoReaction == old(nCyclesNoReaction) + 1
      ensures currentCycle == old(currentCycle) && nCyclesCompleted == old(nCyclesCompleted)
      ensures civilisedShutdown == old(civilisedShutdown) && MetropolisCountersKept()
      ensures LogExtends(engineLog, old(engineLog))
      ensures lastReactiveCycle == old(lastReactiveCycle) || lastReactiveCycle == currentCycle
      ensures signal == old(signal) || (!relaxed && signal == SIGABRT)
    {
      types := map[];
      if |cands| > 0 {
        var attempted, accepted, reacted := RateLoop(cands, uniform);
        types := CandidateTypes(cands);
        var total := SumBuckets(accepted);
        assert total > 0 <==> |reacted| > 0 by {
          RateScanBuckets(cands, universe.reactionTemplates, algorithm.frequency, universe.topologyNew.dimensions, uniform,
                          old(universe.topologyNew.data), old(universe.topologyNew.moleculeRecords), |cands|);
        }
        RateRelax(total > 0, relaxed);
      } else {
        nCyclesNoReaction := nCyclesNoReaction + 1;
      }
    }

    /** After the candidate loop: with an accepted candidate the topology is written and relaxed, otherwise the cycle counts as one without reaction. */
    method RateRelax(anyAccepted: bool, relaxed: bool)
      requires Handling() && signal == 0
      modifies this, universe.topologyNew
      ensures Handling() && signalCalls <= 1
      ensures anyAccepted ==> universe.topologyNew.data == SortOutcome(old(universe.topologyNew.data))
                              && engineLog == old(engineLog) + [RunRelaxation(currentCycle)]
                              && nCyclesNoReaction == old(nCyclesNoReaction)
      ensures anyAccepted && relaxed ==> lastReactiveCycle == currentCycle && nCyclesReaction == old(nCyclesReaction) + 1
                                         && signal == old(signal)
      ensures anyAccepted && !relaxed ==> lastReactiveCycle == old(lastReactiveCycle) && nCyclesReaction == old(nCyclesReaction)
                                          && signal == SIGABRT
      ensures !anyAccepted ==> universe.topologyNew.data == old(universe.topologyNew.data) && engineLog == old(engineLog)
                               && lastReactiveCycle == old(lastReactiveCycle) && signal == old(signal)
                               && nCyclesReaction == old(nCyclesReaction) && nCyclesNoReaction == old(nCyclesNoReaction) + 1
      ensures currentCycle == old(currentCycle) && nCyclesCompleted == old(nCyclesCompleted)
      ensures civilisedShutdown == old(civilisedShutdown) && MetropolisCountersKept()
      ensures LogExtends(engineLog, old(engineLog))
    {
      if anyAccepted {
        universe.Write();
        RelaxWritten(relaxed);
      } else {
        nCyclesNoReaction := nCyclesNoReaction + 1;
      }
    }

    /** The relaxation after an accepted candidate was written: a reactive cycle when it succeeds, SIGABRT through the handler when it fails. */
    method RelaxWritten(relaxed: bool)
      requires Handling() && signal == 0
      modifies this
      ensures Handling() && signalCalls <= 1
      ensures engineLog == old(engineLog) + [RunRelaxation(currentCycle)] && nCyclesNoReaction == old(nCyclesNoReaction)
      ensures relaxed ==> lastReactiveCycle == currentCycle && nCyclesReaction == old(nCyclesReaction) + 1
                          && signal == old(signal)
      ensures !relaxed ==> lastReactiveCycle == old(lastReactiveCycle) && nCyclesReaction == old(nCyclesReaction)
                           && signal == SIGABRT
      ensures currentCycle == old(currentCycle) && nCyclesCompleted == old(nCyclesCompleted)
      ensures civilisedShutdown == old(civilisedShutdown) && MetropolisCountersKept()
    {
      engineLog := engineLog + [RunRelaxation(currentCycle)];
      if relaxed {
        lastReactiveCycle := currentCycle;
        nCyclesReaction := nCyclesReaction + 1;
      } else {
        Deliver(SIGABRT);
      }
    }

    /** The Metropolis bookkeeping as it stands. */
    function Books(): Bookkeeping
      reads this
    {
      Bookkeeping(engineLog, lastReactiveCycle, nCyclesAccepted, nCyclesRejected, nCyclesRejectedFailedRelaxation,
                  failedRelaxations)
    }

    /**
     * reactiveStep of SimulatorMetropolis: search, pick one candidate by its
     * Boltzmann weight, react it, write and relax; after a relaxation the
     * energy is computed and the acceptance test decides. counts is the
     * per-template tally of the candidates.
     */
    method MetropolisStep(check: SlotCheck, inp: CycleInput) returns (counts: map<string, nat>)
      requires Valid() && algorithm.Metropolis? && InputOk(universe.reactionTemplates, inp)
      modifies this, universe, universe.topologyOld, universe.topologyNew
      ensures universe.topologyOld == old(universe.topologyOld) && universe.topologyNew == old(universe.topologyNew)
      ensures Valid() && universe.reactionTemplates == old(universe.reactionTemplates)
      ensures CycleKept() && RateCountersKept()
      ensures LogExtends(engineLog, old(engineLog))
      ensures lastReactiveCycle == old(lastReactiveCycle) || lastReactiveCycle == currentCycle
      ensures |CycleCandidates(universe.reactionTemplates, inp, check)| == 0 ==>
                counts == map[] && universe.topologyNew.data == inp.molecules && engineLog == old(engineLog)
                && lastReactiveCycle == old(lastReactiveCycle) && MetropolisCountersKept()
      ensures |CycleCandidates(universe.reactionTemplates, inp, check)| > 0 ==>
                (forall n :: n in counts <==> NameIn(universe.reactionTemplates, n))
                && (forall n :: n in counts ==> counts[n] == Count(CycleCandidates(universe.reactionTemplates, inp, check), ReactionNamed(n)))
                && universe.topologyNew.data == AfterReactAndWrite(inp.molecules, Chosen(universe.reactionTemplates, inp, check, algorithm), inp.dims)
                && Books() == Resolve(old(Books()), currentCycle, Chosen(universe.reactionTemplates, inp, check, algorithm).name,
                                      CycleOutcome(inp, Chosen(universe.reactionTemplates, inp, check, algorithm)))
    {
      var tpls := universe.reactionTemplates;
      var cands := Search(check, inp);
      CycleCandidatesReady(tpls, inp, check, algorithm);
      counts := MetropolisCycle(cands, inp);
    }

    /** The Metropolis reactive step once the candidates are found. */
    method MetropolisCycle(cands: seq<Reaction>, inp: CycleInput) returns (counts: map<string, nat>)
      requires Valid() && algorithm.Metropolis? && PositiveBox(universe.topologyNew.dimensions)
      requires forall k :: 0 <= k < |cands| ==> Reactable(cands[k], algorithm) && NamedAfterTemplate(cands[k], universe.reactionTemplates)
      requires |cands| > 0 ==> |universe.topologyNew.data| > 0
      requires forall e :: inp.boltzmann(e) > 0.0
      requires forall ws :: |ws| > 0 ==> inp.choice(ws) < |ws|
      modifies this, universe.topologyNew
      ensures Valid() && CycleKept() && RateCountersKept()
      ensures LogExtends(engineLog, old(engineLog))
      ensures lastReactiveCycle == old(lastReactiveCycle) || lastReactiveCycle == currentCycle
      ensures |cands| == 0 ==>
                counts == map[] && universe.topologyNew.data == old(universe.topologyNew.data) && engineLog == old(engineLog)
                && lastReactiveCycle == old(lastReactiveCycle) && MetropolisCountersKept()
      ensures |cands| > 0 ==>
                (forall n :: n in counts <==> NameIn(universe.reactionTemplates, n))
                && (forall n :: n in counts ==> counts[n] == Count(cands, ReactionNamed(n)))
      ensures |cands| > 0 ==> Reactable(Picked(cands, inp), algorithm)
      ensures |cands| > 0 ==>
                universe.topologyNew.data
                  == AfterReactAndWrite(old(universe.topologyNew.data), Picked(cands, inp), old(universe.topologyNew.dimensions))
                && Books() == Resolve(old(Books()), currentCycle, Picked(cands, inp).name, CycleOutcome(inp, Picked(cands, inp)))
    {
      counts := map[];
      if |cands| > 0 {
        var tpls := universe.reactionTemplates;
        counts := CountPerTemplate(cands, tpls);
        var k := PickCandidate(cands, inp);
        MetropolisReact(cands[k], inp);
      }
    }

    /** The chosen candidate is reacted, the topology written, and the cycle resolved. */
    method MetropolisReact(candidate: Reaction, inp: CycleInput)
      requires Valid() && CanReact(candidate) && NamedAfterTemplate(candidate, universe.reactionTemplates)
      requires |universe.topologyNew.data| > 0 && PositiveBox(universe.topologyNew.dimensions)
      modifies this, universe.topologyNew
      ensures Valid() && CycleKept() && RateCountersKept()
      ensures LogExtends(engineLog, old(engineLog))
      ensures lastReactiveCycle == old(lastReactiveCycle) || lastReactiveCycle == currentCycle
      ensures universe.topologyNew.data
              == AfterReactAndWrite(old(universe.topologyNew.data), candidate, old(universe.topologyNew.dimensions))
      ensures Books() == Resolve(old(Books()), currentCycle, candidate.name, CycleOutcome(inp, candidate))
    {
      ReactAndWrite(candidate);
      ResolveCycle(candidate, inp);
    }

    /** The cycle of the chosen candidate is resolved: the bookkeeping moves on and the invariant is kept. */
    method ResolveCycle(candidate: Reaction, inp: CycleInput)
      requires Valid() && NamedAfterTemplate(candidate, universe.reactionTemplates)
      modifies this
      ensures Valid() && CycleKept() && RateCountersKept()
      ensures LogExtends(engineLog, old(engineLog))
      ensures lastReactiveCycle == old(lastReactiveCycle) || lastReactiveCycle == currentCycle
      ensures Books() == Resolve(old(Books()), currentCycle, candidate.name, CycleOutcome(inp, candidate))
    {
      ghost var books := Books();
      MetropolisResolve(candidate, inp);
      ResolveFacts(books, currentCycle, candidate.name, CycleOutcome(inp, candidate));
    }

    /** react on the chosen candidate, then write: the new topology loses the reactants, gains the products and is sorted. */
    method ReactAndWrite(candidate: Reaction)
      requires CanReact(candidate) && |universe.topologyNew.data| > 0 && PositiveBox(universe.topologyNew.dimensions)
      modifies universe.topologyNew
      ensures universe.topologyNew.data
              == AfterReactAndWrite(old(universe.topologyNew.data), candidate, old(universe.topologyNew.dimensions))
      ensures SortedRecords(RecordsAfterReact(old(universe.topologyNew.moleculeRecords), old(universe.topologyNew.data),
                                              candidate, old(universe.topologyNew.dimensions)),
                            ReactedData(old(universe.topologyNew.data), candidate, old(universe.topologyNew.dimensions)),
                            universe.topologyNew.moleculeRecords, universe.topologyNew.atomRecords)
      ensures universe.topologyNew.dimensions == old(universe.topologyNew.dimensions)
      ensures universe.topologyNew.cellNumbers == old(universe.topologyNew.cellNumbers)
    {
      var after := universe.React(candidate);
      universe.Write();
    }

    /** random_weighted_choice over the candidates' Boltzmann weights, with the cycle's draw. */
    method PickCandidate(cands: seq<Reaction>, inp: CycleInput) returns (k: nat)
      requires |cands| > 0
      requires forall e :: inp.boltzmann(e) > 0.0
      requires forall ws :: |ws| > 0 ==> inp.choice(ws) < |ws|
      ensures k < |cands| && k == PickIndex(cands, inp)
    {
      var weights := Weights(cands, inp.boltzmann);
      assert weights == BoltzmannWeights(cands, inp.boltzmann);
      k := RandomWeightedChoice(weights, inp.choice(weights));
    }

    /** The relaxation, energy computation and acceptance test after the chosen candidate was reacted and written. */
    method MetropolisResolve(candidate: Reaction, inp: CycleInput)
      modifies this
      ensures Books() == Resolve(old(Books()), currentCycle, candidate.name, CycleOutcome(inp, candidate))
      ensures CycleKept() && RateCountersKept()
    {
      engineLog := engineLog + [RunRelaxation(currentCycle)];
      if inp.relaxed {
        engineLog := engineLog + [RunEnergyComputation(currentCycle, lastReactiveCycle)];
        if MetropolisAccepts(inp.uniform(0), inp.boltzmann(inp.energyDifference + candidate.reactionEnergy)) {
          Accept();
        } else {
          Reject();
        }
      } else {
        FailRelaxation(candidate.name);
      }
    }

    /** An accepted cycle becomes the last reactive one and is counted. */
    method Accept()
      modifies this
      ensures engineLog == old(engineLog) && lastReactiveCycle == currentCycle && nCyclesAccepted == old(nCyclesAccepted) + 1
      ensures nCyclesRejected == old(nCyclesRejected) && nCyclesRejectedFailedRelaxation == old(nCyclesRejectedFailedRelaxation)
      ensures failedRelaxations == old(failedRelaxations)
      ensures CycleKept() && RateCountersKept()
    {
      lastReactiveCycle := currentCycle;
      nCyclesAccepted := nCyclesAccepted + 1;
    }

    /** A rejected cycle is cleaned up and counted. */
    method Reject()
      modifies this
      ensures engineLog == old(engineLog) + [Cleanup(currentCycle)] && nCyclesRejected == old(nCyclesRejected) + 1
      ensures lastReactiveCycle == old(lastReactiveCycle) && nCyclesAccepted == old(nCyclesAccepted)
      ensures nCyclesRejectedFailedRelaxation == old(nCyclesRejectedFailedRelaxation) && failedRelaxations == old(failedRelaxations)
      ensures CycleKept() && RateCountersKept()
    {
      engineLog := engineLog + [Cleanup(currentCycle)];
      nCyclesRejected := nCyclesRejected + 1;
    }

    /** A failed relaxation is cleaned up and counted, in total and for the reaction's name. */
    method FailRelaxation(name: string)
      modifies this
      ensures engineLog == old(engineLog) + [Cleanup(currentCycle)]
      ensures nCyclesRejectedFailedRelaxation == old(nCyclesRejectedFailedRelaxation) + 1
      ensures failedRelaxations == old(failedRelaxations)[name := (if name in old(failedRelaxations) then old(failedRelaxations)[name] else 0) + 1]
      ensures lastReactiveCycle == old(lastReactiveCycle) && nCyclesAccepted == old(nCyclesAccepted) && nCyclesRejected == old(nCyclesRejected)
      ensures CycleKept() && RateCountersKept()
    {
      engineLog := engineLog + [Cleanup(currentCycle)];
      nCyclesRejectedFailedRelaxation := nCyclesRejectedFailedRelaxation + 1;
      var prior := if name in failedRelaxations then failedRelaxations[name] else 0;
      failedRelaxations := failedRelaxations[name := prior + 1];
    }

    /**
     * run: the initial MD sequence when the run starts at cycle 1, then one
     * cycle after another up to nCycles, until a cycle stops the run.
     */
    method Run(check: SlotCheck, input: nat -> CycleInput)
      requires Valid() && forall c :: InputOk(universe.reactionTemplates, input(c))
      requires Handling()
      modifies this, universe, universe.topologyOld, universe.topologyNew
      ensures exited ==> signal != 0 && currentCycle <= nCycles
      ensures Valid() && universe.reactionTemplates == old(universe.reactionTemplates)
      ensures currentCycle > nCycles || signal != 0
      ensures currentCycle >= old(currentCycle)
      ensures nCyclesCompleted - old(nCyclesCompleted) == currentCycle - old(currentCycle)
      ensures Continues(engineLog, old(engineLog) + InitialRun(old(currentCycle)))
      ensures MdRuns(engineLog) == MdRuns(old(engineLog)) + (nCyclesCompleted - old(nCyclesCompleted))
      ensures old(signal) != 0 ==> currentCycle == old(currentCycle) && engineLog == old(engineLog) + InitialRun(old(currentCycle))
      ensures old(signal) == 0 && Quiet(input, algorithm) ==>
                signal == 0 && currentCycle == (if old(currentCycle) <= nCycles then nCycles + 1 else old(currentCycle))
    {
      engineLog := engineLog + InitialRun(currentCycle);
      ghost var start := engineLog;
      assert MdRuns(start) == MdRuns(old(engineLog)) by {
        if old(currentCycle) == 1 {
          MdRunsAppend(old(engineLog), RunMDInitial);
        } else {
          assert start == old(engineLog);
        }
      }
      while currentCycle <= nCycles
        invariant Valid() && universe.reactionTemplates == old(universe.reactionTemplates)
        invariant universe.topologyOld == old(universe.topologyOld) && universe.topologyNew == old(universe.topologyNew)
        invariant old(currentCycle) <= currentCycle
        invariant currentCycle > old(currentCycle) ==> currentCycle <= nCycles + 1
        invariant nCyclesCompleted - old(nCyclesCompleted) == currentCycle - old(currentCycle)
        invariant Continues(engineLog, start)
        invariant MdRuns(engineLog) == MdRuns(start) + (nCyclesCompleted - old(nCyclesCompleted))
        invariant old(signal) != 0 ==> signal != 0 && currentCycle == old(currentCycle) && engineLog == start
        invariant old(signal) == 0 && Quiet(input, algorithm) ==> signal == 0
        invariant Handling()
        decreases nCycles + 1 - currentCycle
      {
        ghost var before := engineLog;
        var stopped := RunCycle(check, input(currentCycle));
        ContinuesTrans(engineLog, before, start);
        if stopped {
          break;
        }
      }
    }

    /**
     * One pass of run's loop. A signal pending before the cycle stops the
     * run; one arriving during the reactive step stops it before the MD
     * sequence unless it asked for a civilised shutdown. A cycle that is
     * not stopped runs exactly one MD sequence and counts as completed.
     */
    method RunCycle(check: SlotCheck, inp: CycleInput) returns (stopped: bool)
      requires Valid() && InputOk(universe.reactionTemplates, inp)
      requires Handling()
      modifies this, universe, universe.topologyOld, universe.topologyNew
      ensures !stopped ==> Handling()
      ensures exited ==> stopped && old(signalCalls) == 2 && inp.signalBefore != 0 && engineLog == old(engineLog)
      ensures Valid() && universe.reactionTemplates == old(universe.reactionTemplates)
      ensures universe.topologyOld == old(universe.topologyOld) && universe.topologyNew == old(universe.topologyNew)
      ensures stopped ==> signal != 0 && currentCycle == old(currentCycle) && nCyclesCompleted == old(nCyclesCompleted)
      ensures !stopped ==> currentCycle == old(currentCycle) + 1 && nCyclesCompleted == old(nCyclesCompleted) + 1
      ensures Continues(engineLog, old(engineLog))
      ensures MdRuns(engineLog) == MdRuns(old(engineLog)) + (if stopped then 0 else 1)
      ensures old(signal) != 0 ==> stopped && engineLog == old(engineLog)
      ensures old(signal) == 0 && QuietCycle(inp, algorithm) ==> !stopped && signal == 0
    {
      Deliver(inp.signalBefore);
      if exited || signal != 0 {
        return true;
      }
      ghost var before := engineLog;
      ReactiveStep(check, inp);
      ghost var reacted := engineLog;
      ReactiveRunsNoMd(reacted, before);
      ExtendsContinues(reacted, before);
      stopped := EndCycle(inp.signalDuring);
      ContinuesTrans(engineLog, reacted, before);
    }

    /** The rest of a cycle after its reactive step: the signal check, the MD sequence, the counters. */
    method EndCycle(sig: int) returns (stopped: bool)
      requires Handling()
      modifies this
      ensures !stopped ==> Handling()
      ensures exited ==> stopped && old(signalCalls) == 2
      ensures failedRelaxations == old(failedRelaxations)
      ensures stopped ==> signal != 0 && currentCycle == old(currentCycle) && nCyclesCompleted == old(nCyclesCompleted)
                          && engineLog == old(engineLog)
      ensures !stopped ==> currentCycle == old(currentCycle) + 1 && nCyclesCompleted == old(nCyclesCompleted) + 1
      ensures Continues(engineLog, old(engineLog)) && MdRuns(engineLog) == MdRuns(old(engineLog)) + (if stopped then 0 else 1)
      ensures old(signal) == 0 && sig == 0 ==> !stopped && signal == 0
    {
      Deliver(sig);
      if exited || (signal != 0 && !civilisedShutdown) {
        return true;
      }
      ghost var reacted := engineLog;
      MdSequence();
      MdRunsAppend(reacted, engineLog[|reacted|]);
      currentCycle := currentCycle + 1;
      nCyclesCompleted := nCyclesCompleted + 1;
      return false;
    }

    /** The reactive step of the configured algorithm. */
    method ReactiveStep(check: SlotCheck, inp: CycleInput)
      requires Valid() && InputOk(universe.reactionTemplates, inp)
      requires Handling() && signal == 0
      modifies this, universe, universe.topologyOld, universe.topologyNew
      ensures Handling() && signalCalls <= 1
      ensures universe.topologyOld == old(universe.topologyOld) && universe.topologyNew == old(universe.topologyNew)
      ensures Valid() && universe.reactionTemplates == old(universe.reactionTemplates)
      ensures currentCycle == old(currentCycle) && nCyclesCompleted == old(nCyclesCompleted)
      ensures civilisedShutdown == old(civilisedShutdown)
      ensures signal == old(signal) || (algorithm.Rate? && !inp.relaxed && signal == SIGABRT)
      ensures lastReactiveCycle == old(lastReactiveCycle) || lastReactiveCycle == currentCycle
      ensures LogExtends(engineLog, old(engineLog))
    {
      if algorithm.Rate? {
        var _ := RateStep(check, inp);
      } else {
        var _ := MetropolisStep(check, inp);
      }
    }
}

  /** The Boltzmann weight of every candidate, in candidate order. */
  function BoltzmannWeights(cands: seq<Reaction>, boltzmann: real -> real): seq<real>
  {
    seq(|cands|, k requires 0 <= k < |cands| => boltzmann(cands[k].activationEnergy))
  }

  /** No signal arrives, and under the rate algorithm the relaxation succeeds (a failed one raises SIGABRT). */
  predicate QuietCycle(inp: CycleInput, algorithm: Algorithm)
  {
    inp.signalBefore == 0 && inp.signalDuring == 0 && (algorithm.Rate? ==> inp.relaxed)
  }

  /** Every cycle of a run is quiet. */
  ghost predicate Quiet(input: nat -> CycleInput, algorithm: Algorithm)
  {
    forall c :: QuietCycle(input(c), algorithm)
  }

  /** The candidate random_weighted_choice picks from the cycle's draw; its weight is positive. */
  ghost function PickIndex(cands: seq<Reaction>, inp: CycleInput): (r: nat)
    requires |cands| > 0
    requires forall e :: inp.boltzmann(e) > 0.0
    requires forall ws :: |ws| > 0 ==> inp.choice(ws) < |ws|
    ensures r < |cands| && BoltzmannWeights(cands, inp.boltzmann)[r] > 0.0
  {
    var weights := BoltzmannWeights(cands, inp.boltzmann);
    RandomWeightedChoice(weights, inp.choice(weights))
  }

  /** The candidate a Metropolis cycle with candidates reacts. */
  ghost function Chosen(tpls: seq<Reaction>, inp: CycleInput, check: SlotCheck, alg: Algorithm): (c: Reaction)
    requires InputOk(tpls, inp) && TemplatesReady(tpls, alg) && |CycleCandidates(tpls, inp, check)| > 0
    ensures Reactable(c, alg) && NamedAfterTemplate(c, tpls) && |inp.molecules| > 0
  {
    var cands := CycleCandidates(tpls, inp, check);
    CycleCandidatesReady(tpls, inp, check, alg);
    Picked(cands, inp)
  }

  /** The candidate random_weighted_choice picks from cands with the cycle's draw. */
  ghost function Picked(cands: seq<Reaction>, inp: CycleInput): Reaction
    requires |cands| > 0
    requires forall e :: inp.boltzmann(e) > 0.0
    requires forall ws :: |ws| > 0 ==> inp.choice(ws) < |ws|
  {
    cands[PickIndex(cands, inp)]
  }

  /** The new topology after react and write: the reactants gone, the products numbered above the highest id, all sorted. */
  function AfterReactAndWrite(ms: seq<Molecule>, c: Reaction, dims: Vec3): seq<Molecule>
    requires |ms| > 0 && CanReact(c) && PositiveBox(dims)
  {
    SortOutcome(ReactedData(ms, c, dims))
  }

  /** The new topology's molecules after react, before write: the reactants removed, the products appended. */
  function ReactedData(ms: seq<Molecule>, c: Reaction, dims: Vec3): seq<Molecule>
    requires |ms| > 0 && CanReact(c) && PositiveBox(dims)
  {
    WithoutIds(ms, Ids(c.reactants)) + AfterReact(c, dims, HighestId(ms)).products
  }

  /** The new topology's molecule records after react: one fresh record per product. */
  function RecordsAfterReact(recs: seq<Record>, ms: seq<Molecule>, c: Reaction, dims: Vec3): seq<Record>
    requires |ms| > 0 && CanReact(c) && PositiveBox(dims)
  {
    recs + NewRecords(HighestId(ms), |AfterReact(c, dims, HighestId(ms)).products|)
  }

  /** How the Metropolis cycle that reacted c ends: by the relaxation, then by the acceptance test on the energy change. */
  function CycleOutcome(inp: CycleInput, c: Reaction): MetropolisOutcome
  {
    OutcomeOf(inp.relaxed, MetropolisAccepts(inp.uniform(0), inp.boltzmann(inp.energyDifference + c.reactionEnergy)))
  }

  /** The rate candidate loop over all the cycle's candidates, from its molecules and no records. */
  ghost function CycleScan(tpls: seq<Reaction>, inp: CycleInput, check: SlotCheck, frequency: real): RateTally
    requires InputOk(tpls, inp) && TemplatesReady(tpls, Rate(frequency))
  {
    CycleCandidatesReady(tpls, inp, check, Rate(frequency));
    var cands := CycleCandidates(tpls, inp, check);
    RateScan(cands, tpls, frequency, inp.dims, inp.uniform, inp.molecules, [], |cands|)
  }

  lemma GridCellsAre(cells: seq<seq<Molecule>>, ms: seq<Molecule>, dims: Vec3, c: CellCounts)
    requires Positive(c) && |cells| == Total(c)
    requires forall cell :: 0 <= cell < |cells| ==> cells[cell] == Filter(ms, InCellTest(dims, c, cell))
    ensures cells == GridCells(ms, dims, c)
  {
  }

  lemma GridNeighboursAre(nbrs: seq<seq<int>>, c: CellCounts)
    requires Positive(c) && |nbrs| == Total(c)
    requires forall i, j, k :: InGrid(i, j, k, c) ==> nbrs[Index(i, j, k, c)] == Stencil(i, j, k, c)
    ensures nbrs == GridNeighbours(c)
  {
    forall cell | 0 <= cell < Total(c) ensures nbrs[cell] == StencilAt(cell, c) {
      IndexOfCoords(cell, c);
    }
  }
}
