// container/universe.{hpp,cpp}: the topology read at the start of a cycle
// (topologyOld), the one reactions are applied to (topologyNew), the reaction
// templates, and the cell-list search for reaction candidates.

module Universes {

  import opened Wrappers
  import opened Seqs
  import opened Molecules
  import opened StableSort
  import opened Renumbering
  import opened CellGrid
  import opened Topologies
  import opened Reactions
  import opened Candidates
  import opened Random
  import opened Periodic
  import opened CandidateSearch

  // ---------------------------------------------------------------------------
  // react, stated on values
  // ---------------------------------------------------------------------------

  /** The id std::max_element finds when molecules are compared by id. */
  function HighestId(ms: seq<Molecule>): (r: nat)
    requires |ms| > 0
    ensures forall k :: 0 <= k < |ms| ==> ms[k].id <= r
    ensures exists k :: 0 <= k < |ms| && ms[k].id == r
  {
    if |ms| == 1 then ms[0].id
    else
      var h := HighestId(ms[..|ms| - 1]);
      if ms[|ms| - 1].id > h then ms[|ms| - 1].id else h
  }

  function Ids(ms: seq<Molecule>): (r: seq<nat>)
    ensures |r| == |ms| && forall k :: 0 <= k < |ms| ==> r[k] == ms[k].id
  {
    seq(|ms|, k requires 0 <= k < |ms| => ms[k].id)
  }

  /** The molecule list after removeMolecule for each id in turn. */
  function WithoutIds(ms: seq<Molecule>, ids: seq<nat>): seq<Molecule>
  {
    if |ids| == 0 then ms
    else Filter(WithoutIds(ms, ids[..|ids| - 1]), LacksMoleculeId(ids[|ids| - 1]))
  }

  /** Removing a list of ids keeps exactly the molecules whose id is not listed. */
  lemma {:induction false} WithoutIdsMembers(ms: seq<Molecule>, ids: seq<nat>)
    ensures forall m :: m in WithoutIds(ms, ids) <==> m in ms && m.id !in ids
  {
    if |ids| > 0 {
      var init := ids[..|ids| - 1];
      WithoutIdsMembers(ms, init);
      RemovedMolecules(WithoutIds(ms, init), ids[|ids| - 1]);
      assert ids == init + [ids[|ids| - 1]];
    }
  }

  /** The products numbered highest + 1, highest + 2, ... in order. */
  function Numbered(ps: seq<Molecule>, highest: nat): (r: seq<Molecule>)
    ensures |r| == |ps|
    ensures forall q :: 0 <= q < |ps| ==> r[q] == SetID(ps[q], highest + q + 1)
  {
    seq(|ps|, q requires 0 <= q < |ps| => SetID(ps[q], highest + q + 1))
  }

  function NewRecords(highest: nat, n: nat): (r: seq<Record>)
    ensures |r| == n && forall q :: 0 <= q < n ==> r[q] == Record(highest + q + 1, 0)
  {
    seq(n, q requires 0 <= q < n => Record(highest + q + 1, 0))
  }

  predicate NonEmptyMolecules(ms: seq<Molecule>)
  {
    forall q :: 0 <= q < |ms| ==> |ms[q].atoms| > 0
  }

  function WholeAll(ps: seq<Molecule>, dims: Vec3): (r: seq<Molecule>)
    requires NonEmptyMolecules(ps) && PositiveBox(dims)
    ensures |r| == |ps| && forall q :: 0 <= q < |ps| ==> r[q] == Whole(ps[q], dims)
  {
    seq(|ps|, q requires 0 <= q < |ps| => Whole(ps[q], dims))
  }

  /** What react needs of a candidate: every transition row indexes existing atoms, and every product has atoms. */
  predicate CanReact(c: Reaction)
  {
    (forall t :: 0 <= t < |c.transitions| ==> SourceIn(c.reactants, c.transitions[t]) && TargetIn(c.products, c.transitions[t]))
    && NonEmptyMolecules(c.products)
  }

  /** The candidate after react: transitions applied, products made whole, then numbered from highest + 1. */
  function AfterReact(c: Reaction, dims: Vec3, highest: nat): (r: Reaction)
    requires CanReact(c) && PositiveBox(dims)
    ensures r == c.(products := r.products) && |r.products| == |c.products|
  {
    var ps := Transitioned(c.products, c.reactants, c.transitions);
    c.(products := Numbered(WholeAll(ps, dims), highest))
  }

  predicate UniqueIds(ms: seq<Molecule>)
  {
    forall a, b :: 0 <= a < b < |ms| ==> ms[a].id != ms[b].id
  }

  lemma {:induction false} FilterKeepsUniqueIds(ms: seq<Molecule>, p: Molecule -> bool)
    requires UniqueIds(ms)
    ensures UniqueIds(Filter(ms, p))
    decreases |ms|
  {
    if |ms| > 0 {
      var init := ms[..|ms| - 1];
      var x := ms[|ms| - 1];
      assert ms == init + [x];
      FilterKeepsUniqueIds(init, p);
      FilterSnoc(init, x, p);
      forall m | m in Filter(init, p) ensures m.id != x.id {
        FilterMember(init, p, m);
      }
    }
  }

  lemma {:induction false} WithoutIdsKeepsUniqueIds(ms: seq<Molecule>, ids: seq<nat>)
    requires UniqueIds(ms)
    ensures UniqueIds(WithoutIds(ms, ids))
  {
    if |ids| > 0 {
      WithoutIdsKeepsUniqueIds(ms, ids[..|ids| - 1]);
      FilterKeepsUniqueIds(WithoutIds(ms, ids[..|ids| - 1]), LacksMoleculeId(ids[|ids| - 1]));
    }
  }

  /**
   * The topology react leaves: no molecule with a reactant's id remains, every
   * product id lies above every id that was there, so ids that were unique
   * stay unique, and the size is the old size less the removed molecules plus
   * the products.
   */
  lemma ReactedTopology(ms: seq<Molecule>, reactants: seq<Molecule>, products: seq<Molecule>)
    requires |ms| > 0
    ensures var after := WithoutIds(ms, Ids(reactants)) + Numbered(products, HighestId(ms));
      (forall m :: m in after && m.id in Ids(reactants) ==> m.id > HighestId(ms))
      && (forall k :: 0 <= k < |after| - |products| ==> after[k] in ms && after[k].id <= HighestId(ms))
      && (forall k :: |after| - |products| <= k < |after| ==> after[k].id > HighestId(ms))
      && (UniqueIds(ms) ==> UniqueIds(after))
  {
    var h := HighestId(ms);
    var kept := WithoutIds(ms, Ids(reactants));
    var numbered := Numbered(products, h);
    var after := kept + numbered;
    WithoutIdsMembers(ms, Ids(reactants));
    forall k | 0 <= k < |kept| ensures kept[k] in ms && kept[k].id <= h {
      assert kept[k] in kept;
    }
    forall m | m in after && m.id in Ids(reactants) ensures m.id > h {
      if m in kept {
        assert false;
      }
    }
    if UniqueIds(ms) {
      WithoutIdsKeepsUniqueIds(ms, Ids(reactants));
      forall a, b | 0 <= a < b < |after| ensures after[a].id != after[b].id {
        if b >= |kept| && a < |kept| {
          assert after[a] == kept[a];
        }
      }
    }
  }

  // ---------------------------------------------------------------------------
  // The search over all cells, stated on values
  // ---------------------------------------------------------------------------

  /** Every molecule with a template reactant's name fits that reactant's atom ids. */
  predicate TemplatesFit(tpls: seq<Reaction>, ms: seq<Molecule>)
  {
    forall t, m, s :: 0 <= t < |tpls| && m in ms && 0 <= s < |tpls[t].reactants| && m.name == tpls[t].reactants[s].name ==>
      IdsIndexInto(tpls[t].reactants[s], m)
  }

  predicate SeedReady(cells: seq<seq<Molecule>>, nbrs: seq<seq<int>>, seed: int)
  {
    0 <= seed < |cells| && seed < |nbrs| && CellsIn(nbrs[seed], |cells|)
  }

  predicate AllFit(tpls: seq<Reaction>, cells: seq<seq<Molecule>>)
  {
    forall t :: 0 <= t < |tpls| ==> CellsFit(tpls[t], cells)
  }

  /** The candidates of one template for one seed cell: none unless it has 2 to 4 reactants. */
  function TemplateCandidates(ctx: SearchContext, check: SlotCheck): seq<Reaction>
    requires SeedReady(ctx.cells, ctx.neighbours, ctx.seed) && CellsFit(ctx.tpl, ctx.cells)
  {
    if 2 <= Slots(ctx) <= 4 then BuildAll(ctx, check, SearchResult(ctx, check)) else []
  }

  lemma TemplateCandidateKept(ctx: SearchContext, check: SlotCheck, j: nat) returns (b: seq<Entry>)
    requires SeedReady(ctx.cells, ctx.neighbours, ctx.seed) && CellsFit(ctx.tpl, ctx.cells)
    requires j < |TemplateCandidates(ctx, check)|
    ensures 2 <= Slots(ctx) <= 4 && Ready(ctx)
    ensures b in SearchResult(ctx, check) && TemplateCandidates(ctx, check)[j] == KeptCandidate(ctx, check, b)
  {
    b := SearchResult(ctx, check)[j];
  }

  /** The candidates of each template, in template order, for one seed cell. */
  function PerTemplate(tpls: seq<Reaction>, cells: seq<seq<Molecule>>, nbrs: seq<seq<int>>, seed: int,
                       dims: Vec3, check: SlotCheck): (r: seq<seq<Reaction>>)
    requires SeedReady(cells, nbrs, seed) && AllFit(tpls, cells)
    ensures |r| == |tpls|
  {
    seq(|tpls|, t requires 0 <= t < |tpls| => TemplateCandidates(SearchContext(tpls[t], cells, nbrs, seed, dims), check))
  }

  /** The candidates of one seed cell: those of every template, appended in template order. */
  function CellCandidates(tpls: seq<Reaction>, cells: seq<seq<Molecule>>, nbrs: seq<seq<int>>, seed: int,
                          dims: Vec3, check: SlotCheck): seq<Reaction>
    requires SeedReady(cells, nbrs, seed) && AllFit(tpls, cells)
  {
    Flatten(PerTemplate(tpls, cells, nbrs, seed, dims, check))
  }

  predicate AllSeedsReady(cells: seq<seq<Molecule>>, nbrs: seq<seq<int>>)
  {
    forall seed :: 0 <= seed < |cells| ==> SeedReady(cells, nbrs, seed)
  }

  /** The candidates of each cell, in cell-index order. */
  function PerCell(tpls: seq<Reaction>, cells: seq<seq<Molecule>>, nbrs: seq<seq<int>>,
                   dims: Vec3, check: SlotCheck): (r: seq<seq<Reaction>>)
    requires AllFit(tpls, cells) && AllSeedsReady(cells, nbrs)
    ensures |r| == |cells|
  {
    seq(|cells|, seed requires 0 <= seed < |cells| => CellCandidates(tpls, cells, nbrs, seed, dims, check))
  }

  /** The candidates of the whole grid: those of every cell, appended in cell-index order. */
  function AllCandidates(tpls: seq<Reaction>, cells: seq<seq<Molecule>>, nbrs: seq<seq<int>>,
                         dims: Vec3, check: SlotCheck): seq<Reaction>
    requires AllFit(tpls, cells) && AllSeedsReady(cells, nbrs)
  {
    Flatten(PerCell(tpls, cells, nbrs, dims, check))
  }

  /**
   * Candidate i of one seed cell's search is built from a kept binding b of
   * a template t with 2 to 4 reactants: slot 0 from the seed cell, the others
   * from the seed's neighbours, distinct ids in canonical order, and every
   * prefix passing its slot predicate.
   */
  lemma CellCandidateKept(tpls: seq<Reaction>, cells: seq<seq<Molecule>>, nbrs: seq<seq<int>>, seed: int,
                          dims: Vec3, check: SlotCheck, i: nat)
    returns (t: nat, b: seq<Entry>)
    requires SeedReady(cells, nbrs, seed) && AllFit(tpls, cells)
    requires i < |CellCandidates(tpls, cells, nbrs, seed, dims, check)|
    ensures t < |tpls| && 2 <= |tpls[t].reactants| <= 4
    ensures Ready(SearchContext(tpls[t], cells, nbrs, seed, dims))
    ensures b in SearchResult(SearchContext(tpls[t], cells, nbrs, seed, dims), check)
    ensures CellCandidates(tpls, cells, nbrs, seed, dims, check)[i] == KeptCandidate(SearchContext(tpls[t], cells, nbrs, seed, dims), check, b)
  {
    var xss := PerTemplate(tpls, cells, nbrs, seed, dims, check);
    var j;
    t, j := FlattenIndex(xss, i);
    b := TemplateCandidateKept(SearchContext(tpls[t], cells, nbrs, seed, dims), check, j);
  }

  /** The same for candidate i of the whole grid's search, with the seed cell it came from. */
  lemma AllCandidateKept(tpls: seq<Reaction>, cells: seq<seq<Molecule>>, nbrs: seq<seq<int>>,
                         dims: Vec3, check: SlotCheck, i: nat)
    returns (t: nat, seed: nat, b: seq<Entry>)
    requires AllFit(tpls, cells) && AllSeedsReady(cells, nbrs)
    requires i < |AllCandidates(tpls, cells, nbrs, dims, check)|
    ensures t < |tpls| && seed < |cells| && 2 <= |tpls[t].reactants| <= 4
    ensures Ready(SearchContext(tpls[t], cells, nbrs, seed, dims))
    ensures b in SearchResult(SearchContext(tpls[t], cells, nbrs, seed, dims), check)
    ensures AllCandidates(tpls, cells, nbrs, dims, check)[i] == KeptCandidate(SearchContext(tpls[t], cells, nbrs, seed, dims), check, b)
  {
    var xss := PerCell(tpls, cells, nbrs, dims, check);
    var j;
    seed, j := FlattenIndex(xss, i);
    t, b := CellCandidateKept(tpls, cells, nbrs, seed, dims, check, j);
  }

  /** c is a copy of tpl with its own reactants and its own latest criterion values. */
  predicate InstanceOf(c: Reaction, tpl: Reaction)
  {
    c == tpl.(reactants := c.reactants, criteria := c.criteria) && |c.criteria| == |tpl.criteria|
    && forall k :: 0 <= k < |tpl.criteria| ==> c.criteria[k] == tpl.criteria[k].(latest := c.criteria[k].latest)
  }

  /**
   * Every candidate of the grid can be reacted when its template can: it
   * keeps the template's products and transitions, each bound reactant keeps
   * its template's atom count, it has 2 to 4 reactants and differs from one
   * of the templates only in its reactants and its criteria's latest values,
   * and its first reactant comes from a molecule of the seed cell, so that
   * cell (and the list the cells were built from) is not empty.
   */
  lemma CandidateReactable(tpls: seq<Reaction>, ms: seq<Molecule>, cells: seq<seq<Molecule>>, nbrs: seq<seq<int>>,
                           dims: Vec3, check: SlotCheck, i: nat)
    requires AllFit(tpls, cells) && AllSeedsReady(cells, nbrs)
    requires forall c, m :: 0 <= c < |cells| && m in cells[c] ==> m in ms
    requires forall t :: 0 <= t < |tpls| ==> CanReact(tpls[t])
    requires i < |AllCandidates(tpls, cells, nbrs, dims, check)|
    ensures var cand := AllCandidates(tpls, cells, nbrs, dims, check)[i];
      CanReact(cand) && 2 <= |cand.reactants| <= 4 && |ms| > 0
      && exists t :: 0 <= t < |tpls| && InstanceOf(cand, tpls[t])
  {
    var t, seed, b := AllCandidateKept(tpls, cells, nbrs, dims, check, i);
    var m := SeedMolecule(SearchContext(tpls[t], cells, nbrs, seed, dims), check, b);
    assert m in ms;
    BuiltCanReact(tpls[t], b);
    assert InstanceOf(AllCandidates(tpls, cells, nbrs, dims, check)[i], tpls[t]);
  }

  /**
   * Every candidate of the grid holds in its criteria what the slot
   * predicate measured on its own bound reactants at the last slot, so its
   * current distance value is the first measured value (the template's
   * latest value only when nothing was measured).
   */
  lemma CandidateMeasured(tpls: seq<Reaction>, cells: seq<seq<Molecule>>, nbrs: seq<seq<int>>,
                          dims: Vec3, check: SlotCheck, i: nat) returns (t: nat)
    requires AllFit(tpls, cells) && AllSeedsReady(cells, nbrs)
    requires i < |AllCandidates(tpls, cells, nbrs, dims, check)|
    ensures var cand := AllCandidates(tpls, cells, nbrs, dims, check)[i];
      t < |tpls| && InstanceOf(cand, tpls[t]) && |cand.reactants| > 0
      && (forall k :: 0 <= k < |cand.criteria| ==>
            cand.criteria[k].latest == if k < |LastMeasured(check, dims, cand)| then LastMeasured(check, dims, cand)[k]
                                       else tpls[t].criteria[k].latest)
      && (|cand.criteria| > 0 ==>
            CurrentDistanceValue(cand) == if |LastMeasured(check, dims, cand)| > 0 then LastMeasured(check, dims, cand)[0]
                                          else tpls[t].criteria[0].latest)
  {
    var seed, b;
    t, seed, b := AllCandidateKept(tpls, cells, nbrs, dims, check, i);
    KeptMeasured(SearchContext(tpls[t], cells, nbrs, seed, dims), check, b);
  }


  /** A kept binding's first molecule is a molecule of the seed cell. */
  lemma SeedMolecule(ctx: SearchContext, check: SlotCheck, b: seq<Entry>) returns (m: Molecule)
    requires Ready(ctx) && b in SearchResult(ctx, check)
    ensures BindingFits(ctx.tpl, b) && |b| == Slots(ctx) && m == b[0].0 && m in ctx.cells[ctx.seed]
  {
    SearchSound(ctx, check);
    m := b[0].0;
  }

  /** Binding reactants keeps every transition's source atom in range and the products as they were. */
  lemma BuiltCanReact(tpl: Reaction, b: seq<Entry>)
    requires CanReact(tpl) && BindingFits(tpl, b)
    ensures CanReact(Build(tpl, b))
  {
    var cand := Build(tpl, b);
    forall k | 0 <= k < |cand.transitions| ensures SourceIn(cand.reactants, cand.transitions[k]) {
      var tt := cand.transitions[k];
      assert SourceIn(tpl.reactants, tt);
      if tt.oldMolix < |b| {
        assert cand.reactants[tt.oldMolix] == Bound(tpl.reactants[tt.oldMolix], b[tt.oldMolix].0);
      }
    }
  }

  /**
   * After a candidate whose reactants were all present reacts, no molecule
   * of the new list carries the id of any of its reactants, so a later
   * candidate sharing one of those reactants is no longer available.
   */
  lemma SharedReactantUnavailable(ms: seq<Molecule>, c: Reaction, dims: Vec3, other: Molecule)
    requires |ms| > 0 && CanReact(c) && PositiveBox(dims)
    requires forall s :: 0 <= s < |c.reactants| ==> exists k :: 0 <= k < |ms| && ms[k].id == c.reactants[s].id
    requires other.id in Ids(c.reactants)
    ensures var after := WithoutIds(ms, Ids(c.reactants)) + AfterReact(c, dims, HighestId(ms)).products;
      forall k :: 0 <= k < |after| ==> after[k].id != other.id
  {
    var h := HighestId(ms);
    var ps := Transitioned(c.products, c.reactants, c.transitions);
    var s :| 0 <= s < |c.reactants| && c.reactants[s].id == other.id;
    var k0 :| 0 <= k0 < |ms| && ms[k0].id == c.reactants[s].id;
    NoReactantIdAfter(ms, c.reactants, WholeAll(ps, dims), other.id);
  }

  /** An id of a reactant that was not above the highest id is carried by no molecule after the reaction. */
  lemma NoReactantIdAfter(ms: seq<Molecule>, reactants: seq<Molecule>, products: seq<Molecule>, id: nat)
    requires |ms| > 0 && id in Ids(reactants) && id <= HighestId(ms)
    ensures var after := WithoutIds(ms, Ids(reactants)) + Numbered(products, HighestId(ms));
      forall k :: 0 <= k < |after| ==> after[k].id != id
  {
    ReactedTopology(ms, reactants, products);
    var after := WithoutIds(ms, Ids(reactants)) + Numbered(products, HighestId(ms));
    forall k | 0 <= k < |after| ensures after[k].id != id {
      assert after[k] in after;
    }
  }

  /** The cells of a cell list built over a molecule list hold only molecules of that list. */
  lemma CellsFromMolecules(tpls: seq<Reaction>, ms: seq<Molecule>, cells: seq<seq<Molecule>>, dims: Vec3, c: CellCounts)
    requires TemplatesFit(tpls, ms)
    requires forall cell :: 0 <= cell < |cells| ==> cells[cell] == Filter(ms, InCellTest(dims, c, cell))
    ensures AllFit(tpls, cells)
  {
    forall cell, m | 0 <= cell < |cells| && m in cells[cell] ensures m in ms {
      FilterMember(ms, InCellTest(dims, c, cell), m);
    }
  }

  /** The neighbour list getCellList builds for every cell names cells of the grid. */
  lemma NeighboursInRange(nbrs: seq<seq<int>>, c: CellCounts)
    requires Positive(c) && |nbrs| == Total(c)
    requires forall i, j, k :: InGrid(i, j, k, c) ==> nbrs[Index(i, j, k, c)] == Stencil(i, j, k, c)
    ensures forall cell :: 0 <= cell < Total(c) ==> CellsIn(nbrs[cell], Total(c))
  {
    forall cell | 0 <= cell < Total(c) ensures CellsIn(nbrs[cell], Total(c)) {
      IndexOfCoords(cell, c);
      var (i, j, k) := CoordsOf(cell, c);
      StencilInRange(i, j, k, c);
      MembersCellsIn(Stencil(i, j, k, c), Total(c));
      assert nbrs[cell] == Stencil(i, j, k, c);
    }
  }

  lemma MembersCellsIn(s: seq<int>, n: int)
    requires forall v :: v in s ==> 0 <= v < n
    ensures CellsIn(s, n)
  {
    forall x | 0 <= x < |s| ensures 0 <= s[x] < n {
      assert s[x] in s;
    }
  }

  // ---------------------------------------------------------------------------
  // The 3-reactant loop as written
  // ---------------------------------------------------------------------------

  /**
   * The third-slot loop as written, `for(k = 0; k < size; j++)`: the loop
   * condition's counter never moves. The result is the final (k, j) when the loop
   * exits within fuel passes, None otherwise.
   */
  function ThirdSlotLoopAsWritten(k: nat, j: nat, size: nat, fuel: nat): Option<(nat, nat)>
    decreases fuel
  {
    if k >= size then Some((k, j))
    else if fuel == 0 then None
    else ThirdSlotLoopAsWritten(k, j + 1, size, fuel - 1)
  }

  /** With at least one third-slot option the loop as written never exits, however many passes it is given. */
  lemma {:induction false} ThirdSlotLoopNeverExits(j: nat, size: nat, fuel: nat)
    requires size > 0
    ensures ThirdSlotLoopAsWritten(0, j, size, fuel) == None
    decreases fuel
  {
    if fuel > 0 {
      ThirdSlotLoopNeverExits(j + 1, size, fuel - 1);
    }
  }

  /** The loop as intended, `for(k = 0; k < size; k++)`. */
  function ThirdSlotLoop(k: nat, j: nat, size: nat, fuel: nat): Option<(nat, nat)>
    decreases fuel
  {
    if k >= size then Some((k, j))
    else if fuel == 0 then None
    else ThirdSlotLoop(k + 1, j, size, fuel - 1)
  }

  /** The intended loop exits after size passes with k == size and j untouched. */
  lemma {:induction false} ThirdSlotLoopExits(k: nat, j: nat, size: nat, fuel: nat)
    requires k <= size && fuel >= size - k
    ensures ThirdSlotLoop(k, j, size, fuel) == Some((size, j))
    decreases size - k
  {
    if k < size {
      ThirdSlotLoopExits(k + 1, j, size, fuel - 1);
    }
  }

  // ---------------------------------------------------------------------------
  // The universe
  // ---------------------------------------------------------------------------

  class Universe {

    var topologyOld: Topology
    var topologyNew: Topology
    var reactionTemplates: seq<Reaction>
    /** CellList: the molecules of each cell of topologyOld. */
    var cellList: seq<seq<Molecule>>
    /** CellNeighbourIndices: the 27 neighbour cells of each cell. */
    var cellNeighbourIndices: seq<seq<int>>

    constructor (templates: seq<Reaction>)
      ensures fresh(topologyOld) && fresh(topologyNew) && topologyOld != topologyNew
      ensures topologyOld.data == [] && topologyNew.data == []
      ensures reactionTemplates == templates && cellList == [] && cellNeighbourIndices == []
    {
      topologyOld := new Topology();
      topologyNew := new Topology();
      reactionTemplates := templates;
      cellList := [];
      cellNeighbourIndices := [];
    }

    /**
     * update: both topologies are cleared, the old one is filled with the
     * state the parser reads for the cycle (given here as ms, dims and
     * counts), its reaction records are cleared, and the new topology
     * becomes a copy of it.
     */
    method Update(ms: seq<Molecule>, dims: Vec3, counts: CellCounts)
      requires topologyOld != topologyNew
      modifies topologyOld, topologyNew
      ensures topologyOld.data == ms && topologyOld.dimensions == dims && topologyOld.cellNumbers == counts
      ensures topologyOld.moleculeRecords == [] && topologyOld.atomRecords == []
      ensures topologyNew.data == ms && topologyNew.dimensions == dims && topologyNew.cellNumbers == counts
      ensures topologyNew.moleculeRecords == [] && topologyNew.atomRecords == []
    {
      topologyOld.Clear();
      topologyNew.Clear();
      topologyOld.data, topologyOld.dimensions, topologyOld.cellNumbers := ms, dims, counts;
      topologyOld.ClearReactionRecords();
      topologyNew.data, topologyNew.dimensions, topologyNew.cellNumbers := topologyOld.data, topologyOld.dimensions, topologyOld.cellNumbers;
      topologyNew.moleculeRecords, topologyNew.atomRecords := topologyOld.moleculeRecords, topologyOld.atomRecords;
    }

    /** write: the new topology is sorted (renumbered) before the parser writes it out, with the molecule and atom records the index file lists. */
    method Write()
      modifies topologyNew
      ensures topologyNew.data == SortOutcome(old(topologyNew.data))
      ensures SortedRecords(old(topologyNew.moleculeRecords), old(topologyNew.data), topologyNew.moleculeRecords, topologyNew.atomRecords)
      ensures topologyNew.dimensions == old(topologyNew.dimensions) && topologyNew.cellNumbers == old(topologyNew.cellNumbers)
    {
      topologyNew.Sort();
    }

    /** isAvailable: every reactant (id and name) is still in the new topology; the loop stops at the first missing one. */
    method IsAvailable(candidate: Reaction) returns (available: bool)
      ensures available <==> forall s :: 0 <= s < |candidate.reactants| ==> topologyNew.ContainsMolecule(candidate.reactants[s])
    {
      available := true;
      var s := 0;
      while s < |candidate.reactants|
        invariant s <= |candidate.reactants|
        invariant forall u :: 0 <= u < s ==> topologyNew.ContainsMolecule(candidate.reactants[u])
      {
        if !topologyNew.ContainsMolecule(candidate.reactants[s]) {
          available := false;
          break;
        }
        s := s + 1;
      }
    }

    /**
     * react: applies the transitions, makes each product whole in the new
     * topology's box, removes every reactant id from the new topology, then
     * appends the products with ids above the highest id there was, one
     * reaction record each. The updated candidate is returned.
     */
    method React(candidate: Reaction) returns (r: Reaction)
      requires CanReact(candidate) && |topologyNew.data| > 0 && PositiveBox(topologyNew.dimensions)
      modifies topologyNew
      ensures r == AfterReact(candidate, old(topologyNew.dimensions), HighestId(old(topologyNew.data)))
      ensures topologyNew.data == WithoutIds(old(topologyNew.data), Ids(candidate.reactants)) + r.products
      ensures topologyNew.moleculeRecords
                == old(topologyNew.moleculeRecords) + NewRecords(HighestId(old(topologyNew.data)), |r.products|)
      ensures topologyNew.atomRecords == old(topologyNew.atomRecords)
      ensures topologyNew.dimensions == old(topologyNew.dimensions) && topologyNew.cellNumbers == old(topologyNew.cellNumbers)
    {
      var top := topologyNew;
      var dims := top.dimensions;
      var c := ApplyTransitions(candidate);
      var products := MakeProductsWhole(c.products, dims);
      var highest := HighestIdOf(top.data);
      RemoveReactants(top, c.reactants);
      products := AddProducts(top, products, highest);
      r := c.(products := products);
    }

    /**
     * CellReactionCandidates: for each template with 2, 3 or 4 reactants, the
     * candidates the nested slot loops keep for the seed cell, appended in
     * template order.
     */
    method CellReactionCandidates(cellIndex: int, check: SlotCheck) returns (cands: seq<Reaction>)
      requires SeedReady(cellList, cellNeighbourIndices, cellIndex) && AllFit(reactionTemplates, cellList)
      ensures cands == CellCandidates(reactionTemplates, cellList, cellNeighbourIndices, cellIndex,
                                      topologyOld.dimensions, check)
    {
      cands := SeedCandidates(reactionTemplates, cellList, cellNeighbourIndices, cellIndex, topologyOld.dimensions, check);
    }

    /**
     * CellSearchReactionCandidates: builds the cell list of the old topology,
     * collects the candidates of every cell in cell-index order, and shuffles
     * them with an empty weight list, which leaves them in that order.
     */
    method CellSearchReactionCandidates(check: SlotCheck) returns (cands: seq<Reaction>)
      requires Positive(topologyOld.cellNumbers) && PositiveBox(topologyOld.dimensions)
      requires NonEmptyMolecules(topologyOld.data)
      requires TemplatesFit(reactionTemplates, topologyOld.data)
      modifies this
      ensures topologyOld == old(topologyOld) && topologyNew == old(topologyNew) && reactionTemplates == old(reactionTemplates)
      ensures |cellList| == Total(topologyOld.cellNumbers) && |cellNeighbourIndices| == |cellList|
      ensures forall cell :: 0 <= cell < |cellList| ==>
                cellList[cell] == Filter(topologyOld.data, InCellTest(topologyOld.dimensions, topologyOld.cellNumbers, cell))
      ensures forall i, j, k :: InGrid(i, j, k, topologyOld.cellNumbers) ==>
                cellNeighbourIndices[Index(i, j, k, topologyOld.cellNumbers)] == Stencil(i, j, k, topologyOld.cellNumbers)
      ensures AllSeedsReady(cellList, cellNeighbourIndices) && AllFit(reactionTemplates, cellList)
      ensures cands == AllCandidates(reactionTemplates, cellList, cellNeighbourIndices, topologyOld.dimensions, check)
    {
      var x, y := topologyOld.GetCellList();
      cellList := x;
      cellNeighbourIndices := y;
      var tpls, dims := reactionTemplates, topologyOld.dimensions;
      NeighboursInRange(y, topologyOld.cellNumbers);
      CellsFromMolecules(tpls, topologyOld.data, x, dims, topologyOld.cellNumbers);

      var all := GridCandidates(tpls, x, y, dims, check);
      var items := new Reaction[|all|](i requires 0 <= i < |all| => all[i]);
      var reactionRates := new real[0];
      assert items[..] == all;
      WeightedShuffle(items, reactionRates, []);
      cands := items[..];
    }
  }

  /** The template loop of CellReactionCandidates for one seed cell. */
  method SeedCandidates(tpls: seq<Reaction>, cells: seq<seq<Molecule>>, nbrs: seq<seq<int>>, seed: int,
                        dims: Vec3, check: SlotCheck) returns (cands: seq<Reaction>)
    requires SeedReady(cells, nbrs, seed) && AllFit(tpls, cells)
    ensures cands == CellCandidates(tpls, cells, nbrs, seed, dims, check)
  {
    ghost var xss := PerTemplate(tpls, cells, nbrs, seed, dims, check);
    cands := [];
    var t := 0;
    while t < |tpls|
      invariant t <= |tpls|
      invariant cands == Flatten(xss[..t])
    {
      FlattenSnoc(xss, t);
      var ctx := SearchContext(tpls[t], cells, nbrs, seed, dims);
      if 2 <= |tpls[t].reactants| <= 4 {
        var found := BindSlot(ctx, check, []);
        cands := cands + found;
      }
      t := t + 1;
    }
    assert xss[..t] == xss;
  }

  /** The cell loop of CellSearchReactionCandidates: every seed cell in cell-index order. */
  method GridCandidates(tpls: seq<Reaction>, cells: seq<seq<Molecule>>, nbrs: seq<seq<int>>,
                        dims: Vec3, check: SlotCheck) returns (all: seq<Reaction>)
    requires AllFit(tpls, cells) && AllSeedsReady(cells, nbrs)
    ensures all == AllCandidates(tpls, cells, nbrs, dims, check)
  {
    ghost var xss := PerCell(tpls, cells, nbrs, dims, check);
    all := [];
    var cellIndex := 0;
    while cellIndex < |cells|
      invariant cellIndex <= |cells|
      invariant all == Flatten(xss[..cellIndex])
    {
      FlattenSnoc(xss, cellIndex);
      var found := SeedCandidates(tpls, cells, nbrs, cellIndex, dims, check);
      all := all + found;
      cellIndex := cellIndex + 1;
    }
    assert xss[..cellIndex] == xss;
  }

  /** The reactant loop of react: removeMolecule for each reactant id in turn. */
  method RemoveReactants(top: Topology, reactants: seq<Molecule>)
    modifies top
    ensures top.data == WithoutIds(old(top.data), Ids(reactants))
    ensures top.moleculeRecords == old(top.moleculeRecords) && top.atomRecords == old(top.atomRecords)
    ensures top.dimensions == old(top.dimensions) && top.cellNumbers == old(top.cellNumbers)
  {
    var s := 0;
    while s < |reactants|
      invariant s <= |reactants|
      invariant top.data == WithoutIds(old(top.data), Ids(reactants)[..s])
      invariant top.moleculeRecords == old(top.moleculeRecords) && top.atomRecords == old(top.atomRecords)
      invariant top.dimensions == old(top.dimensions) && top.cellNumbers == old(top.cellNumbers)
    {
      assert Ids(reactants)[..s + 1][..s] == Ids(reactants)[..s];
      top.RemoveMolecule(reactants[s].id);
      s := s + 1;
    }
    assert Ids(reactants)[..s] == Ids(reactants);
  }

  /** The product loop of react: each product gets ++highestMolID, is appended and gets a reaction record. */
  method AddProducts(top: Topology, ps: seq<Molecule>, highest: nat) returns (products: seq<Molecule>)
    modifies top
    ensures products == Numbered(ps, highest)
    ensures top.data == old(top.data) + products
    ensures top.moleculeRecords == old(top.moleculeRecords) + NewRecords(highest, |ps|)
    ensures top.atomRecords == old(top.atomRecords)
    ensures top.dimensions == old(top.dimensions) && top.cellNumbers == old(top.cellNumbers)
  {
    products := ps;
    var q := 0;
    var next := highest;
    while q < |products|
      invariant q <= |products| == |ps| && next == highest + q
      invariant forall p :: 0 <= p < q ==> products[p] == SetID(ps[p], highest + p + 1)
      invariant forall p :: q <= p < |products| ==> products[p] == ps[p]
      invariant top.data == old(top.data) + products[..q]
      invariant top.moleculeRecords == old(top.moleculeRecords) + NewRecords(highest, q)
      invariant top.atomRecords == old(top.atomRecords)
      invariant top.dimensions == old(top.dimensions) && top.cellNumbers == old(top.cellNumbers)
    {
      next := next + 1;
      products := products[q := SetID(products[q], next)];
      var _ := top.AddMolecule(products[q]);
      top.AddReactionRecord(next);
      assert NewRecords(highest, q + 1) == NewRecords(highest, q) + [Record(next, 0)];
      assert products[..q + 1] == products[..q] + [products[q]];
      q := q + 1;
    }
    assert products[..q] == products;
  }

  /** The product loop of react that makes each product whole. */
  method MakeProductsWhole(ps: seq<Molecule>, dims: Vec3) returns (r: seq<Molecule>)
    requires NonEmptyMolecules(ps) && PositiveBox(dims)
    ensures r == WholeAll(ps, dims)
  {
    r := ps;
    var q := 0;
    while q < |r|
      invariant q <= |r| == |ps|
      invariant forall p :: 0 <= p < q ==> r[p] == Whole(ps[p], dims)
      invariant forall p :: q <= p < |r| ==> r[p] == ps[p]
    {
      var whole := MakeMoleculeWhole(r[q], dims);
      r := r[q := whole];
      q := q + 1;
    }
  }

  /** The max_element scan of react over the molecule ids. */
  method HighestIdOf(ms: seq<Molecule>) returns (highest: nat)
    requires |ms| > 0
    ensures highest == HighestId(ms)
  {
    highest := ms[0].id;
    var i := 1;
    while i < |ms|
      invariant 1 <= i <= |ms| && highest == HighestId(ms[..i])
    {
      assert ms[..i + 1][..i] == ms[..i];
      if ms[i].id > highest {
        highest := ms[i].id;
      }
      i := i + 1;
    }
    assert ms[..i] == ms;
  }
}
