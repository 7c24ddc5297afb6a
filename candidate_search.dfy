// The cell-list search for reaction candidates. For one seed cell and one
// template with 2, 3 or 4 reactants, slot 0 is filled from the molecules of
// the seed cell and every later slot from the molecules of the seed cell's 27
// neighbour cells, each carrying the name of the template's reactant for that
// slot. An option is skipped when its id repeats an earlier slot's id, or when
// it shares an earlier slot's name with a smaller id (and, with 4 reactants, a
// smaller cell index). After each binding the per-slot predicate decides
// whether the search goes deeper; only fully bound candidates are kept.
//
// The per-slot predicate is not part of the visible source; it is a parameter
// here (a function of the box, the candidate's bound reactants and the slot)
// that returns its verdict and the values it stored in the candidate's
// criteria, as the one-argument valid does.

module CandidateSearch {

  import opened Seqs
  import opened Molecules
  import opened StableSort
  import opened Renumbering
  import opened CellGrid
  import opened Reactions
  import opened Candidates
  import opened Random

  /** A molecule found by the search together with the cell it was found in. */
  type Entry = (Molecule, int)

  /** What the per-slot predicate returns: its verdict, and the values it stored as its criteria's latest values, first criterion first. */
  datatype SlotVerdict = SlotVerdict(ok: bool, measured: seq<real>)

  /** The per-slot validity predicate: box, bound reactants, slot. */
  type SlotCheck = (Vec3, seq<Molecule>, nat) -> SlotVerdict

  /** The criteria once the predicate stored its values: only the latest values change, criterion k taking measured[k] where there is one. */
  function Remeasured(cs: seq<Criterion>, measured: seq<real>): (r: seq<Criterion>)
    ensures |r| == |cs|
    ensures forall k :: 0 <= k < |cs| ==>
              r[k] == cs[k].(latest := r[k].latest) && r[k].latest == if k < |measured| then measured[k] else cs[k].latest
  {
    seq(|cs|, k requires 0 <= k < |cs| => cs[k].(latest := if k < |measured| then measured[k] else cs[k].latest))
  }

  // ---------------------------------------------------------------------------
  // Cell queries
  // ---------------------------------------------------------------------------

  /** Cell: the molecules of one cell carrying the name, in bucket order. */
  method Cell(cells: seq<seq<Molecule>>, cellIndex: int, molname: string) returns (found: seq<Molecule>)
    requires 0 <= cellIndex < |cells|
    ensures found == Filter(cells[cellIndex], KeyIs(NameOf, molname))
    ensures forall m :: m in found <==> m in cells[cellIndex] && m.name == molname
  {
    var bucket := cells[cellIndex];
    found := [];
    var j := 0;
    while j < |bucket|
      invariant j <= |bucket|
      invariant found == Filter(bucket[..j], KeyIs(NameOf, molname))
    {
      assert bucket[..j + 1] == bucket[..j] + [bucket[j]];
      FilterSnoc(bucket[..j], bucket[j], KeyIs(NameOf, molname));
      NameKey(bucket[j], molname);
      if bucket[j].name == molname {
        found := found + [bucket[j]];
      }
      j := j + 1;
    }
    assert bucket[..j] == bucket;
    forall m ensures m in found <==> m in bucket && m.name == molname {
      FilterMember(bucket, KeyIs(NameOf, molname), m);
      NameKey(m, molname);
    }
  }

  function Tagged(ms: seq<Molecule>, cell: int): (r: seq<Entry>)
    ensures |r| == |ms| && forall k :: 0 <= k < |ms| ==> r[k] == (ms[k], cell)
  {
    seq(|ms|, k requires 0 <= k < |ms| => (ms[k], cell))
  }

  predicate CellsIn(nbrs: seq<int>, n: int)
  {
    forall i :: 0 <= i < |nbrs| ==> 0 <= nbrs[i] < n
  }

  /** The matches of every listed neighbour cell, in list order, each tagged with its cell. */
  function Gathered(cells: seq<seq<Molecule>>, nbrs: seq<int>, name: string): seq<Entry>
    requires CellsIn(nbrs, |cells|)
  {
    if |nbrs| == 0 then []
    else
      var c := nbrs[|nbrs| - 1];
      Gathered(cells, nbrs[..|nbrs| - 1], name) + Tagged(Filter(cells[c], KeyIs(NameOf, name)), c)
  }

  /** Each gathered entry is a molecule of that name from the cell it is tagged with, which is one of the listed cells. */
  lemma {:induction false} GatheredEntries(cells: seq<seq<Molecule>>, nbrs: seq<int>, name: string)
    requires CellsIn(nbrs, |cells|)
    ensures forall e :: e in Gathered(cells, nbrs, name) ==>
              e.0.name == name && e.1 in nbrs && 0 <= e.1 < |cells| && e.0 in cells[e.1]
  {
    if |nbrs| > 0 {
      var init := nbrs[..|nbrs| - 1];
      var c := nbrs[|nbrs| - 1];
      GatheredEntries(cells, init, name);
      forall e | e in Tagged(Filter(cells[c], KeyIs(NameOf, name)), c)
        ensures e.0.name == name && e.0 in cells[c]
      {
        FilterMember(cells[c], KeyIs(NameOf, name), e.0);
        NameKey(e.0, name);
      }
      assert forall v :: v in init ==> v in nbrs;
    }
  }

  /** Gathering over two lists is gathering over each in turn, so a cell listed twice contributes its molecules twice. */
  lemma {:induction false} GatheredAppend(cells: seq<seq<Molecule>>, a: seq<int>, b: seq<int>, name: string)
    requires CellsIn(a, |cells|) && CellsIn(b, |cells|)
    ensures CellsIn(a + b, |cells|)
    ensures Gathered(cells, a + b, name) == Gathered(cells, a, name) + Gathered(cells, b, name)
  {
    if |b| > 0 {
      var b' := b[..|b| - 1];
      assert (a + b)[..|a + b| - 1] == a + b';
      GatheredAppend(cells, a, b', name);
    } else {
      assert a + b == a;
    }
  }

  /** One more molecule of a neighbour cell: a match is appended to both lists, anything else leaves them as they are. */
  lemma GatherStep(mr: seq<Molecule>, mc: seq<int>, before: seq<Entry>, bucket: seq<Molecule>, j: nat, index: int, name: string)
    requires |mr| == |mc| && j < |bucket|
    requires Zip(mr, mc) == before + Tagged(Filter(bucket[..j], KeyIs(NameOf, name)), index)
    ensures bucket[j].name == name ==>
              Zip(mr + [bucket[j]], mc + [index]) == before + Tagged(Filter(bucket[..j + 1], KeyIs(NameOf, name)), index)
    ensures bucket[j].name != name ==>
              Zip(mr, mc) == before + Tagged(Filter(bucket[..j + 1], KeyIs(NameOf, name)), index)
  {
    var f := Filter(bucket[..j], KeyIs(NameOf, name));
    assert bucket[..j + 1] == bucket[..j] + [bucket[j]];
    FilterSnoc(bucket[..j], bucket[j], KeyIs(NameOf, name));
    NameKey(bucket[j], name);
    if bucket[j].name == name {
      assert Tagged(f + [bucket[j]], index) == Tagged(f, index) + [(bucket[j], index)];
      assert Zip(mr + [bucket[j]], mc + [index]) == Zip(mr, mc) + [(bucket[j], index)];
    }
  }

  /** CellNeighbours: two lists of equal length, entry k being a matching molecule of a neighbour cell and that cell. */
  method CellNeighbours(cells: seq<seq<Molecule>>, neighbours: seq<seq<int>>, cellIndex: int, molname: string)
    returns (molReferences: seq<Molecule>, molCells: seq<int>)
    requires 0 <= cellIndex < |neighbours| && CellsIn(neighbours[cellIndex], |cells|)
    ensures |molReferences| == |molCells|
    ensures Zip(molReferences, molCells) == Gathered(cells, neighbours[cellIndex], molname)
  {
    var nbrs := neighbours[cellIndex];
    molReferences, molCells := [], [];
    var i := 0;
    while i < |nbrs|
      invariant i <= |nbrs| && |molReferences| == |molCells|
      invariant Zip(molReferences, molCells) == Gathered(cells, nbrs[..i], molname)
    {
      var index := nbrs[i];
      var bucket := cells[index];
      ghost var before := Zip(molReferences, molCells);
      var j := 0;
      while j < |bucket|
        invariant j <= |bucket| && |molReferences| == |molCells|
        invariant Zip(molReferences, molCells) == before + Tagged(Filter(bucket[..j], KeyIs(NameOf, molname)), index)
      {
        GatherStep(molReferences, molCells, before, bucket, j, index, molname);
        if bucket[j].name == molname {
          molReferences := molReferences + [bucket[j]];
          molCells := molCells + [index];
        }
        j := j + 1;
      }
      assert bucket[..j] == bucket;
      assert nbrs[..i + 1][..i] == nbrs[..i];
      i := i + 1;
    }
    assert nbrs[..i] == nbrs;
  }

  // ---------------------------------------------------------------------------
  // Building candidates
  // ---------------------------------------------------------------------------

  /** Every bound molecule fits the template reactant of its slot (its atom ids index into it). */
  predicate BindingFits(tpl: Reaction, b: seq<Entry>)
  {
    |b| <= |tpl.reactants| && forall s :: 0 <= s < |b| ==> IdsIndexInto(tpl.reactants[s], b[s].0)
  }

  /** A fresh copy of the template with the first |b| reactants bound to the molecules of b. */
  function Build(tpl: Reaction, b: seq<Entry>): (r: Reaction)
    requires BindingFits(tpl, b)
    ensures r == tpl.(reactants := r.reactants) && |r.reactants| == |tpl.reactants|
    ensures forall s :: 0 <= s < |b| ==> r.reactants[s] == Bound(tpl.reactants[s], b[s].0)
    ensures forall s :: |b| <= s < |tpl.reactants| ==> r.reactants[s] == tpl.reactants[s]
  {
    if |b| == 0 then tpl
    else
      var prev := Build(tpl, b[..|b| - 1]);
      var s := |b| - 1;
      prev.(reactants := prev.reactants[s := Bound(prev.reactants[s], b[s].0)])
  }

  /** push_back(template) followed by updateReactant for each bound slot. */
  method BuildCandidate(tpl: Reaction, b: seq<Entry>) returns (cand: Reaction)
    requires BindingFits(tpl, b)
    ensures cand == Build(tpl, b)
  {
    cand := tpl;
    var s := 0;
    while s < |b|
      invariant s <= |b|
      invariant cand == Build(tpl, b[..s])
    {
      assert b[..s + 1][..s] == b[..s];
      cand := UpdateReactant(cand, s, b[s].0);
      s := s + 1;
    }
    assert b[..s] == b;
  }

  // ---------------------------------------------------------------------------
  // The search for one seed cell and one template
  // ---------------------------------------------------------------------------

  datatype SearchContext = SearchContext(tpl: Reaction, cells: seq<seq<Molecule>>, neighbours: seq<seq<int>>, seed: int, dims: Vec3)

  function Slots(ctx: SearchContext): nat { |ctx.tpl.reactants| }

  /** Every molecule of every cell fits each template reactant carrying its name. */
  predicate CellsFit(tpl: Reaction, cells: seq<seq<Molecule>>)
  {
    forall c, m, s :: 0 <= c < |cells| && m in cells[c] && 0 <= s < |tpl.reactants| && m.name == tpl.reactants[s].name ==>
      IdsIndexInto(tpl.reactants[s], m)
  }

  predicate Ready(ctx: SearchContext)
  {
    2 <= Slots(ctx) <= 4
    && 0 <= ctx.seed < |ctx.cells| && ctx.seed < |ctx.neighbours|
    && CellsIn(ctx.neighbours[ctx.seed], |ctx.cells|)
    && CellsFit(ctx.tpl, ctx.cells)
  }

  /** The options for slot s: the seed cell's molecules for slot 0, the neighbour cells' for later slots. */
  function Options(ctx: SearchContext, s: nat): (r: seq<Entry>)
    requires Ready(ctx) && s < Slots(ctx)
    ensures forall o :: o in r ==> IdsIndexInto(ctx.tpl.reactants[s], o.0)
  {
    var name := ctx.tpl.reactants[s].name;
    if s == 0 then
      var found := Filter(ctx.cells[ctx.seed], KeyIs(NameOf, name));
      FilterNamed(ctx.cells[ctx.seed], name);
      Tagged(found, ctx.seed)
    else
      GatheredEntries(ctx.cells, ctx.neighbours[ctx.seed], name);
      Gathered(ctx.cells, ctx.neighbours[ctx.seed], name)
  }

  lemma FilterNamed(ms: seq<Molecule>, name: string)
    ensures forall m :: m in Filter(ms, KeyIs(NameOf, name)) <==> m in ms && m.name == name
  {
    forall m ensures m in Filter(ms, KeyIs(NameOf, name)) <==> m in ms && m.name == name {
      FilterMember(ms, KeyIs(NameOf, name), m);
      NameKey(m, name);
    }
  }

  /** Every option for slot s carries the slot's name, lies in the cell it is tagged with, and that cell is the seed (slot 0) or one of its neighbours. */
  lemma OptionsAre(ctx: SearchContext, s: nat)
    requires Ready(ctx) && s < Slots(ctx)
    ensures forall o :: o in Options(ctx, s) ==>
              o.0.name == ctx.tpl.reactants[s].name && 0 <= o.1 < |ctx.cells| && o.0 in ctx.cells[o.1]
              && (if s == 0 then o.1 == ctx.seed else o.1 in ctx.neighbours[ctx.seed])
  {
    var name := ctx.tpl.reactants[s].name;
    if s == 0 {
      FilterNamed(ctx.cells[ctx.seed], name);
    } else {
      GatheredEntries(ctx.cells, ctx.neighbours[ctx.seed], name);
    }
  }

  /** The skip rules for an option of slot |bound| against every earlier slot. */
  predicate Admissible(ctx: SearchContext, bound: seq<Entry>, o: Entry)
  {
    forall t :: 0 <= t < |bound| ==>
      bound[t].0.id != o.0.id
      && !(bound[t].0.name == o.0.name && bound[t].0.id > o.0.id)
      && (Slots(ctx) == 4 ==> !(bound[t].0.name == o.0.name && bound[t].1 > o.1))
  }

  predicate Checked(ctx: SearchContext, check: SlotCheck, b: seq<Entry>)
    requires BindingFits(ctx.tpl, b) && |b| > 0
  {
    check(ctx.dims, Build(ctx.tpl, b).reactants, |b| - 1).ok
  }

  /** The complete bindings the search keeps when slot |bound| is tried with each of opts in turn. */
  function Expand(ctx: SearchContext, check: SlotCheck, bound: seq<Entry>, opts: seq<Entry>): (r: seq<seq<Entry>>)
    requires Ready(ctx) && |bound| < Slots(ctx) && BindingFits(ctx.tpl, bound)
    requires forall o :: o in opts ==> IdsIndexInto(ctx.tpl.reactants[|bound|], o.0)
    ensures forall b :: b in r ==> |b| == Slots(ctx) && BindingFits(ctx.tpl, b)
    decreases Slots(ctx) - |bound|, |opts|
  {
    if |opts| == 0 then []
    else Expand(ctx, check, bound, opts[..|opts| - 1]) + Try(ctx, check, bound, opts[|opts| - 1])
  }

  /** The complete bindings the search keeps after putting o in slot |bound|. */
  function Try(ctx: SearchContext, check: SlotCheck, bound: seq<Entry>, o: Entry): (r: seq<seq<Entry>>)
    requires Ready(ctx) && |bound| < Slots(ctx) && BindingFits(ctx.tpl, bound)
    requires IdsIndexInto(ctx.tpl.reactants[|bound|], o.0)
    ensures forall b :: b in r ==> |b| == Slots(ctx) && BindingFits(ctx.tpl, b)
    decreases Slots(ctx) - |bound|, 0
  {
    var b := bound + [o];
    if !Admissible(ctx, bound, o) then []
    else if !Checked(ctx, check, b) then []
    else if |b| == Slots(ctx) then [b]
    else Expand(ctx, check, b, Options(ctx, |b|))
  }

  /** The candidates the search returns for one template and one seed cell. */
  function SearchResult(ctx: SearchContext, check: SlotCheck): (r: seq<seq<Entry>>)
    requires Ready(ctx)
  {
    Expand(ctx, check, [], Options(ctx, 0))
  }

  /**
   * The candidate a complete binding leaves in the list: a fresh copy of the
   * template with every slot bound, holding in its criteria what the last
   * slot's predicate measured.
   */
  function KeptCandidate(ctx: SearchContext, check: SlotCheck, b: seq<Entry>): Reaction
    requires BindingFits(ctx.tpl, b) && |b| > 0
  {
    var c := Build(ctx.tpl, b);
    c.(criteria := Remeasured(c.criteria, check(ctx.dims, c.reactants, |b| - 1).measured))
  }

  function BuildAll(ctx: SearchContext, check: SlotCheck, bs: seq<seq<Entry>>): (r: seq<Reaction>)
    requires forall b :: b in bs ==> BindingFits(ctx.tpl, b) && |b| > 0
    ensures |r| == |bs|
  {
    seq(|bs|, i requires 0 <= i < |bs| => KeptCandidate(ctx, check, bs[i]))
  }

  lemma BuildAllAppend(ctx: SearchContext, check: SlotCheck, a: seq<seq<Entry>>, b: seq<seq<Entry>>)
    requires forall x :: x in a ==> BindingFits(ctx.tpl, x) && |x| > 0
    requires forall x :: x in b ==> BindingFits(ctx.tpl, x) && |x| > 0
    ensures BuildAll(ctx, check, a + b) == BuildAll(ctx, check, a) + BuildAll(ctx, check, b)
  {
    var whole, left, right := BuildAll(ctx, check, a + b), BuildAll(ctx, check, a), BuildAll(ctx, check, b);
    forall i | 0 <= i < |a| + |b|
      ensures whole[i] == (left + right)[i]
    {
      BuildAllAt(ctx, check, a + b, i);
      if i < |a| {
        assert (a + b)[i] == a[i];
        BuildAllAt(ctx, check, a, i);
        assert (left + right)[i] == left[i];
      } else {
        assert (a + b)[i] == b[i - |a|];
        BuildAllAt(ctx, check, b, i - |a|);
        assert (left + right)[i] == right[i - |a|];
      }
    }
    assert whole == left + right;
  }

  lemma BuildAllAt(ctx: SearchContext, check: SlotCheck, bs: seq<seq<Entry>>, i: nat)
    requires forall b :: b in bs ==> BindingFits(ctx.tpl, b) && |b| > 0
    requires i < |bs|
    ensures BuildAll(ctx, check, bs)[i] == KeptCandidate(ctx, check, bs[i])
  {
  }

  /** The values the predicate measured at the last slot of a complete binding. */
  function LastMeasured(check: SlotCheck, dims: Vec3, c: Reaction): seq<real>
    requires |c.reactants| > 0
  {
    check(dims, c.reactants, |c.reactants| - 1).measured
  }

  /**
   * A kept candidate has one bound reactant per slot, and differs from its
   * template only in its reactants and in the latest values of its criteria,
   * which are what the last slot's predicate measured on those reactants.
   */
  lemma KeptMeasured(ctx: SearchContext, check: SlotCheck, b: seq<Entry>)
    requires BindingFits(ctx.tpl, b) && |b| == Slots(ctx) > 0
    ensures var c := KeptCandidate(ctx, check, b);
      |c.reactants| == |b| && c == ctx.tpl.(reactants := c.reactants, criteria := c.criteria)
      && |c.criteria| == |ctx.tpl.criteria|
      && forall k :: 0 <= k < |c.criteria| ==>
           c.criteria[k] == ctx.tpl.criteria[k].(latest := c.criteria[k].latest)
           && c.criteria[k].latest == if k < |LastMeasured(check, ctx.dims, c)| then LastMeasured(check, ctx.dims, c)[k]
                                      else ctx.tpl.criteria[k].latest
  {
    var built := Build(ctx.tpl, b);
    assert built.criteria == ctx.tpl.criteria;
    var c := KeptCandidate(ctx, check, b);
    assert c.reactants == built.reactants;
    assert c.criteria == Remeasured(ctx.tpl.criteria, LastMeasured(check, ctx.dims, c));
  }

  /** The skip rules, one earlier slot at a time. */
  method Admits(ctx: SearchContext, bound: seq<Entry>, o: Entry) returns (ok: bool)
    ensures ok == Admissible(ctx, bound, o)
  {
    var t := 0;
    while t < |bound|
      invariant t <= |bound|
      invariant forall u :: 0 <= u < t ==>
                  bound[u].0.id != o.0.id
                  && !(bound[u].0.name == o.0.name && bound[u].0.id > o.0.id)
                  && (Slots(ctx) == 4 ==> !(bound[u].0.name == o.0.name && bound[u].1 > o.1))
    {
      var earlier := bound[t];
      if earlier.0.id == o.0.id { return false; }
      if earlier.0.name == o.0.name && earlier.0.id > o.0.id { return false; }
      if Slots(ctx) == 4 && earlier.0.name == o.0.name && earlier.1 > o.1 { return false; }
      t := t + 1;
    }
    return true;
  }

  /**
   * The loop over the options of slot |bound|: each option that passes the
   * skip rules is bound into a fresh candidate; a candidate failing the
   * slot's predicate is dropped, one passing it is kept when every slot is
   * bound and extended through the next slot otherwise.
   */
  method BindSlot(ctx: SearchContext, check: SlotCheck, bound: seq<Entry>) returns (cands: seq<Reaction>)
    requires Ready(ctx) && |bound| < Slots(ctx) && BindingFits(ctx.tpl, bound)
    ensures cands == BuildAll(ctx, check, Expand(ctx, check, bound, Options(ctx, |bound|)))
    decreases Slots(ctx) - |bound|, 1
  {
    var opts := SlotOptions(ctx, |bound|);
    cands := [];
    var i := 0;
    while i < |opts|
      invariant i <= |opts|
      invariant cands == BuildAll(ctx, check, Expand(ctx, check, bound, opts[..i]))
    {
      var o := opts[i];
      ExpandStep(ctx, check, bound, opts, i);
      var added := TryOption(ctx, check, bound, o);
      cands := cands + added;
      i := i + 1;
    }
    assert opts[..i] == opts;
  }

  /** One more option through the loop adds that option's candidates at the end. */
  lemma ExpandStep(ctx: SearchContext, check: SlotCheck, bound: seq<Entry>, opts: seq<Entry>, i: nat)
    requires Ready(ctx) && |bound| < Slots(ctx) && BindingFits(ctx.tpl, bound)
    requires forall o :: o in opts ==> IdsIndexInto(ctx.tpl.reactants[|bound|], o.0)
    requires i < |opts|
    ensures IdsIndexInto(ctx.tpl.reactants[|bound|], opts[i].0)
    ensures forall o :: o in opts[..i + 1] ==> IdsIndexInto(ctx.tpl.reactants[|bound|], o.0)
    ensures BuildAll(ctx, check, Expand(ctx, check, bound, opts[..i + 1]))
         == BuildAll(ctx, check, Expand(ctx, check, bound, opts[..i])) + BuildAll(ctx, check, Try(ctx, check, bound, opts[i]))
  {
    assert opts[i] in opts;
    forall o | o in opts[..i + 1] ensures IdsIndexInto(ctx.tpl.reactants[|bound|], o.0) {
      assert o in opts;
    }
    assert opts[..i + 1][..i] == opts[..i];
    BuildAllAppend(ctx, check, Expand(ctx, check, bound, opts[..i]), Try(ctx, check, bound, opts[i]));
  }

  /** The options of slot s: Cell for slot 0, CellNeighbours for the others. */
  method SlotOptions(ctx: SearchContext, s: nat) returns (opts: seq<Entry>)
    requires Ready(ctx) && s < Slots(ctx)
    ensures opts == Options(ctx, s)
  {
    var name := ctx.tpl.reactants[s].name;
    if s == 0 {
      var ms := Cell(ctx.cells, ctx.seed, name);
      opts := Tagged(ms, ctx.seed);
    } else {
      var ms, cs := CellNeighbours(ctx.cells, ctx.neighbours, ctx.seed, name);
      opts := Zip(ms, cs);
    }
  }

  /** One pass of the option loop: the candidates kept after putting o in slot |bound|. */
  method TryOption(ctx: SearchContext, check: SlotCheck, bound: seq<Entry>, o: Entry) returns (added: seq<Reaction>)
    requires Ready(ctx) && |bound| < Slots(ctx) && BindingFits(ctx.tpl, bound)
    requires IdsIndexInto(ctx.tpl.reactants[|bound|], o.0)
    ensures added == BuildAll(ctx, check, Try(ctx, check, bound, o))
    decreases Slots(ctx) - |bound|, 0
  {
    added := [];
    var admitted := Admits(ctx, bound, o);
    var b := bound + [o];
    if !admitted {
      TryDropped(ctx, check, bound, o);
      return;
    }
    var cand := BuildCandidate(ctx.tpl, b);
    var verdict := check(ctx.dims, cand.reactants, |bound|);
    if !verdict.ok {
      TryDropped(ctx, check, bound, o);
    } else if |b| == Slots(ctx) {
      TryKept(ctx, check, bound, o);
      cand := cand.(criteria := Remeasured(cand.criteria, verdict.measured));
      added := [cand];
    } else {
      TryDeeper(ctx, check, bound, o);
      added := BindSlot(ctx, check, b);
    }
  }

  /** An option that is skipped or fails the predicate leaves no candidate. */
  lemma TryDropped(ctx: SearchContext, check: SlotCheck, bound: seq<Entry>, o: Entry)
    requires Ready(ctx) && |bound| < Slots(ctx) && BindingFits(ctx.tpl, bound)
    requires IdsIndexInto(ctx.tpl.reactants[|bound|], o.0)
    requires !Admissible(ctx, bound, o) || !check(ctx.dims, Build(ctx.tpl, bound + [o]).reactants, |bound|).ok
    ensures BuildAll(ctx, check, Try(ctx, check, bound, o)) == []
  {
    assert Try(ctx, check, bound, o) == [];
  }

  /** An option that completes the binding and passes the predicate leaves one candidate: the template bound to the binding, remeasured by the last slot's predicate. */
  lemma TryKept(ctx: SearchContext, check: SlotCheck, bound: seq<Entry>, o: Entry)
    requires Ready(ctx) && |bound| + 1 == Slots(ctx) && BindingFits(ctx.tpl, bound)
    requires IdsIndexInto(ctx.tpl.reactants[|bound|], o.0)
    requires Admissible(ctx, bound, o) && check(ctx.dims, Build(ctx.tpl, bound + [o]).reactants, |bound|).ok
    ensures var c := Build(ctx.tpl, bound + [o]);
            BuildAll(ctx, check, Try(ctx, check, bound, o)) == [c.(criteria := Remeasured(c.criteria, check(ctx.dims, c.reactants, |bound|).measured))]
  {
    var b := bound + [o];
    assert Try(ctx, check, bound, o) == [b];
    BuildAllAt(ctx, check, [b], 0);
  }

  /** An option that passes the predicate short of a complete binding leaves what the next slot's search leaves. */
  lemma TryDeeper(ctx: SearchContext, check: SlotCheck, bound: seq<Entry>, o: Entry)
    requires Ready(ctx) && |bound| + 1 < Slots(ctx) && BindingFits(ctx.tpl, bound)
    requires IdsIndexInto(ctx.tpl.reactants[|bound|], o.0)
    requires Admissible(ctx, bound, o) && check(ctx.dims, Build(ctx.tpl, bound + [o]).reactants, |bound|).ok
    ensures BindingFits(ctx.tpl, bound + [o])
    ensures Try(ctx, check, bound, o) == Expand(ctx, check, bound + [o], Options(ctx, |bound| + 1))
  {
  }

  // ---------------------------------------------------------------------------
  // What the kept candidates satisfy
  // ---------------------------------------------------------------------------

  /**
   * A kept binding: every slot is bound, slot 0 from the seed cell and the
   * others from the seed's neighbour cells, each with its slot's name; ids
   * are pairwise distinct; a same-name pair has the smaller id first (and,
   * with 4 reactants, the cell index not larger); every prefix passed the
   * per-slot predicate.
   */
  ghost predicate Kept(ctx: SearchContext, check: SlotCheck, b: seq<Entry>)
    requires Ready(ctx)
  {
    |b| == Slots(ctx) && BindingFits(ctx.tpl, b)
    && b[0].1 == ctx.seed
    && (forall s :: 0 <= s < |b| ==> b[s].0.name == ctx.tpl.reactants[s].name && 0 <= b[s].1 < |ctx.cells| && b[s].0 in ctx.cells[b[s].1])
    && (forall s :: 1 <= s < |b| ==> b[s].1 in ctx.neighbours[ctx.seed])
    && (forall t, u :: 0 <= t < u < |b| ==> b[t].0.id != b[u].0.id)
    && (forall t, u :: 0 <= t < u < |b| && b[t].0.name == b[u].0.name ==> b[t].0.id < b[u].0.id)
    && (Slots(ctx) == 4 ==> forall t, u :: 0 <= t < u < |b| && b[t].0.name == b[u].0.name ==> b[t].1 <= b[u].1)
    && (forall s :: 1 <= s <= |b| ==> Checked(ctx, check, b[..s]))
  }

  /** What the bindings under a prefix share: the prefix, and the rules for every later slot. */
  ghost predicate Extends(ctx: SearchContext, check: SlotCheck, bound: seq<Entry>, b: seq<Entry>)
    requires Ready(ctx)
  {
    |bound| < |b| == Slots(ctx) && BindingFits(ctx.tpl, b) && b[..|bound|] == bound
    && (forall s :: |bound| <= s < |b| ==>
          b[s].0.name == ctx.tpl.reactants[s].name && 0 <= b[s].1 < |ctx.cells| && b[s].0 in ctx.cells[b[s].1]
          && (if s == 0 then b[s].1 == ctx.seed else b[s].1 in ctx.neighbours[ctx.seed])
          && Admissible(ctx, b[..s], b[s]))
    && (forall s :: |bound| < s <= |b| ==> Checked(ctx, check, b[..s]))
  }

  lemma {:induction false} ExpandSound(ctx: SearchContext, check: SlotCheck, bound: seq<Entry>, opts: seq<Entry>)
    requires Ready(ctx) && |bound| < Slots(ctx) && BindingFits(ctx.tpl, bound)
    requires forall o :: o in opts ==> IdsIndexInto(ctx.tpl.reactants[|bound|], o.0)
    requires forall o :: o in opts ==> o in Options(ctx, |bound|)
    ensures forall b :: b in Expand(ctx, check, bound, opts) ==> Extends(ctx, check, bound, b)
    decreases Slots(ctx) - |bound|, |opts|
  {
    if |opts| > 0 {
      var init := opts[..|opts| - 1];
      assert forall o :: o in init ==> o in opts;
      ExpandSound(ctx, check, bound, init);
      TrySound(ctx, check, bound, opts[|opts| - 1]);
    }
  }

  lemma {:induction false} TrySound(ctx: SearchContext, check: SlotCheck, bound: seq<Entry>, o: Entry)
    requires Ready(ctx) && |bound| < Slots(ctx) && BindingFits(ctx.tpl, bound)
    requires IdsIndexInto(ctx.tpl.reactants[|bound|], o.0)
    requires o in Options(ctx, |bound|)
    ensures forall b :: b in Try(ctx, check, bound, o) ==> Extends(ctx, check, bound, b)
    decreases Slots(ctx) - |bound|, 0
  {
    var b := bound + [o];
    if Admissible(ctx, bound, o) && Checked(ctx, check, b) {
      if |b| == Slots(ctx) {
        ExtendsStep(ctx, check, bound, o, b);
      } else {
        ExpandSound(ctx, check, b, Options(ctx, |b|));
        forall x: seq<Entry> | x in Try(ctx, check, bound, o) ensures Extends(ctx, check, bound, x) {
          ExtendsStep(ctx, check, bound, o, x);
        }
      }
    }
  }

  /** A binding kept under bound + [o] (or bound + [o] itself when complete) is kept under bound. */
  lemma ExtendsStep(ctx: SearchContext, check: SlotCheck, bound: seq<Entry>, o: Entry, x: seq<Entry>)
    requires Ready(ctx) && |bound| < Slots(ctx) && BindingFits(ctx.tpl, bound + [o])
    requires o in Options(ctx, |bound|) && Admissible(ctx, bound, o) && Checked(ctx, check, bound + [o])
    requires (x == bound + [o] && |x| == Slots(ctx)) || (|bound| + 1 < Slots(ctx) && Extends(ctx, check, bound + [o], x))
    ensures Extends(ctx, check, bound, x)
  {
    var b := bound + [o];
    OptionsAre(ctx, |bound|);
    assert x[..|b|] == b;
    assert x[..|bound|] == bound by { assert x[..|bound|] == x[..|b|][..|bound|]; }
    assert x[|bound|] == o;
    forall s | |bound| <= s < |x|
      ensures x[s].0.name == ctx.tpl.reactants[s].name && 0 <= x[s].1 < |ctx.cells| && x[s].0 in ctx.cells[x[s].1]
      ensures if s == 0 then x[s].1 == ctx.seed else x[s].1 in ctx.neighbours[ctx.seed]
      ensures Admissible(ctx, x[..s], x[s])
    {
      if s == |bound| {
        assert x[..s] == bound;
      }
    }
    forall s | |bound| < s <= |x| ensures Checked(ctx, check, x[..s]) {
      if s == |b| {
        assert x[..s] == b;
      }
    }
  }

  /** A binding kept under the empty prefix satisfies the kept-binding rules. */
  lemma ExtendsKept(ctx: SearchContext, check: SlotCheck, b: seq<Entry>)
    requires Ready(ctx) && Extends(ctx, check, [], b)
    ensures Kept(ctx, check, b)
  {
    forall t, u | 0 <= t < u < |b|
      ensures b[t].0.id != b[u].0.id
      ensures b[t].0.name == b[u].0.name ==> b[t].0.id < b[u].0.id
      ensures Slots(ctx) == 4 && b[t].0.name == b[u].0.name ==> b[t].1 <= b[u].1
    {
      assert Admissible(ctx, b[..u], b[u]);
      assert b[..u][t] == b[t];
    }
  }

  /** Every binding the search keeps satisfies the kept-binding rules. */
  lemma SearchSound(ctx: SearchContext, check: SlotCheck)
    requires Ready(ctx)
    ensures forall b :: b in SearchResult(ctx, check) ==> Kept(ctx, check, b)
  {
    OptionsAre(ctx, 0);
    assert forall o :: o in Options(ctx, 0) ==> IdsIndexInto(ctx.tpl.reactants[0], o.0);
    ExpandSound(ctx, check, [], Options(ctx, 0));
    forall b: seq<Entry> | b in SearchResult(ctx, check) ensures Kept(ctx, check, b) {
      ExtendsKept(ctx, check, b);
    }
  }

  /** A named molecule of a listed neighbour cell is gathered, tagged with that cell. */
  lemma {:induction false} GatheredComplete(cells: seq<seq<Molecule>>, nbrs: seq<int>, name: string, e: Entry)
    requires CellsIn(nbrs, |cells|) && e.1 in nbrs && 0 <= e.1 < |cells|
    requires e.0 in cells[e.1] && e.0.name == name
    ensures e in Gathered(cells, nbrs, name)
  {
    var init := nbrs[..|nbrs| - 1];
    var c := nbrs[|nbrs| - 1];
    if e.1 == c {
      var found := Filter(cells[c], KeyIs(NameOf, name));
      FilterNamed(cells[c], name);
      var k :| 0 <= k < |found| && found[k] == e.0;
      assert Tagged(found, c)[k] == e;
    } else {
      assert e.1 in init by {
        var i :| 0 <= i < |nbrs| && nbrs[i] == e.1;
        assert init[i] == e.1;
      }
      GatheredComplete(cells, init, name, e);
    }
  }

  /** Conversely to OptionsAre: a molecule with the slot's name, in the seed cell (slot 0) or a neighbour cell (later slots), is an option. */
  lemma OptionsComplete(ctx: SearchContext, s: nat, e: Entry)
    requires Ready(ctx) && s < Slots(ctx)
    requires e.0.name == ctx.tpl.reactants[s].name && 0 <= e.1 < |ctx.cells| && e.0 in ctx.cells[e.1]
    requires if s == 0 then e.1 == ctx.seed else e.1 in ctx.neighbours[ctx.seed]
    ensures e in Options(ctx, s)
  {
    var name := ctx.tpl.reactants[s].name;
    if s == 0 {
      var found := Filter(ctx.cells[ctx.seed], KeyIs(NameOf, name));
      FilterNamed(ctx.cells[ctx.seed], name);
      var k :| 0 <= k < |found| && found[k] == e.0;
      assert Tagged(found, ctx.seed)[k] == e;
    } else {
      GatheredComplete(ctx.cells, ctx.neighbours[ctx.seed], name, e);
    }
  }

  /** A binding kept under bound whose next molecule is among opts is found when the slot is tried with opts. */
  lemma {:induction false} ExpandComplete(ctx: SearchContext, check: SlotCheck, bound: seq<Entry>, opts: seq<Entry>, b: seq<Entry>)
    requires Ready(ctx) && |bound| < Slots(ctx) && BindingFits(ctx.tpl, bound)
    requires forall o :: o in opts ==> IdsIndexInto(ctx.tpl.reactants[|bound|], o.0)
    requires Extends(ctx, check, bound, b) && b[|bound|] in opts
    ensures b in Expand(ctx, check, bound, opts)
    decreases Slots(ctx) - |bound|, |opts|
  {
    var init := opts[..|opts| - 1];
    if b[|bound|] == opts[|opts| - 1] {
      TryComplete(ctx, check, bound, b);
    } else {
      assert b[|bound|] in init by {
        var i :| 0 <= i < |opts| && opts[i] == b[|bound|];
        assert init[i] == opts[i];
      }
      assert forall o :: o in init ==> o in opts;
      ExpandComplete(ctx, check, bound, init, b);
    }
  }

  /** A binding kept under bound is found when its own molecule is tried in slot |bound|. */
  lemma {:induction false} TryComplete(ctx: SearchContext, check: SlotCheck, bound: seq<Entry>, b: seq<Entry>)
    requires Ready(ctx) && |bound| < Slots(ctx) && BindingFits(ctx.tpl, bound)
    requires Extends(ctx, check, bound, b)
    ensures IdsIndexInto(ctx.tpl.reactants[|bound|], b[|bound|].0)
    ensures b in Try(ctx, check, bound, b[|bound|])
    decreases Slots(ctx) - |bound|, 0
  {
    var o := b[|bound|];
    ExtendsHead(ctx, check, bound, b);
    if |bound| + 1 < Slots(ctx) {
      var bb := bound + [o];
      ExtendsDeeper(ctx, check, bound, b);
      ExpandComplete(ctx, check, bb, Options(ctx, |bb|), b);
    } else {
      assert b == bound + [o];
    }
  }

  /** The molecule a binding kept under bound puts in slot |bound| passes that slot's skip rules and predicate. */
  lemma ExtendsHead(ctx: SearchContext, check: SlotCheck, bound: seq<Entry>, b: seq<Entry>)
    requires Ready(ctx) && Extends(ctx, check, bound, b)
    ensures BindingFits(ctx.tpl, bound + [b[|bound|]])
    ensures Admissible(ctx, bound, b[|bound|]) && Checked(ctx, check, bound + [b[|bound|]])
    ensures |bound| + 1 == Slots(ctx) ==> b == bound + [b[|bound|]]
  {
    var bb := bound + [b[|bound|]];
    assert b[..|bb|] == bb;
    assert Admissible(ctx, b[..|bound|], b[|bound|]);
  }

  /** A binding kept under bound, one slot short of complete or more, is kept under its one-longer prefix. */
  lemma ExtendsDeeper(ctx: SearchContext, check: SlotCheck, bound: seq<Entry>, b: seq<Entry>)
    requires Ready(ctx) && Extends(ctx, check, bound, b) && |bound| + 1 < |b|
    ensures bound + [b[|bound|]] == b[..|bound| + 1]
    ensures Extends(ctx, check, bound + [b[|bound|]], b)
    ensures b[|bound| + 1] in Options(ctx, |bound| + 1)
  {
    var bb := b[..|bound| + 1];
    assert bb == bound + [b[|bound|]];
    assert b[..|bb|] == bb;
    OptionsComplete(ctx, |bb|, b[|bb|]);
  }

  /** A binding satisfying the kept-binding rules is kept under the empty prefix. */
  lemma KeptExtends(ctx: SearchContext, check: SlotCheck, b: seq<Entry>)
    requires Ready(ctx) && Kept(ctx, check, b)
    ensures Extends(ctx, check, [], b)
  {
    forall s | 0 <= s < |b| ensures Admissible(ctx, b[..s], b[s]) {
      forall t | 0 <= t < s
        ensures b[..s][t].0.id != b[s].0.id
        ensures !(b[..s][t].0.name == b[s].0.name && b[..s][t].0.id > b[s].0.id)
        ensures Slots(ctx) == 4 ==> !(b[..s][t].0.name == b[s].0.name && b[..s][t].1 > b[s].1)
      {
        assert b[..s][t] == b[t];
      }
    }
    assert b[..0] == [];
  }

  /** Conversely to SearchSound: every binding satisfying the kept-binding rules is among those the search keeps. */
  lemma SearchComplete(ctx: SearchContext, check: SlotCheck, b: seq<Entry>)
    requires Ready(ctx) && Kept(ctx, check, b)
    ensures b in SearchResult(ctx, check)
  {
    KeptExtends(ctx, check, b);
    OptionsComplete(ctx, 0, b[0]);
    OptionsAre(ctx, 0);
    ExpandComplete(ctx, check, [], Options(ctx, 0), b);
  }

  /** The search keeps exactly the bindings satisfying the kept-binding rules. */
  lemma SearchExact(ctx: SearchContext, check: SlotCheck, b: seq<Entry>)
    requires Ready(ctx)
    ensures b in SearchResult(ctx, check) <==> Kept(ctx, check, b)
  {
    SearchSound(ctx, check);
    if Kept(ctx, check, b) {
      SearchComplete(ctx, check, b);
    }
  }
}
