// container/topology.{hpp,cpp}: the molecule list of one system state, its
// box, its cell counts and the reaction records that link molecule and atom
// ids across a renumbering.
module Topologies {

  import opened Wrappers
  import opened Seqs
  import opened Molecules
  import opened StableSort
  import opened CellGrid
  import opened Renumbering

  function HasMoleculeId(id: nat): Molecule -> bool { (m: Molecule) => m.id == id }
  function LacksMoleculeId(id: nat): Molecule -> bool { (m: Molecule) => m.id != id }

  /** removeMolecule(mol) and containsMolecule(mol) match on id and name together. */
  function SameIdAndName(mol: Molecule): Molecule -> bool
  {
    (m: Molecule) => m.id == mol.id && m.name == mol.name
  }

  /** Removing by id drops exactly the molecules with that id and keeps the others. */
  lemma RemovedMolecules(ms: seq<Molecule>, id: nat)
    ensures forall m :: m in Filter(ms, LacksMoleculeId(id)) <==> m in ms && m.id != id
    ensures |Filter(ms, LacksMoleculeId(id))| + Count(ms, HasMoleculeId(id)) == |ms|
  {
    forall m ensures m in Filter(ms, LacksMoleculeId(id)) <==> m in ms && m.id != id {
      FilterMember(ms, LacksMoleculeId(id), m);
    }
    FilterSizes(ms, LacksMoleculeId(id));
    CountMoleculeNegation(ms, id);
  }

  lemma {:induction false} CountMoleculeNegation(s: seq<Molecule>, id: nat)
    ensures Count(s, Not(LacksMoleculeId(id))) == Count(s, HasMoleculeId(id))
    decreases |s|
  {
    if |s| > 0 { CountMoleculeNegation(s[..|s| - 1], id); }
  }

  /** Removing by (id, name) drops exactly the molecules equal to mol in both and keeps the others. */
  lemma RemovedMatching(ms: seq<Molecule>, mol: Molecule)
    ensures forall m :: m in Filter(ms, Not(SameIdAndName(mol))) <==> m in ms && (m.id != mol.id || m.name != mol.name)
  {
    forall m ensures m in Filter(ms, Not(SameIdAndName(mol))) <==> m in ms && (m.id != mol.id || m.name != mol.name) {
      FilterMember(ms, Not(SameIdAndName(mol)), m);
    }
  }

  /** The number of atom ids listed is the number of atoms. */
  lemma {:induction false} AtomIdsCount(ms: seq<Molecule>)
    ensures |AtomIds(ms)| == AtomCount(ms)
    decreases |ms|
  {
    if |ms| > 0 {
      var init := ms[..|ms| - 1];
      AtomIdsCount(init);
      assert ms == init + [ms[|ms| - 1]];
      AtomCountAppend(init, [ms[|ms| - 1]]);
    }
  }

  /** The loop state of getMoleculetypes after t molecules: the names met so far, once each, by first occurrence. */
  ghost predicate TypesUpTo(data: seq<Molecule>, types: seq<string>, t: nat)
  {
    && (forall a, b :: 0 <= a < b < |types| ==> types[a] != types[b])
    && (forall n :: n in types <==> exists p :: 0 <= p < t && p < |data| && data[p].name == n)
    && (forall a :: 0 <= a < |types| ==> FirstWhere(data, KeyIs(NameOf, types[a])) < t)
    && (forall a, b :: 0 <= a < b < |types| ==>
          FirstWhere(data, KeyIs(NameOf, types[a])) < FirstWhere(data, KeyIs(NameOf, types[b])))
  }

  /** One molecule more: its name is added when it is new. */
  lemma TypesStep(data: seq<Molecule>, types: seq<string>, t: nat)
    requires t < |data| && TypesUpTo(data, types, t)
    ensures TypesUpTo(data, if data[t].name in types then types else types + [data[t].name], t + 1)
  {
    if data[t].name in types {
      TypesStepKnown(data, types, t);
    } else {
      TypesStepNew(data, types, t);
    }
  }

  lemma TypesStepNew(data: seq<Molecule>, types: seq<string>, t: nat)
    requires t < |data| && TypesUpTo(data, types, t) && data[t].name !in types
    ensures TypesUpTo(data, types + [data[t].name], t + 1)
  {
    var n := data[t].name;
    NameKey(data[t], n);
    var k := FirstWhere(data, KeyIs(NameOf, n));
    if k < t {
      NameKey(data[k], n);
    }
    assert k == t;
    var types' := types + [n];
    forall m
      ensures m in types' <==> exists p :: 0 <= p < t + 1 && p < |data| && data[p].name == m
    {
      if m == n { assert data[t].name == m; }
    }
  }

  lemma TypesStepKnown(data: seq<Molecule>, types: seq<string>, t: nat)
    requires t < |data| && TypesUpTo(data, types, t) && data[t].name in types
    ensures TypesUpTo(data, types, t + 1)
  {
    forall m
      ensures m in types <==> exists p :: 0 <= p < t + 1 && p < |data| && data[p].name == m
    {
      if exists p :: 0 <= p < t + 1 && p < |data| && data[p].name == m {
        var p :| 0 <= p < t + 1 && p < |data| && data[p].name == m;
        if p == t { assert m == data[t].name; }
      }
    }
  }

  /** The molecule and atom records sort leaves when it starts from the records recs0 and the molecules ms. */
  predicate SortedRecords(recs0: seq<Record>, ms: seq<Molecule>, moleculeRecords: seq<Record>, atomRecords: seq<Record>)
  {
    moleculeRecords == RecordsUpTo(recs0, SortedByName(ms), |ms|)
    && atomRecords == AtomRecordsUpTo(recs0, SortedByName(ms), |ms|)
  }

  class Topology {

    var data: seq<Molecule>
    var dimensions: Vec3
    /** reactedMoleculeRecords: (old molecule id, new molecule id). */
    var moleculeRecords: seq<Record>
    /** reactedAtomRecords: (old atom id, new atom id). */
    var atomRecords: seq<Record>
    var cellNumbers: CellCounts

    constructor ()
      ensures data == [] && dimensions == ZeroVec && moleculeRecords == [] && atomRecords == []
      ensures cellNumbers == CellCounts(0, 0, 0)
    {
      data := [];
      dimensions := ZeroVec;
      moleculeRecords := [];
      atomRecords := [];
      cellNumbers := CellCounts(0, 0, 0);
    }

    method SetDimensions(d: Vec3)
      modifies this
      ensures dimensions == d
      ensures data == old(data) && moleculeRecords == old(moleculeRecords) && atomRecords == old(atomRecords)
      ensures cellNumbers == old(cellNumbers)
    {
      dimensions := d;
    }

    /** The cell counts are taken as given; the rule that derives them from the box is not modelled. */
    method SetCellNumbers(c: CellCounts)
      modifies this
      ensures cellNumbers == c
      ensures data == old(data) && moleculeRecords == old(moleculeRecords) && atomRecords == old(atomRecords)
      ensures dimensions == old(dimensions)
    {
      cellNumbers := c;
    }

    // ------------------------------------------------------ reaction records

    /** addReactionRecord(molid): append (molid, 0). */
    method AddReactionRecord(molid: nat)
      modifies this
      ensures moleculeRecords == old(moleculeRecords) + [Record(molid, 0)]
      ensures data == old(data) && atomRecords == old(atomRecords)
      ensures dimensions == old(dimensions) && cellNumbers == old(cellNumbers)
    {
      moleculeRecords := moleculeRecords + [Record(molid, 0)];
    }

    /** getReactionRecordMolecule: the new id of the first record for oldmolid; no record is fatal. */
    function GetReactionRecordMolecule(oldmolid: nat): (r: Result<nat>)
      reads this
      ensures r.Ok? <==> exists k :: 0 <= k < |moleculeRecords| && moleculeRecords[k].first == oldmolid
      ensures r.Ok? ==> exists k :: 0 <= k < |moleculeRecords| && moleculeRecords[k] == Record(oldmolid, r.value)
                          && forall j :: 0 <= j < k ==> moleculeRecords[j].first != oldmolid
    {
      var k := FindRecord(moleculeRecords, oldmolid);
      if k < |moleculeRecords| then Ok(moleculeRecords[k].second)
      else Err("couldn't find record for reacted molecule in topology")
    }

    method ClearReactionRecords()
      modifies this
      ensures moleculeRecords == [] && atomRecords == []
      ensures data == old(data) && dimensions == old(dimensions) && cellNumbers == old(cellNumbers)
    {
      moleculeRecords := [];
      atomRecords := [];
    }

    // ------------------------------------------------------------ molecules

    /** addMolecule(m): append; the returned position refers to the new molecule. */
    method AddMolecule(m: Molecule) returns (index: nat)
      modifies this
      ensures data == old(data) + [m] && index == |old(data)|
      ensures moleculeRecords == old(moleculeRecords) && atomRecords == old(atomRecords)
      ensures dimensions == old(dimensions) && cellNumbers == old(cellNumbers)
    {
      index := |data|;
      data := data + [m];
    }

    /** addMolecule(id, name): append a default molecule, then set its id and name. */
    method AddNewMolecule(id: nat, name: string) returns (index: nat)
      modifies this
      ensures data == old(data) + [Molecule(id, name, [])] && index == |old(data)|
      ensures moleculeRecords == old(moleculeRecords) && atomRecords == old(atomRecords)
      ensures dimensions == old(dimensions) && cellNumbers == old(cellNumbers)
    {
      index := |data|;
      data := data + [SetName(SetID(EmptyMolecule, id), name)];
    }

    /** A write through a reference returned by addMolecule or getAddMolecule. */
    method SetMoleculeAt(index: nat, m: Molecule)
      requires index < |data|
      modifies this
      ensures data == old(data)[index := m]
      ensures moleculeRecords == old(moleculeRecords) && atomRecords == old(atomRecords)
      ensures dimensions == old(dimensions) && cellNumbers == old(cellNumbers)
    {
      data := data[index := m];
    }

    function ContainsMoleculeId(molid: nat): (r: bool)
      reads this
      ensures r <==> exists k :: 0 <= k < |data| && data[k].id == molid
    {
      FirstWhere(data, HasMoleculeId(molid)) < |data|
    }

    function ContainsMolecule(mol: Molecule): (r: bool)
      reads this
      ensures r <==> exists k :: 0 <= k < |data| && data[k].id == mol.id && data[k].name == mol.name
    {
      FirstWhere(data, SameIdAndName(mol)) < |data|
    }

    /** getMolecule(id): the first molecule with that id; none is fatal. */
    function GetMolecule(molid: nat): (r: Result<Molecule>)
      reads this
      ensures r.Ok? <==> ContainsMoleculeId(molid)
      ensures r.Ok? ==> exists k :: 0 <= k < |data| && data[k] == r.value && r.value.id == molid
                          && forall j :: 0 <= j < k ==> data[j].id != molid
    {
      var k := FirstWhere(data, HasMoleculeId(molid));
      if k < |data| then Ok(data[k]) else Err("couldn't find molecule in topology")
    }

    /** getMolecules(name): every molecule with that name, in list order. */
    method GetMolecules(name: string) returns (found: seq<Molecule>)
      ensures found == Filter(data, KeyIs(NameOf, name))
      ensures forall m :: m in found <==> m in data && m.name == name
    {
      found := [];
      var i := 0;
      while i < |data|
        invariant i <= |data|
        invariant found == Filter(data[..i], KeyIs(NameOf, name))
      {
        assert data[..i + 1] == data[..i] + [data[i]];
        FilterSnoc(data[..i], data[i], KeyIs(NameOf, name));
        NameKey(data[i], name);
        if data[i].name == name {
          found := found + [data[i]];
        }
        i := i + 1;
      }
      assert data[..i] == data;
      forall m ensures m in found <==> m in data && m.name == name {
        FilterMember(data, KeyIs(NameOf, name), m);
        NameKey(m, name);
      }
    }

    /** getAddMolecule: the first molecule with the id, appending one with that id and name if there is none. */
    method GetAddMolecule(molid: nat, molname: string) returns (index: nat)
      modifies this
      ensures old(ContainsMoleculeId(molid)) ==> data == old(data) && index == FirstWhere(data, HasMoleculeId(molid))
      ensures !old(ContainsMoleculeId(molid)) ==> data == old(data) + [Molecule(molid, molname, [])] && index == |old(data)|
      ensures index < |data| && data[index].id == molid
      ensures forall j :: 0 <= j < index ==> data[j].id != molid
      ensures moleculeRecords == old(moleculeRecords) && atomRecords == old(atomRecords)
      ensures dimensions == old(dimensions) && cellNumbers == old(cellNumbers)
    {
      var k := FirstWhere(data, HasMoleculeId(molid));
      if k == |data| {
        index := AddNewMolecule(molid, molname);
      } else {
        index := k;
      }
    }

    /** removeMolecule(id): remove_if/erase, compacting in one pass. */
    method RemoveMolecule(molid: nat)
      modifies this
      ensures data == Filter(old(data), LacksMoleculeId(molid))
      ensures moleculeRecords == old(moleculeRecords) && atomRecords == old(atomRecords)
      ensures dimensions == old(dimensions) && cellNumbers == old(cellNumbers)
    {
      var kept: seq<Molecule> := [];
      var i := 0;
      while i < |data|
        invariant i <= |data|
        invariant kept == Filter(data[..i], LacksMoleculeId(molid))
      {
        assert data[..i + 1][..i] == data[..i];
        if data[i].id != molid {
          kept := kept + [data[i]];
        }
        i := i + 1;
      }
      assert data[..i] == data;
      data := kept;
    }

    /** removeMolecule(mol): remove every molecule with mol's id and name. */
    method RemoveMatchingMolecule(mol: Molecule)
      modifies this
      ensures data == Filter(old(data), Not(SameIdAndName(mol)))
      ensures moleculeRecords == old(moleculeRecords) && atomRecords == old(atomRecords)
      ensures dimensions == old(dimensions) && cellNumbers == old(cellNumbers)
    {
      var kept: seq<Molecule> := [];
      var i := 0;
      while i < |data|
        invariant i <= |data|
        invariant kept == Filter(data[..i], Not(SameIdAndName(mol)))
      {
        assert data[..i + 1][..i] == data[..i];
        if !(data[i].id == mol.id && data[i].name == mol.name) {
          kept := kept + [data[i]];
        }
        i := i + 1;
      }
      assert data[..i] == data;
      data := kept;
    }

    /** getNAtoms: the atoms of all molecules together. */
    function NAtoms(): (r: nat)
      reads this
      ensures r == |AtomIds(data)|
      ensures |data| == 0 ==> r == 0
    {
      AtomIdsCount(data);
      AtomCount(data)
    }

    predicate Empty()
      reads this
    {
      |data| == 0
    }

    /** clear: no molecules, no records, a zero box. */
    method Clear()
      modifies this
      ensures data == [] && dimensions == ZeroVec && moleculeRecords == [] && atomRecords == []
      ensures cellNumbers == old(cellNumbers)
    {
      data := [];
      dimensions := ZeroVec;
      atomRecords := [];
      moleculeRecords := [];
    }

    /** getMoleculetypes: each name once, in the order of its first molecule. */
    method GetMoleculeTypes() returns (types: seq<string>)
      ensures forall a, b :: 0 <= a < b < |types| ==> types[a] != types[b]
      ensures forall n :: n in types <==> exists p :: 0 <= p < |data| && data[p].name == n
      ensures forall a, b :: 0 <= a < b < |types| ==>
                FirstWhere(data, KeyIs(NameOf, types[a])) < FirstWhere(data, KeyIs(NameOf, types[b]))
    {
      types := [];
      var t := 0;
      while t < |data|
        invariant t <= |data| && TypesUpTo(data, types, t)
      {
        TypesStep(data, types, t);
        var n := data[t].name;
        if n !in types {
          types := types + [n];
        }
        t := t + 1;
      }
    }

    // ----------------------------------------------------------------- sort


    /**
     * sort: stable sort by name, then molecule ids 1..N and atom ids 1..M;
     * the molecule record of each reacted molecule gets its new id and one
     * atom record per atom of it is written.
     */
    method Sort()
      modifies this
      ensures data == SortOutcome(old(data))
      ensures moleculeRecords == RecordsUpTo(old(moleculeRecords), SortedByName(old(data)), |old(data)|)
      ensures atomRecords == AtomRecordsUpTo(old(moleculeRecords), SortedByName(old(data)), |old(data)|)
      ensures dimensions == old(dimensions) && cellNumbers == old(cellNumbers)
    {
      atomRecords := [];
      data := SortedByName(data);
      data, moleculeRecords, atomRecords := RenumberSorted(data, moleculeRecords);
    }

    // ------------------------------------------------------------ cell list

    /**
     * getCellList: Nx*Ny*Nz buckets holding each molecule in the cell of its
     * first atom (in list order), and for each cell its 27 neighbour indices.
     * The neighbour stencil wraps every axis with that axis' own count.
     */
    method GetCellList() returns (cells: seq<seq<Molecule>>, neighbours: seq<seq<int>>)
      requires Positive(cellNumbers) && PositiveBox(dimensions)
      requires forall p :: 0 <= p < |data| ==> |data[p].atoms| > 0
      ensures |cells| == Total(cellNumbers) && |neighbours| == Total(cellNumbers)
      ensures forall cell :: 0 <= cell < |cells| ==> cells[cell] == Filter(data, InCellTest(dimensions, cellNumbers, cell))
      ensures forall i, j, k :: InGrid(i, j, k, cellNumbers) ==>
                neighbours[Index(i, j, k, cellNumbers)] == Stencil(i, j, k, cellNumbers)
    {
      var c := cellNumbers;
      var total := c.nx * c.ny * c.nz;
      var emptyCells: seq<seq<Molecule>> := [];
      var emptyLists: seq<seq<int>> := [];
      var n := 0;
      while n < total
        invariant n <= total && |emptyCells| == n && |emptyLists| == n
        invariant forall cell :: 0 <= cell < n ==> emptyCells[cell] == [] && emptyLists[cell] == []
      {
        emptyCells := emptyCells + [[]];
        emptyLists := emptyLists + [[]];
        n := n + 1;
      }
      cells := PlaceMolecules(data, dimensions, c, emptyCells);
      neighbours := FillNeighbours(c, emptyLists);
    }
  }

  /** The molecule loop of getCellList: each molecule is appended to the bucket of its first atom's cell. */
  method PlaceMolecules(ms: seq<Molecule>, dims: Vec3, c: CellCounts, empty: seq<seq<Molecule>>)
    returns (cells: seq<seq<Molecule>>)
    requires Positive(c) && PositiveBox(dims) && |empty| == Total(c)
    requires forall cell :: 0 <= cell < Total(c) ==> empty[cell] == []
    requires forall p :: 0 <= p < |ms| ==> |ms[p].atoms| > 0
    ensures |cells| == Total(c)
    ensures forall cell :: 0 <= cell < Total(c) ==> cells[cell] == Filter(ms, InCellTest(dims, c, cell))
  {
    cells := empty;
    var t := 0;
    while t < |ms|
      invariant t <= |ms| && |cells| == Total(c)
      invariant forall cell :: 0 <= cell < Total(c) ==> cells[cell] == Filter(ms[..t], InCellTest(dims, c, cell))
    {
      var m := ms[t];
      var p := m.atoms[0].position;
      var nx := CellCoord(p.x, dims.x, c.nx);
      var ny := CellCoord(p.y, dims.y, c.ny);
      var nz := CellCoord(p.z, dims.z, c.nz);
      var index := nx + ny * c.nx + nz * c.nx * c.ny;
      CellOfInRange(m, dims, c);
      assert index == CellOf(m, dims, c);
      assert ms[..t + 1] == ms[..t] + [m];
      forall cell | 0 <= cell < Total(c)
        ensures Filter(ms[..t + 1], InCellTest(dims, c, cell))
                == Filter(ms[..t], InCellTest(dims, c, cell)) + (if cell == index then [m] else [])
      {
        FilterSnoc(ms[..t], m, InCellTest(dims, c, cell));
        assert InCellTest(dims, c, cell)(m) <==> cell == index;
      }
      cells := cells[index := cells[index] + [m]];
      t := t + 1;
    }
    assert ms[..t] == ms;
  }

  /**
   * The atom loop of sort: atom q gets id counter + q + 1, and for a reacted
   * molecule one (old id, new id) pair per atom is appended to the records.
   */
  /**
   * The renumbering loop of sort over the sorted molecules: molecule i gets
   * id i + 1 and its atoms the next consecutive ids; a molecule with a
   * molecule record has its record's new id set and one atom record per atom.
   */
  method RenumberSorted(sorted: seq<Molecule>, recs0: seq<Record>)
    returns (data: seq<Molecule>, moleculeRecords: seq<Record>, atomRecords: seq<Record>)
    ensures data == Renumber(sorted)
    ensures moleculeRecords == RecordsUpTo(recs0, sorted, |sorted|)
    ensures atomRecords == AtomRecordsUpTo(recs0, sorted, |sorted|)
  {
    data := sorted;
    moleculeRecords := recs0;
    atomRecords := [];
    var counterAtoms: nat := 0;
    var i := 0;
    while i < |data|
      invariant |data| == |sorted| && i <= |data|
      invariant counterAtoms == AtomsBefore(sorted, i)
      invariant forall p :: 0 <= p < i ==> data[p] == Renumber(sorted)[p]
      invariant forall p :: i <= p < |data| ==> data[p] == sorted[p]
      invariant moleculeRecords == RecordsUpTo(recs0, sorted, i)
      invariant atomRecords == AtomRecordsUpTo(recs0, sorted, i)
    {
      var m;
      m, moleculeRecords, atomRecords, counterAtoms :=
        SortVisit(sorted, recs0, i, data[i], moleculeRecords, atomRecords, counterAtoms);
      data := data[i := m];
      i := i + 1;
    }
    assert data == Renumber(sorted);
  }

  /**
   * One pass of sort's molecule loop over molecule i of the sorted list: it
   * gets id i + 1, its record (if any) that id, and its atoms the next ids,
   * with one atom record each when it reacted.
   */
  method SortVisit(ghost sorted: seq<Molecule>, ghost recs0: seq<Record>, i: nat, m: Molecule, recs: seq<Record>,
                   atomRecs: seq<Record>, counterAtoms: nat)
    returns (m': Molecule, recs': seq<Record>, atomRecs': seq<Record>, counterAtoms': nat)
    requires i < |sorted| && m == sorted[i]
    requires recs == RecordsUpTo(recs0, sorted, i) && atomRecs == AtomRecordsUpTo(recs0, sorted, i)
    requires counterAtoms == AtomsBefore(sorted, i)
    ensures m' == Renumber(sorted)[i]
    ensures recs' == RecordsUpTo(recs0, sorted, i + 1) && atomRecs' == AtomRecordsUpTo(recs0, sorted, i + 1)
    ensures counterAtoms' == AtomsBefore(sorted, i + 1)
  {
    var counterMolecules := i + 1;
    RecordsKeepKeys(recs0, sorted, i);
    var isReacted := false;
    recs' := recs;
    var search := FindRecord(recs, m.id);
    if search < |recs| {
      isReacted := true;
      recs' := recs[search := recs[search].(second := counterMolecules)];
    }
    m' := SetID(m, counterMolecules);
    var atoms;
    atoms, counterAtoms', atomRecs' := RenumberMoleculeAtoms(m'.atoms, counterAtoms, isReacted, atomRecs);
    AtomsBeforeStep(sorted, i);
    m' := m'.(atoms := atoms);
  }

  method RenumberMoleculeAtoms(atoms: seq<Atom>, counter: nat, isReacted: bool, records: seq<Record>)
    returns (renumbered: seq<Atom>, counter': nat, records': seq<Record>)
    ensures renumbered == RenumberAtoms(atoms, counter)
    ensures counter' == counter + |atoms|
    ensures records' == records + (if isReacted then AtomPairs(atoms, counter) else [])
  {
    renumbered := atoms;
    counter' := counter;
    records' := records;
    var j := 0;
    while j < |renumbered|
      invariant j <= |renumbered| == |atoms|
      invariant counter' == counter + j
      invariant forall q :: 0 <= q < j ==> renumbered[q] == atoms[q].(id := counter + q + 1)
      invariant forall q :: j <= q < |renumbered| ==> renumbered[q] == atoms[q]
      invariant records' == records + (if isReacted then AtomPairs(atoms, counter)[..j] else [])
    {
      counter' := counter' + 1;
      if isReacted {
        records' := records' + [Record(renumbered[j].id, counter')];
        assert AtomPairs(atoms, counter)[..j + 1] == AtomPairs(atoms, counter)[..j] + [Record(renumbered[j].id, counter')];
      }
      renumbered := renumbered[j := renumbered[j].(id := counter')];
      j := j + 1;
    }
    assert AtomPairs(atoms, counter)[..j] == AtomPairs(atoms, counter);
  }

  /** The triple loop over the cells that appends each cell's 27 neighbour indices to its empty list. */
  method FillNeighbours(c: CellCounts, empty: seq<seq<int>>) returns (neighbours: seq<seq<int>>)
    requires Positive(c) && |empty| == Total(c)
    requires forall cell :: 0 <= cell < Total(c) ==> empty[cell] == []
    ensures |neighbours| == Total(c)
    ensures forall i, j, k :: InGrid(i, j, k, c) ==> neighbours[Index(i, j, k, c)] == Stencil(i, j, k, c)
  {
    ghost var target := Stencils(c);
    neighbours := empty;
    ghost var done := 0;
    var k := 0;
    while k < c.nz
      invariant 0 <= k <= c.nz && done == Index(0, 0, k, c) && FilledBelow(neighbours, done, target)
    {
      neighbours := FillPlane(neighbours, k, c, done);
      IndexSteps(c.ny, k, c);
      done := done + c.nx * c.ny;
      k := k + 1;
    }
    IndexSteps(0, k, c);
    assert k == c.nz && done == Total(c);
    assert forall cell :: 0 <= cell < Total(c) ==> neighbours[cell] == target[cell];
    StencilsByPosition(neighbours, c);
  }

  /** The middle loop: the rows of plane k, one after another. */
  method FillPlane(before: seq<seq<int>>, k: int, c: CellCounts, ghost start: int) returns (neighbours: seq<seq<int>>)
    requires Positive(c) && 0 <= k < c.nz && start == Index(0, 0, k, c) && FilledBelow(before, start, Stencils(c))
    ensures FilledBelow(neighbours, start + c.nx * c.ny, Stencils(c))
  {
    neighbours := before;
    ghost var done := start;
    var j := 0;
    while j < c.ny
      invariant 0 <= j <= c.ny && done == Index(0, j, k, c) && FilledBelow(neighbours, done, Stencils(c))
    {
      neighbours := FillRow(neighbours, j, k, c, done);
      IndexSteps(j, k, c);
      done := done + c.nx;
      j := j + 1;
    }
    IndexSteps(j, k, c);
  }

  /** The inner loop: the cells of row j of plane k, one after another. */
  method FillRow(before: seq<seq<int>>, j: int, k: int, c: CellCounts, ghost start: int) returns (neighbours: seq<seq<int>>)
    requires Positive(c) && 0 <= j < c.ny && 0 <= k < c.nz && start == Index(0, j, k, c) && FilledBelow(before, start, Stencils(c))
    ensures FilledBelow(neighbours, start + c.nx, Stencils(c))
  {
    neighbours := before;
    var i := 0;
    while i < c.nx
      invariant 0 <= i <= c.nx && FilledBelow(neighbours, start + i, Stencils(c))
    {
      var index := i + j * c.nx + k * c.nx * c.ny;
      FillStep(neighbours, i, j, k, c);
      neighbours := neighbours[index := neighbours[index] + Stencil(i, j, k, c)];
      i := i + 1;
    }
  }

  /** The stencil of every cell, by cell index. */
  ghost function Stencils(c: CellCounts): (r: seq<seq<int>>)
    requires Positive(c)
    ensures |r| == Total(c) && forall cell :: 0 <= cell < Total(c) ==> r[cell] == StencilAt(cell, c)
  {
    assert InGrid(0, 0, 0, c) && Index(0, 0, 0, c) < Total(c);
    seq(Total(c), cell requires 0 <= cell < Total(c) => StencilAt(cell, c))
  }

  /** The lists before done hold their targets, the others are still empty. */
  ghost predicate FilledBelow(neighbours: seq<seq<int>>, done: int, target: seq<seq<int>>)
  {
    && |neighbours| == |target|
    && forall cell :: 0 <= cell < |target| ==> neighbours[cell] == if cell < done then target[cell] else []
  }

  /** Appending the stencil of cell (i, j, k) to its list fills one more cell. */
  lemma FillStep(neighbours: seq<seq<int>>, i: int, j: int, k: int, c: CellCounts)
    requires Positive(c) && InGrid(i, j, k, c) && FilledBelow(neighbours, Index(i, j, k, c), Stencils(c))
    ensures var index := Index(i, j, k, c);
            FilledBelow(neighbours[index := neighbours[index] + Stencil(i, j, k, c)], index + 1, Stencils(c))
  {
    CoordsOfIndex(i, j, k, c);
  }

  lemma StencilsByPosition(neighbours: seq<seq<int>>, c: CellCounts)
    requires Positive(c) && |neighbours| == Total(c)
    requires forall cell :: 0 <= cell < Total(c) ==> neighbours[cell] == StencilAt(cell, c)
    ensures forall i, j, k :: InGrid(i, j, k, c) ==> neighbours[Index(i, j, k, c)] == Stencil(i, j, k, c)
  {
    forall i, j, k | InGrid(i, j, k, c) ensures neighbours[Index(i, j, k, c)] == Stencil(i, j, k, c) {
      CoordsOfIndex(i, j, k, c);
    }
  }
}
