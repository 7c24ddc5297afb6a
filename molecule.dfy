// container/atom.hpp and container/molecule.{hpp,cpp}.
//
// Atom and Molecule are value types in the program: topologies, reaction
// templates and candidates hold them by value in std::vector and copy them
// freely. A member function that changes a molecule in place is modelled as a
// function or method that returns the changed value, which the caller stores
// back where the molecule lives.
module Molecules {

  import opened Wrappers
  import opened Seqs

  /** A REALVEC (x, y, z); positions and velocities are exact reals here. */
  datatype Vec3 = Vec3(x: real, y: real, z: real)

  const ZeroVec := Vec3(0.0, 0.0, 0.0)

  datatype Atom = Atom(id: nat, name: string, position: Vec3, velocity: Vec3)

  datatype Molecule = Molecule(id: nat, name: string, atoms: seq<Atom>)

  /** A default-constructed molecule: id 0, empty name, no atoms. */
  const EmptyMolecule := Molecule(0, "", [])

  // ------------------------------------------------------------ accessors

  function SetID(m: Molecule, id: nat): (r: Molecule)
    ensures r.id == id && r.name == m.name && r.atoms == m.atoms
  {
    m.(id := id)
  }

  function SetName(m: Molecule, name: string): (r: Molecule)
    ensures r.name == name && r.id == m.id && r.atoms == m.atoms
  {
    m.(name := name)
  }

  /** getID/getName after setID/setName return the stored values, and the setters commute. */
  lemma SettersCommute(m: Molecule, id: nat, name: string)
    ensures SetName(SetID(m, id), name) == SetID(SetName(m, name), id) == Molecule(id, name, m.atoms)
  {
  }

  // ------------------------------------------------------------- addAtom

  /** addAtom(Atom): emplace at the end. */
  function AddAtom(m: Molecule, a: Atom): (r: Molecule)
    ensures r.atoms == m.atoms + [a] && r.id == m.id && r.name == m.name
  {
    m.(atoms := m.atoms + [a])
  }

  /** addAtom(id, name): emplace a default atom at the end, then set its id and name. */
  function AddNewAtom(m: Molecule, id: nat, name: string): (r: Molecule)
    ensures |r.atoms| == |m.atoms| + 1 && r.atoms[..|m.atoms|] == m.atoms
    ensures r.atoms[|m.atoms|] == Atom(id, name, ZeroVec, ZeroVec)
    ensures r.id == m.id && r.name == m.name
  {
    AddAtom(m, Atom(id, name, ZeroVec, ZeroVec))
  }

  predicate Empty(m: Molecule) { |m.atoms| == 0 }

  // ---------------------------------------------------- searches by value

  function HasAtomId(id: nat): Atom -> bool { (a: Atom) => a.id == id }
  function HasAtomName(name: string): Atom -> bool { (a: Atom) => a.name == name }
  function LacksAtomId(id: nat): Atom -> bool { (a: Atom) => a.id != id }

  /** containsAtom(id): std::find_if over the atoms. */
  function ContainsAtomId(m: Molecule, id: nat): (r: bool)
    ensures r <==> exists k :: 0 <= k < |m.atoms| && m.atoms[k].id == id
  {
    FirstWhere(m.atoms, HasAtomId(id)) < |m.atoms|
  }

  /** containsAtom(name). */
  function ContainsAtomName(m: Molecule, name: string): (r: bool)
    ensures r <==> exists k :: 0 <= k < |m.atoms| && m.atoms[k].name == name
  {
    FirstWhere(m.atoms, HasAtomName(name)) < |m.atoms|
  }

  /** getAtom(id): the first atom with that id; no such atom is a fatal error. */
  function GetAtom(m: Molecule, id: nat): (r: Result<Atom>)
    ensures r.Ok? <==> ContainsAtomId(m, id)
    ensures r.Ok? ==> r.value.id == id
    ensures r.Ok? ==> exists k :: 0 <= k < |m.atoms| && m.atoms[k] == r.value
                       && forall j :: 0 <= j < k ==> m.atoms[j].id != id
  {
    var k := FirstWhere(m.atoms, HasAtomId(id));
    if k < |m.atoms| then Ok(m.atoms[k]) else Err("couldn't find atom in molecule")
  }

  /** An atom added by addAtom(id, name) is found again by getAtom unless an earlier one has the id. */
  lemma AddedAtomIsFound(m: Molecule, id: nat, name: string)
    ensures ContainsAtomId(AddNewAtom(m, id, name), id)
    ensures !ContainsAtomId(m, id) ==> GetAtom(AddNewAtom(m, id, name), id) == Ok(Atom(id, name, ZeroVec, ZeroVec))
    ensures ContainsAtomId(m, id) ==> GetAtom(AddNewAtom(m, id, name), id) == GetAtom(m, id)
  {
    var r := AddNewAtom(m, id, name);
    assert r.atoms == m.atoms + [Atom(id, name, ZeroVec, ZeroVec)];
    FirstWhereAppend(m.atoms, Atom(id, name, ZeroVec, ZeroVec), HasAtomId(id));
  }

  // --------------------------------------------------------- removeAtom(id)

  /** removeAtom(id): std::remove_if followed by erase, compacting in one pass. */
  method RemoveAtomById(m: Molecule, id: nat) returns (r: Molecule)
    ensures r.atoms == Filter(m.atoms, LacksAtomId(id))
    ensures r.id == m.id && r.name == m.name
  {
    var kept: seq<Atom> := [];
    var i := 0;
    while i < |m.atoms|
      invariant i <= |m.atoms|
      invariant kept == Filter(m.atoms[..i], LacksAtomId(id))
    {
      assert m.atoms[..i + 1][..i] == m.atoms[..i];
      if m.atoms[i].id != id {
        kept := kept + [m.atoms[i]];
      }
      i := i + 1;
    }
    assert m.atoms[..i] == m.atoms;
    r := m.(atoms := kept);
  }

  /** After removeAtom(id) no atom has the id, every other atom is still there, and the count drops by the matches. */
  lemma RemovedById(m: Molecule, id: nat)
    ensures !ContainsAtomId(m.(atoms := Filter(m.atoms, LacksAtomId(id))), id)
    ensures forall a :: a in m.atoms && a.id != id ==> a in Filter(m.atoms, LacksAtomId(id))
    ensures |Filter(m.atoms, LacksAtomId(id))| + Count(m.atoms, HasAtomId(id)) == |m.atoms|
  {
    forall a | a in m.atoms && a.id != id ensures a in Filter(m.atoms, LacksAtomId(id)) {
      FilterMember(m.atoms, LacksAtomId(id), a);
    }
    FilterSizes(m.atoms, LacksAtomId(id));
    CountNegation(m.atoms, id);
  }

  lemma {:induction false} CountNegation(s: seq<Atom>, id: nat)
    ensures Count(s, Not(LacksAtomId(id))) == Count(s, HasAtomId(id))
    decreases |s|
  {
    if |s| > 0 { CountNegation(s[..|s| - 1], id); }
  }

  // ------------------------------------------------------ identity (Atom&)

  /**
   * A reference to an atom: either the element at a position of this
   * molecule's vector or an atom object that lives somewhere else. Atom's
   * operator== compares addresses, so it is this reference that is compared.
   */
  datatype AtomRef = Element(index: nat) | Elsewhere

  /** containsAtom(Atom&): true only for a reference into this molecule. */
  predicate ContainsAtomRef(m: Molecule, ref: AtomRef)
  {
    ref.Element? && ref.index < |m.atoms|
  }

  /** removeAtom(Atom&): remove_if with the address comparison; at most that one element goes. */
  method RemoveAtomRef(m: Molecule, ref: AtomRef) returns (r: Molecule)
    ensures ContainsAtomRef(m, ref) ==> r.atoms == m.atoms[..ref.index] + m.atoms[ref.index + 1..]
    ensures !ContainsAtomRef(m, ref) ==> r.atoms == m.atoms
    ensures r.id == m.id && r.name == m.name
  {
    var kept: seq<Atom> := [];
    var i := 0;
    while i < |m.atoms|
      invariant i <= |m.atoms|
      invariant ref.Element? && ref.index < i ==> kept == m.atoms[..ref.index] + m.atoms[ref.index + 1..i]
      invariant !(ref.Element? && ref.index < i) ==> kept == m.atoms[..i]
    {
      if ref != Element(i) {
        kept := kept + [m.atoms[i]];
      }
      i := i + 1;
    }
    assert m.atoms[..i] == m.atoms;
    r := m.(atoms := kept);
  }

  // ------------------------------------------------------------ operators

  /** operator<: ids only. */
  predicate Less(a: Molecule, b: Molecule) { a.id < b.id }

  /** operator>: ids only. */
  predicate Greater(a: Molecule, b: Molecule) { a.id > b.id }

  /** The comparison operators ignore names and atoms and are mutually converse. */
  lemma ComparisonById(a: Molecule, b: Molecule, name: string)
    ensures Less(a, b) <==> Greater(b, a)
    ensures Less(a, b) <==> Less(a.(name := name, atoms := []), b)
    ensures a.id == b.id ==> !Less(a, b) && !Greater(a, b)
  {
  }
}
