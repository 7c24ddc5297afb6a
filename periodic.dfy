// Making a product molecule whole across periodic boundaries: every atom is
// shifted, coordinate by coordinate, by a whole number of box lengths chosen
// from its offset to the molecule's first atom.

module Periodic {

  import opened Molecules
  import opened CellGrid

  /** static_cast<int> of a real: truncation toward zero. */
  function Trunc(x: real): (r: int)
    ensures x >= 0.0 ==> r == x.Floor
    ensures x < 0.0 ==> r == -((-x).Floor)
  {
    if x >= 0.0 then x.Floor else -((-x).Floor)
  }

  /** The number of box lengths a coordinate is moved back by: its offset in units of half a box, truncated. */
  function Shift(p: real, ref: real, d: real): int
    requires d > 0.0
  {
    Trunc((p - ref) / (0.5 * d))
  }

  function ShiftCoord(p: real, ref: real, d: real): real
    requires d > 0.0
  {
    p - Shift(p, ref, d) as real * d
  }

  lemma HalfUnits(p: real, ref: real, d: real, lo: real, hi: real)
    requires d > 0.0 && lo * (0.5 * d) < p - ref < hi * (0.5 * d)
    ensures lo < (p - ref) / (0.5 * d) < hi
  {
    var h := 0.5 * d;
    var q := (p - ref) / h;
    assert q * h == p - ref;
    assert (q - lo) * h > 0.0;
    assert (hi - q) * h > 0.0;
  }

  lemma ExactUnits(p: real, ref: real, d: real, c: real)
    requires d > 0.0 && p - ref == c * (0.5 * d)
    ensures (p - ref) / (0.5 * d) == c
  {
    var h := 0.5 * d;
    var q := (p - ref) / h;
    assert q * h == c * h;
    assert (q - c) * h == 0.0;
  }

  /**
   * The shift is a whole number of box lengths; within half a box of the
   * reference nothing moves; an offset strictly between half a box and a box
   * (either way) is moved by exactly one box length, into the half box
   * around the reference.
   */
  lemma ShiftCoordProperties(p: real, ref: real, d: real)
    requires d > 0.0
    ensures ShiftCoord(p, ref, d) == p - Shift(p, ref, d) as real * d
    ensures -(d / 2.0) < p - ref < d / 2.0 ==> ShiftCoord(p, ref, d) == p
    ensures d / 2.0 < p - ref < d ==> ShiftCoord(p, ref, d) == p - d
    ensures -d < p - ref < -(d / 2.0) ==> ShiftCoord(p, ref, d) == p + d
    ensures -d < p - ref < d ==> -(d / 2.0) <= ShiftCoord(p, ref, d) - ref <= d / 2.0
  {
    if -(d / 2.0) < p - ref < d / 2.0 {
      HalfUnits(p, ref, d, -1.0, 1.0);
    }
    if d / 2.0 <= p - ref < d {
      HalfUnits(p, ref, d, 0.5, 2.0);
      if p - ref == d / 2.0 {
        ExactUnits(p, ref, d, 1.0);
      } else {
        HalfUnits(p, ref, d, 1.0, 2.0);
      }
    }
    if -d < p - ref <= -(d / 2.0) {
      var x := (p - ref) / (0.5 * d);
      if p - ref == -(d / 2.0) {
        ExactUnits(p, ref, d, -1.0);
      } else {
        HalfUnits(p, ref, d, -2.0, -1.0);
      }
      assert 1.0 <= -x < 2.0;
      assert (-x).Floor == 1;
      assert Shift(p, ref, d) == -1;
    }
  }

  /** Two coordinates inside the box are less than a box apart, so the shifted atom ends within half a box of the reference. */
  lemma InsideBoxEndsWithinHalfBox(p: real, ref: real, d: real)
    requires d > 0.0 && 0.0 <= p < d && 0.0 <= ref < d
    ensures -(d / 2.0) <= ShiftCoord(p, ref, d) - ref <= d / 2.0
  {
    ShiftCoordProperties(p, ref, d);
  }

  function ShiftVec(p: Vec3, ref: Vec3, dims: Vec3): Vec3
    requires PositiveBox(dims)
  {
    Vec3(ShiftCoord(p.x, ref.x, dims.x), ShiftCoord(p.y, ref.y, dims.y), ShiftCoord(p.z, ref.z, dims.z))
  }

  /** The molecule with every atom shifted relative to its first atom. */
  function Whole(m: Molecule, dims: Vec3): (r: Molecule)
    requires |m.atoms| > 0 && PositiveBox(dims)
    ensures r.id == m.id && r.name == m.name && |r.atoms| == |m.atoms|
  {
    m.(atoms := seq(|m.atoms|, q requires 0 <= q < |m.atoms| =>
                      m.atoms[q].(position := ShiftVec(m.atoms[q].position, m.atoms[0].position, dims))))
  }

  /** The reference atom does not move, and no atom changes anything but its position. */
  lemma WholeKeepsReference(m: Molecule, dims: Vec3)
    requires |m.atoms| > 0 && PositiveBox(dims)
    ensures Whole(m, dims).atoms[0] == m.atoms[0]
    ensures forall q :: 0 <= q < |m.atoms| ==>
              Whole(m, dims).atoms[q] == m.atoms[q].(position := Whole(m, dims).atoms[q].position)
  {
    var p := m.atoms[0].position;
    ShiftCoordProperties(p.x, p.x, dims.x);
    ShiftCoordProperties(p.y, p.y, dims.y);
    ShiftCoordProperties(p.z, p.z, dims.z);
  }

  predicate InBox(v: Vec3, dims: Vec3)
  {
    0.0 <= v.x < dims.x && 0.0 <= v.y < dims.y && 0.0 <= v.z < dims.z
  }

  predicate NearReference(v: Vec3, ref: Vec3, dims: Vec3)
  {
    -(dims.x / 2.0) <= v.x - ref.x <= dims.x / 2.0 &&
    -(dims.y / 2.0) <= v.y - ref.y <= dims.y / 2.0 &&
    -(dims.z / 2.0) <= v.z - ref.z <= dims.z / 2.0
  }

  /** A molecule whose atoms all lie in the box comes out whole: every atom within half a box, per coordinate, of the first atom. */
  lemma WholeIsCompact(m: Molecule, dims: Vec3)
    requires |m.atoms| > 0 && PositiveBox(dims)
    requires forall q :: 0 <= q < |m.atoms| ==> InBox(m.atoms[q].position, dims)
    ensures forall q :: 0 <= q < |m.atoms| ==>
              NearReference(Whole(m, dims).atoms[q].position, Whole(m, dims).atoms[0].position, dims)
  {
    WholeKeepsReference(m, dims);
    var ref := m.atoms[0].position;
    forall q | 0 <= q < |m.atoms|
      ensures NearReference(Whole(m, dims).atoms[q].position, ref, dims)
    {
      var v := m.atoms[q].position;
      InsideBoxEndsWithinHalfBox(v.x, ref.x, dims.x);
      InsideBoxEndsWithinHalfBox(v.y, ref.y, dims.y);
      InsideBoxEndsWithinHalfBox(v.z, ref.z, dims.z);
    }
  }

  /**
   * makeMoleculeWhole: the atom loop, each atom measured against the
   * molecule's front atom as it stands at that point (which the first
   * pass leaves where it is).
   */
  method MakeMoleculeWhole(molecule: Molecule, dims: Vec3) returns (r: Molecule)
    requires |molecule.atoms| > 0 && PositiveBox(dims)
    ensures r == Whole(molecule, dims)
  {
    WholeKeepsReference(molecule, dims);
    var atoms := molecule.atoms;
    var q := 0;
    while q < |atoms|
      invariant q <= |atoms| == |molecule.atoms|
      invariant atoms[0] == molecule.atoms[0]
      invariant forall p :: 0 <= p < q ==> atoms[p] == Whole(molecule, dims).atoms[p]
      invariant forall p :: q <= p < |atoms| ==> atoms[p] == molecule.atoms[p]
    {
      atoms := atoms[q := atoms[q].(position := ShiftVec(atoms[q].position, atoms[0].position, dims))];
      q := q + 1;
    }
    r := molecule.(atoms := atoms);
  }
}
