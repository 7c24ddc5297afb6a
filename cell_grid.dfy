// The arithmetic of Topology::getCellList (container/topology.cpp): the
// periodic wrap functions right/left/up/down, the linear cell index
// n_x + n_y*Nx + n_z*Nx*Ny, the cell a position falls into, and the 27-entry
// neighbour stencil of a cell.
module CellGrid {

  import opened Molecules

  /** CellNumbers: the number of cells along x, y and z. */
  datatype CellCounts = CellCounts(nx: int, ny: int, nz: int)

  predicate Positive(c: CellCounts) { c.nx >= 1 && c.ny >= 1 && c.nz >= 1 }

  function Total(c: CellCounts): int { c.nx * c.ny * c.nz }

  predicate InGrid(i: int, j: int, k: int, c: CellCounts)
  {
    0 <= i < c.nx && 0 <= j < c.ny && 0 <= k < c.nz
  }

  // ------------------------------------------------------------ wrapping

  function Heaviside(i: int): int
  {
    if i > 0 then 1 else 0
  }

  /** right(n) (and up(n) with the z count): (n+1)*heaviside(count-1-n). */
  function Right(n: int, count: int): int
  {
    (n + 1) * Heaviside(count - 1 - n)
  }

  /** left(n) (and down(n) with the z count): (n-1)*heaviside(n) + (count-1)*heaviside(1-n). */
  function Left(n: int, count: int): int
  {
    (n - 1) * Heaviside(n) + (count - 1) * Heaviside(1 - n)
  }

  /** The heaviside formulas are the periodic successor and predecessor on 0..count-1. */
  lemma WrapIsPeriodic(n: int, count: int)
    requires 0 <= n < count
    ensures Right(n, count) == (if n < count - 1 then n + 1 else 0)
    ensures Left(n, count) == (if n > 0 then n - 1 else count - 1)
    ensures 0 <= Right(n, count) < count && 0 <= Left(n, count) < count
  {
    if n < count - 1 { assert Heaviside(count - 1 - n) == 1; } else { assert Heaviside(count - 1 - n) == 0; }
    if n > 0 {
      assert Heaviside(n) == 1 && Heaviside(1 - n) == 0;
    } else {
      assert Heaviside(n) == 0 && Heaviside(1 - n) == 1;
    }
  }

  // -------------------------------------------------------- linear index

  /** Cell (i, j, k) has index i + j*Nx + k*Nx*Ny, and every grid position has one in 0..Total-1. */
  function Index(i: int, j: int, k: int, c: CellCounts): (r: int)
    ensures InGrid(i, j, k, c) ==> 0 <= r < Total(c)
  {
    LinearIndexInRange(i, j, k, c);
    i + j * c.nx + k * c.nx * c.ny
  }

  lemma MulMonotone(n: int, x: int, y: int)
    requires n >= 0 && x <= y
    ensures n * x <= n * y
  {
    assert n * y - n * x == n * (y - x);
  }

  /** One more multiple of n: n*b + n <= n*b' when b < b'. */
  lemma MulStep(n: int, b: int, b': int)
    requires n >= 0 && b < b'
    ensures n * b + n <= n * b'
  {
    MulMonotone(n, b + 1, b');
    assert n * (b + 1) == n * b + n;
  }

  /** a + n*b determines a and b when 0 <= a < n. */
  lemma LinearUnique(a: int, b: int, a': int, b': int, n: int)
    requires 0 <= a < n && 0 <= a' < n && b >= 0 && b' >= 0
    requires a + n * b == a' + n * b'
    ensures a == a' && b == b'
  {
    if b < b' {
      MulStep(n, b, b');
    } else if b' < b {
      MulStep(n, b', b);
    }
  }

  /** a + n*b < n*m when 0 <= a < n and 0 <= b < m. */
  lemma LinearBound(a: int, b: int, n: int, m: int)
    requires 0 <= a < n && 0 <= b < m
    ensures 0 <= a + n * b < n * m
  {
    MulStep(n, b, m);
    MulMonotone(n, 0, b);
  }

  lemma IndexNested(i: int, j: int, k: int, c: CellCounts)
    ensures Index(i, j, k, c) == i + c.nx * (j + c.ny * k)
  {
    assert k * c.nx * c.ny == c.nx * (c.ny * k);
  }

  lemma LinearIndexInRange(i: int, j: int, k: int, c: CellCounts)
    ensures InGrid(i, j, k, c) ==> 0 <= i + j * c.nx + k * c.nx * c.ny < Total(c)
  {
    if InGrid(i, j, k, c) {
      assert k * c.nx * c.ny == c.nx * (c.ny * k);
      LinearBound(j, k, c.ny, c.nz);
      LinearBound(i, j + c.ny * k, c.nx, c.ny * c.nz);
      assert c.nx * (c.ny * c.nz) == Total(c);
    }
  }

  /** Distinct grid positions have distinct indices. */
  lemma IndexInjective(i: int, j: int, k: int, i': int, j': int, k': int, c: CellCounts)
    requires InGrid(i, j, k, c) && InGrid(i', j', k', c)
    requires Index(i, j, k, c) == Index(i', j', k', c)
    ensures i == i' && j == j' && k == k'
  {
    IndexNested(i, j, k, c);
    IndexNested(i', j', k', c);
    MulMonotone(c.ny, 0, k);
    MulMonotone(c.ny, 0, k');
    LinearUnique(i, j + c.ny * k, i', j' + c.ny * k', c.nx);
    LinearUnique(j, k, j', k', c.ny);
  }

  /** The loops k outer, j middle, i inner visit the indices 0, 1, 2, ... in turn. */
  lemma IndexSteps(j: int, k: int, c: CellCounts)
    ensures Index(c.nx, j, k, c) == Index(0, j + 1, k, c)
    ensures Index(0, c.ny, k, c) == Index(0, 0, k + 1, c)
    ensures Index(0, 0, c.nz, c) == Total(c)
  {
    assert (j + 1) * c.nx == j * c.nx + c.nx;
    assert (k + 1) * c.nx * c.ny == k * c.nx * c.ny + c.ny * c.nx;
  }

  /** The grid position of a cell index: the inverse of Index. */
  function CoordsOf(cell: int, c: CellCounts): (int, int, int)
    requires Positive(c)
  {
    (cell % c.nx, cell / c.nx % c.ny, cell / c.nx / c.ny)
  }

  /** Decoding an index gives back the grid position it was built from. */
  lemma CoordsOfIndex(i: int, j: int, k: int, c: CellCounts)
    requires Positive(c) && InGrid(i, j, k, c)
    ensures CoordsOf(Index(i, j, k, c), c) == (i, j, k)
  {
    var cell := Index(i, j, k, c);
    IndexNested(i, j, k, c);
    MulMonotone(c.ny, 0, k);
    var b := j + c.ny * k;
    DivModOf(cell, c.nx, b, i);
    DivModOf(b, c.ny, k, j);
  }

  /** The quotient and remainder of r + n * q by n are q and r. */
  lemma DivModOf(x: int, n: int, q: int, r: int)
    requires n >= 1 && 0 <= r < n && q >= 0 && x == r + n * q
    ensures x / n == q && x % n == r
  {
    MulMonotone(n, 0, q);
    DivMod(x, n);
    LinearUnique(x % n, x / n, r, q, n);
  }

  lemma DivMod(x: int, n: int)
    requires x >= 0 && n >= 1
    ensures x == x % n + n * (x / n) && 0 <= x % n < n && 0 <= x / n
  {
  }

  lemma DivBelow(x: int, n: int, m: int)
    requires n >= 1 && 0 <= x < n * m
    ensures x / n < m
  {
    DivMod(x, n);
    if x / n >= m {
      MulMonotone(n, m, x / n);
    }
  }

  /** Every index of the grid decodes to a grid position that encodes back to it. */
  lemma IndexOfCoords(cell: int, c: CellCounts)
    requires Positive(c) && 0 <= cell < Total(c)
    ensures InGrid(CoordsOf(cell, c).0, CoordsOf(cell, c).1, CoordsOf(cell, c).2, c)
    ensures Index(CoordsOf(cell, c).0, CoordsOf(cell, c).1, CoordsOf(cell, c).2, c) == cell
  {
    var b := cell / c.nx;
    DivMod(cell, c.nx);
    assert c.nx * (c.ny * c.nz) == Total(c);
    DivBelow(cell, c.nx, c.ny * c.nz);
    DivMod(b, c.ny);
    DivBelow(b, c.ny, c.nz);
    IndexNested(cell % c.nx, b % c.ny, b / c.ny, c);
  }

  // ------------------------------------------------------------ stencil

  /** The three values an axis loop runs over: {n, right(n), left(n)} with that axis' wrap count. */
  function Axis(n: int, count: int): seq<int>
  {
    [n, Right(n, count), Left(n, count)]
  }

  /** The innermost loop: z runs over its axis list for fixed x and y. */
  function Row(x: int, y: int, zs: seq<int>, c: CellCounts): (r: seq<int>)
    requires |zs| == 3
    ensures |r| == 3
  {
    [Index(x, y, zs[0], c), Index(x, y, zs[1], c), Index(x, y, zs[2], c)]
  }

  /** The middle loop: y runs over its axis list for fixed x. */
  function Plane(x: int, ys: seq<int>, zs: seq<int>, c: CellCounts): (r: seq<int>)
    requires |ys| == 3 && |zs| == 3
    ensures |r| == 9
  {
    Row(x, ys[0], zs, c) + Row(x, ys[1], zs, c) + Row(x, ys[2], zs, c)
  }

  /** Neighbour indices of a cell from the three axis lists, n_x outermost and n_z innermost. */
  function StencilOf(xs: seq<int>, ys: seq<int>, zs: seq<int>, c: CellCounts): (r: seq<int>)
    requires |xs| == 3 && |ys| == 3 && |zs| == 3
    ensures |r| == 27
  {
    Plane(xs[0], ys, zs, c) + Plane(xs[1], ys, zs, c) + Plane(xs[2], ys, zs, c)
  }

  /** The stencil with each axis wrapped by its own count. */
  function Stencil(i: int, j: int, k: int, c: CellCounts): (r: seq<int>)
    ensures |r| == 27
  {
    StencilOf(Axis(i, c.nx), Axis(j, c.ny), Axis(k, c.nz), c)
  }

  /** Every entry of a stencil built from in-range axis lists is a valid cell index. */
  lemma StencilOfInRange(xs: seq<int>, ys: seq<int>, zs: seq<int>, c: CellCounts)
    requires |xs| == 3 && |ys| == 3 && |zs| == 3
    requires forall t :: 0 <= t < 3 ==> 0 <= xs[t] < c.nx && 0 <= ys[t] < c.ny && 0 <= zs[t] < c.nz
    ensures forall v :: v in StencilOf(xs, ys, zs, c) ==> 0 <= v < Total(c)
  {
    PlaneInRange(xs[0], ys, zs, c);
    PlaneInRange(xs[1], ys, zs, c);
    PlaneInRange(xs[2], ys, zs, c);
    var p0, p1, p2 := Plane(xs[0], ys, zs, c), Plane(xs[1], ys, zs, c), Plane(xs[2], ys, zs, c);
    forall v | v in StencilOf(xs, ys, zs, c) ensures 0 <= v < Total(c) {
      assert v in p0 || v in p1 || v in p2;
    }
  }

  lemma PlaneInRange(x: int, ys: seq<int>, zs: seq<int>, c: CellCounts)
    requires |ys| == 3 && |zs| == 3 && 0 <= x < c.nx
    requires forall t :: 0 <= t < 3 ==> 0 <= ys[t] < c.ny && 0 <= zs[t] < c.nz
    ensures forall v :: v in Plane(x, ys, zs, c) ==> 0 <= v < Total(c)
  {
    var r0, r1, r2 := Row(x, ys[0], zs, c), Row(x, ys[1], zs, c), Row(x, ys[2], zs, c);
    RowInRange(x, ys[0], zs, c);
    RowInRange(x, ys[1], zs, c);
    RowInRange(x, ys[2], zs, c);
    forall v | v in Plane(x, ys, zs, c) ensures 0 <= v < Total(c) {
      assert v in r0 || v in r1 || v in r2;
    }
  }

  lemma RowInRange(x: int, y: int, zs: seq<int>, c: CellCounts)
    requires |zs| == 3 && 0 <= x < c.nx && 0 <= y < c.ny
    requires forall t :: 0 <= t < 3 ==> 0 <= zs[t] < c.nz
    ensures forall v :: v in Row(x, y, zs, c) ==> 0 <= v < Total(c)
  {
    assert InGrid(x, y, zs[0], c) && InGrid(x, y, zs[1], c) && InGrid(x, y, zs[2], c);
  }

  /** Every cell gets 27 neighbour entries, the first is the cell itself, and all lie in the grid. */
  lemma StencilInRange(i: int, j: int, k: int, c: CellCounts)
    requires InGrid(i, j, k, c)
    ensures Stencil(i, j, k, c)[0] == Index(i, j, k, c)
    ensures forall v :: v in Stencil(i, j, k, c) ==> 0 <= v < Total(c)
  {
    WrapIsPeriodic(i, c.nx);
    WrapIsPeriodic(j, c.ny);
    WrapIsPeriodic(k, c.nz);
    StencilOfInRange(Axis(i, c.nx), Axis(j, c.ny), Axis(k, c.nz), c);
  }

  /** The stencil of the cell with a given index. */
  function StencilAt(cell: int, c: CellCounts): (r: seq<int>)
    requires Positive(c)
    ensures |r| == 27
  {
    Stencil(CoordsOf(cell, c).0, CoordsOf(cell, c).1, CoordsOf(cell, c).2, c)
  }

  // --------------------------------------------------- cell of a position

  /** q - floor(q): the fractional part, in [0, 1). */
  function Frac(q: real): (r: real)
    ensures 0.0 <= r < 1.0
  {
    q - q.Floor as real
  }

  /** floor((p/d - floor(p/d)) * count): the cell a coordinate falls into along one axis. */
  function CellCoord(p: real, d: real, count: int): int
    requires d != 0.0
  {
    (Frac(p / d) * count as real).Floor
  }

  lemma ScaledFraction(f: real, n: real)
    requires 0.0 <= f < 1.0 && n >= 1.0
    ensures 0.0 <= f * n < n
  {
    assert n - f * n == (1.0 - f) * n;
  }

  lemma FloorBelow(x: real, n: int)
    requires 0.0 <= x < n as real
    ensures 0 <= x.Floor < n
  {
  }

  /** With exact arithmetic and a positive box length, the coordinate lies in 0..count-1. */
  lemma CellCoordInRange(p: real, d: real, count: int)
    requires d > 0.0 && count >= 1
    ensures 0 <= CellCoord(p, d, count) < count
  {
    var f := Frac(p / d);
    ScaledFraction(f, count as real);
    FloorBelow(f * count as real, count);
  }

  predicate PositiveBox(dims: Vec3) { dims.x > 0.0 && dims.y > 0.0 && dims.z > 0.0 }

  /** The cell a molecule is placed in: that of its first atom. */
  function CellOf(m: Molecule, dims: Vec3, c: CellCounts): int
    requires |m.atoms| > 0 && PositiveBox(dims)
  {
    var p := m.atoms[0].position;
    Index(CellCoord(p.x, dims.x, c.nx), CellCoord(p.y, dims.y, c.ny), CellCoord(p.z, dims.z, c.nz), c)
  }

  /** Every molecule falls into one of the Total(c) cells. */
  lemma CellOfInRange(m: Molecule, dims: Vec3, c: CellCounts)
    requires |m.atoms| > 0 && PositiveBox(dims) && Positive(c)
    ensures 0 <= CellOf(m, dims, c) < Total(c)
  {
    var p := m.atoms[0].position;
    CellCoordInRange(p.x, dims.x, c.nx);
    CellCoordInRange(p.y, dims.y, c.ny);
    CellCoordInRange(p.z, dims.z, c.nz);
  }

  predicate InCell(m: Molecule, dims: Vec3, c: CellCounts, cell: int)
  {
    |m.atoms| > 0 && PositiveBox(dims) && CellOf(m, dims, c) == cell
  }

  function InCellTest(dims: Vec3, c: CellCounts, cell: int): Molecule -> bool
  {
    m => InCell(m, dims, c, cell)
  }

  // ----------------------------------------------- the y-axis wrap as written

  /** The stencil as getCellList builds it: the y axis is wrapped with the x count. */
  function StencilAsWritten(i: int, j: int, k: int, c: CellCounts): (r: seq<int>)
    ensures |r| == 27
  {
    StencilOf(Axis(i, c.nx), Axis(j, c.nx), Axis(k, c.nz), c)
  }

  /**
   * With 3 x 1 x 1 cells, cell 0's y-neighbour right(0) = 1 is wrapped with
   * Nx = 3 instead of Ny = 1, so its fourth entry is 0 + 1*3 + 0 = 3, outside
   * the three cells; the per-axis stencil of the same cell stays in range.
   */
  lemma StencilAsWrittenOutOfRange()
    ensures InGrid(0, 0, 0, CellCounts(3, 1, 1))
    ensures StencilAsWritten(0, 0, 0, CellCounts(3, 1, 1))[3] == 3 == Total(CellCounts(3, 1, 1))
    ensures forall v :: v in Stencil(0, 0, 0, CellCounts(3, 1, 1)) ==> v < Total(CellCounts(3, 1, 1))
  {
    var c := CellCounts(3, 1, 1);
    var xs, ys, zs := Axis(0, c.nx), Axis(0, c.nx), Axis(0, c.nz);
    WrapIsPeriodic(0, 3);
    assert ys[1] == 1;
    StencilFourthEntry(xs, ys, zs, c);
    assert Index(0, 1, 0, c) == 3;
    StencilInRange(0, 0, 0, c);
  }

  /** Entry 3 of a stencil is the first x, the second y and the first z. */
  lemma StencilFourthEntry(xs: seq<int>, ys: seq<int>, zs: seq<int>, c: CellCounts)
    requires |xs| == 3 && |ys| == 3 && |zs| == 3
    ensures StencilOf(xs, ys, zs, c)[3] == Index(xs[0], ys[1], zs[0], c)
  {
    assert StencilOf(xs, ys, zs, c)[3] == Plane(xs[0], ys, zs, c)[3];
    assert Plane(xs[0], ys, zs, c)[3] == Row(xs[0], ys[1], zs, c)[0];
  }
}
