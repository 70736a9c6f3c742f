/** The pressure projection `project(w, h, u, v, p, div)`: it writes the
    discrete divergence of (u, v) into div and zeros into p, sets the border of
    both with setWall of kind 0, relaxes p towards div with ten sweeps of the
    stencil (div + sum of the four neighbours of p) / 4, and subtracts the
    pressure gradient from u and v, whose borders are then set with kinds 1
    and 2. The grid spacing is 1 / w for both axes. */
module Projection {
  import opened Layout
  import opened Walls
  import opened CellFill
  import opened Relaxation

  /** The divergence expression of project's first loop. */
  function Divergence(spacing: real, right: real, left: real, above: real, below: real): real
  {
    -0.5 * spacing * (right - left + above - below)
  }

  /** The gradient term project subtracts from a velocity cell. */
  function Gradient(spacing: real, next: real, prev: real): real
    requires spacing != 0.0
  {
    0.5 * (next - prev) / spacing
  }

  /** The divergence project writes into interior cell (x, y) of div. */
  ghost function DivAt(w: nat, h: nat, u: seq<real>, v: seq<real>, x: int, y: int): real
    requires w >= 1 && |u| == Size(w, h) && |v| == Size(w, h) && Inside(w, h, x, y)
  {
    IndexRange(w, h);
    Divergence(1.0 / (w as real), u[Index(w, x + 1, y)], u[Index(w, x - 1, y)],
               v[Index(w, x, y + 1)], v[Index(w, x, y - 1)])
  }

  /** The new interior cell (x, y) of u after the gradient subtraction. */
  ghost function GradUAt(w: nat, h: nat, u: seq<real>, p: seq<real>, x: int, y: int): real
    requires w >= 1 && |u| == Size(w, h) && |p| == Size(w, h) && Inside(w, h, x, y)
  {
    IndexRange(w, h);
    u[Index(w, x, y)] - Gradient(1.0 / (w as real), p[Index(w, x + 1, y)], p[Index(w, x - 1, y)])
  }

  /** The new interior cell (x, y) of v after the gradient subtraction. */
  ghost function GradVAt(w: nat, h: nat, v: seq<real>, p: seq<real>, x: int, y: int): real
    requires w >= 1 && |v| == Size(w, h) && |p| == Size(w, h) && Inside(w, h, x, y)
  {
    IndexRange(w, h);
    v[Index(w, x, y)] - Gradient(1.0 / (w as real), p[Index(w, x, y + 1)], p[Index(w, x, y - 1)])
  }

  ghost function DivField(w: nat, h: nat, u: seq<real>, v: seq<real>): (int, int) -> real
    requires w >= 1 && |u| == Size(w, h) && |v| == Size(w, h)
  {
    (x, y) => if Inside(w, h, x, y) then DivAt(w, h, u, v, x, y) else 0.0
  }

  ghost function GradUField(w: nat, h: nat, u: seq<real>, p: seq<real>): (int, int) -> real
    requires w >= 1 && |u| == Size(w, h) && |p| == Size(w, h)
  {
    (x, y) => if Inside(w, h, x, y) then GradUAt(w, h, u, p, x, y) else 0.0
  }

  ghost function GradVField(w: nat, h: nat, v: seq<real>, p: seq<real>): (int, int) -> real
    requires w >= 1 && |v| == Size(w, h) && |p| == Size(w, h)
  {
    (x, y) => if Inside(w, h, x, y) then GradVAt(w, h, v, p, x, y) else 0.0
  }

  /** f gives DivAt on every interior cell; the loops are proved against such
      an f so that their proofs do not apply the closure. */
  ghost predicate DivergesTo(w: nat, h: nat, f: (int, int) -> real, u: seq<real>, v: seq<real>)
  {
    w >= 1 && |u| == Size(w, h) && |v| == Size(w, h) &&
    forall x, y {:trigger DivAt(w, h, u, v, x, y)} :: Inside(w, h, x, y) ==> f(x, y) == DivAt(w, h, u, v, x, y)
  }

  /** fu and fv give GradUAt and GradVAt on every interior cell. */
  ghost predicate SubtractsGradient(w: nat, h: nat, fu: (int, int) -> real, fv: (int, int) -> real,
                                    u: seq<real>, v: seq<real>, p: seq<real>)
  {
    w >= 1 && |u| == Size(w, h) && |v| == Size(w, h) && |p| == Size(w, h) &&
    (forall x, y {:trigger GradUAt(w, h, u, p, x, y)} :: Inside(w, h, x, y) ==> fu(x, y) == GradUAt(w, h, u, p, x, y)) &&
    (forall x, y {:trigger GradVAt(w, h, v, p, x, y)} :: Inside(w, h, x, y) ==> fv(x, y) == GradVAt(w, h, v, p, x, y))
  }

  lemma DivFieldDiverges(w: nat, h: nat, u: seq<real>, v: seq<real>)
    requires w >= 1 && |u| == Size(w, h) && |v| == Size(w, h)
    ensures DivergesTo(w, h, DivField(w, h, u, v), u, v)
  {
  }

  lemma GradFieldsSubtract(w: nat, h: nat, u: seq<real>, v: seq<real>, p: seq<real>)
    requires w >= 1 && |u| == Size(w, h) && |v| == Size(w, h) && |p| == Size(w, h)
    ensures SubtractsGradient(w, h, GradUField(w, h, u, p), GradVField(w, h, v, p), u, v, p)
  {
  }

  /** div after project: the divergence of (u, v) with the kind-0 border. */
  ghost function ProjectDivergence(w: nat, h: nat, u: seq<real>, v: seq<real>, div: seq<real>): (r: seq<real>)
    requires w >= 1 && h >= 1 && |u| == Size(w, h) && |v| == Size(w, h) && |div| == Size(w, h)
    ensures |r| == Size(w, h)
  {
    Walled(w, h, 0, Filled(w, h, div, DivField(w, h, u, v)))
  }

  /** p as the relaxation starts: zeros in the interior, kind-0 border. */
  ghost function PressureStart(w: nat, h: nat, p: seq<real>): (r: seq<real>)
    requires w >= 1 && h >= 1 && |p| == Size(w, h)
    ensures |r| == Size(w, h)
  {
    Walled(w, h, 0, Filled(w, h, p, Constant(0.0)))
  }

  /** p after project: ten sweeps of (div + neighbours) / 4 from PressureStart. */
  ghost function ProjectPressure(w: nat, h: nat, u: seq<real>, v: seq<real>, div: seq<real>, p: seq<real>): (r: seq<real>)
    requires w >= 1 && h >= 1 && |u| == Size(w, h) && |v| == Size(w, h) && |div| == Size(w, h) && |p| == Size(w, h)
    ensures |r| == Size(w, h)
  {
    Relaxed(w, h, 0, ProjectDivergence(w, h, u, v, div), PressureStart(w, h, p), 1.0, 4.0, Sweeps)
  }

  /** u after project, given the final pressure p: kind-1 border. */
  ghost function ProjectU(w: nat, h: nat, u: seq<real>, p: seq<real>): (r: seq<real>)
    requires w >= 1 && h >= 1 && |u| == Size(w, h) && |p| == Size(w, h)
    ensures |r| == Size(w, h)
  {
    Walled(w, h, 1, Filled(w, h, u, GradUField(w, h, u, p)))
  }

  /** v after project, given the final pressure p: kind-2 border. */
  ghost function ProjectV(w: nat, h: nat, v: seq<real>, p: seq<real>): (r: seq<real>)
    requires w >= 1 && h >= 1 && |v| == Size(w, h) && |p| == Size(w, h)
    ensures |r| == Size(w, h)
  {
    Walled(w, h, 2, Filled(w, h, v, GradVField(w, h, v, p)))
  }

  /** Every interior cell of div after project is the divergence of (u, v)
      there, and the border follows kind 0; the old div does not matter. */
  lemma ProjectDivergenceCells(w: nat, h: nat, u: seq<real>, v: seq<real>, div: seq<real>)
    requires w >= 1 && h >= 1 && |u| == Size(w, h) && |v| == Size(w, h) && |div| == Size(w, h)
    ensures forall x, y :: Inside(w, h, x, y) ==>
      0 <= Index(w, x, y) < Size(w, h) &&
      ProjectDivergence(w, h, u, v, div)[Index(w, x, y)] == DivAt(w, h, u, v, x, y)
    ensures WallPolicy(w, h, 0, ProjectDivergence(w, h, u, v, div))
  {
    var t := Filled(w, h, div, DivField(w, h, u, v));
    FilledCells(w, h, div, DivField(w, h, u, v));
    WalledPolicy(w, h, 0, t);
    IndexRange(w, h);
  }

  /** The relaxation starts from an all-zero pressure, so the incoming p has
      no effect on the result of project. */
  lemma PressureStartZeros(w: nat, h: nat, p: seq<real>)
    requires w >= 1 && h >= 1 && |p| == Size(w, h)
    ensures PressureStart(w, h, p) == Zeros(Size(w, h))
  {
    WalledFillZeros(w, h, 0, p, Constant(0.0));
  }

  /** The pressure after project follows the kind-0 border. */
  lemma ProjectPressureWalls(w: nat, h: nat, u: seq<real>, v: seq<real>, div: seq<real>, p: seq<real>)
    requires w >= 1 && h >= 1 && |u| == Size(w, h) && |v| == Size(w, h) && |div| == Size(w, h) && |p| == Size(w, h)
    ensures WallPolicy(w, h, 0, ProjectPressure(w, h, u, v, div, p))
  {
    RelaxedWalls(w, h, 0, ProjectDivergence(w, h, u, v, div), PressureStart(w, h, p), 1.0, 4.0, Sweeps);
  }

  /** Every interior cell of u loses half the central difference of p along x
      over the spacing; the border is reflected with kind 1. */
  lemma ProjectUCells(w: nat, h: nat, u: seq<real>, p: seq<real>)
    requires w >= 1 && h >= 1 && |u| == Size(w, h) && |p| == Size(w, h)
    ensures forall x, y :: Inside(w, h, x, y) ==>
      0 <= Index(w, x, y) < Size(w, h) &&
      ProjectU(w, h, u, p)[Index(w, x, y)] == GradUAt(w, h, u, p, x, y)
    ensures WallPolicy(w, h, 1, ProjectU(w, h, u, p))
  {
    var t := Filled(w, h, u, GradUField(w, h, u, p));
    FilledCells(w, h, u, GradUField(w, h, u, p));
    WalledPolicy(w, h, 1, t);
    IndexRange(w, h);
  }

  /** The same along y for v, with the kind-2 border. */
  lemma ProjectVCells(w: nat, h: nat, v: seq<real>, p: seq<real>)
    requires w >= 1 && h >= 1 && |v| == Size(w, h) && |p| == Size(w, h)
    ensures forall x, y :: Inside(w, h, x, y) ==>
      0 <= Index(w, x, y) < Size(w, h) &&
      ProjectV(w, h, v, p)[Index(w, x, y)] == GradVAt(w, h, v, p, x, y)
    ensures WallPolicy(w, h, 2, ProjectV(w, h, v, p))
  {
    var t := Filled(w, h, v, GradVField(w, h, v, p));
    FilledCells(w, h, v, GradVField(w, h, v, p));
    WalledPolicy(w, h, 2, t);
    IndexRange(w, h);
  }

  lemma DivFieldZeros(w: nat, h: nat)
    requires w >= 1
    ensures forall x, y :: Inside(w, h, x, y) ==> DivField(w, h, Zeros(Size(w, h)), Zeros(Size(w, h)))(x, y) == 0.0
  {
    IndexRange(w, h);
  }

  lemma GradFieldsZeros(w: nat, h: nat)
    requires w >= 1
    ensures forall x, y :: Inside(w, h, x, y) ==> GradUField(w, h, Zeros(Size(w, h)), Zeros(Size(w, h)))(x, y) == 0.0
    ensures forall x, y :: Inside(w, h, x, y) ==> GradVField(w, h, Zeros(Size(w, h)), Zeros(Size(w, h)))(x, y) == 0.0
  {
    IndexRange(w, h);
  }

  /** Projecting the zero velocity field gives zero divergence, zero
      pressure and the zero velocity field, whatever p and div held. */
  lemma ProjectZeros(w: nat, h: nat, div: seq<real>, p: seq<real>)
    requires w >= 1 && h >= 1 && |div| == Size(w, h) && |p| == Size(w, h)
    ensures var z := Zeros(Size(w, h));
      ProjectDivergence(w, h, z, z, div) == z &&
      ProjectPressure(w, h, z, z, div, p) == z &&
      ProjectU(w, h, z, z) == z && ProjectV(w, h, z, z) == z
  {
    var z := Zeros(Size(w, h));
    DivFieldZeros(w, h);
    WalledFillZeros(w, h, 0, div, DivField(w, h, z, z));
    PressureStartZeros(w, h, p);
    RelaxedZeros(w, h, 0, 1.0, 4.0, Sweeps);
    GradFieldsZeros(w, h);
    WalledFillZeros(w, h, 1, z, GradUField(w, h, z, z));
    WalledFillZeros(w, h, 2, z, GradVField(w, h, z, z));
  }

  /** project(w, h, u, v, p, div) on four distinct buffers. */
  method Project(w: nat, h: nat, u: array<real>, v: array<real>, p: array<real>, div: array<real>)
    requires w >= 1 && h >= 1
    requires u.Length == Size(w, h) && v.Length == Size(w, h) && p.Length == Size(w, h) && div.Length == Size(w, h)
    requires u != v && u != p && u != div && v != p && v != div && p != div
    modifies u, v, p, div
    ensures div[..] == ProjectDivergence(w, h, old(u[..]), old(v[..]), old(div[..]))
    ensures p[..] == ProjectPressure(w, h, old(u[..]), old(v[..]), old(div[..]), old(p[..]))
    ensures u[..] == ProjectU(w, h, old(u[..]), p[..])
    ensures v[..] == ProjectV(w, h, old(v[..]), p[..])
  {
    var spacing := 1.0 / (w as real);
    DivFieldDiverges(w, h, u[..], v[..]);
    DivergenceLoop(w, h, u, v, p, div, spacing, DivField(w, h, u[..], v[..]));
    SetWall(w, h, 0, div);
    SetWall(w, h, 0, p);
    Relax(w, h, 0, p, div, 1.0, 4.0);
    GradFieldsSubtract(w, h, u[..], v[..], p[..]);
    GradientLoop(w, h, u, v, p, spacing, GradUField(w, h, u[..], p[..]), GradVField(w, h, v[..], p[..]));
    SetWall(w, h, 1, u);
    SetWall(w, h, 2, v);
  }

  /** The first double loop of project: div gets the divergence, p gets 0. */
  method DivergenceLoop(w: nat, h: nat, u: array<real>, v: array<real>, p: array<real>, div: array<real>,
                        spacing: real, ghost f: (int, int) -> real)
    requires w >= 1 && h >= 1 && spacing == 1.0 / (w as real)
    requires p.Length == Size(w, h) && div.Length == Size(w, h)
    requires u != p && u != div && v != p && v != div && p != div
    requires DivergesTo(w, h, f, u[..], v[..])
    modifies p, div
    ensures div[..] == Filled(w, h, old(div[..]), f)
    ensures p[..] == Filled(w, h, old(p[..]), Constant(0.0))
  {
    for i := 1 to w + 1
      invariant div[..] == FillColumns(w, h, old(div[..]), f, i - 1)
      invariant p[..] == FillColumns(w, h, old(p[..]), Constant(0.0), i - 1)
    {
      DivergenceColumn(w, h, u, v, p, div, spacing, i, f);
    }
  }

  method DivergenceColumn(w: nat, h: nat, u: array<real>, v: array<real>, p: array<real>, div: array<real>,
                          spacing: real, i: int, ghost f: (int, int) -> real)
    requires w >= 1 && h >= 1 && spacing == 1.0 / (w as real) && 1 <= i <= w
    requires p.Length == Size(w, h) && div.Length == Size(w, h)
    requires u != p && u != div && v != p && v != div && p != div
    requires DivergesTo(w, h, f, u[..], v[..])
    modifies p, div
    ensures div[..] == FillColumn(w, h, old(div[..]), f, i, h)
    ensures p[..] == FillColumn(w, h, old(p[..]), Constant(0.0), i, h)
  {
    for j := 1 to h + 1
      invariant div[..] == FillColumn(w, h, old(div[..]), f, i, j - 1)
      invariant p[..] == FillColumn(w, h, old(p[..]), Constant(0.0), i, j - 1)
    {
      ghost var d, q := div[..], p[..];
      IndexInRange(w, h, i, j);
      IndexInRange(w, h, i - 1, j);
      IndexInRange(w, h, i + 1, j);
      IndexInRange(w, h, i, j - 1);
      IndexInRange(w, h, i, j + 1);
      var value := Divergence(spacing, u[Index(w, i + 1, j)], u[Index(w, i - 1, j)],
                              v[Index(w, i, j + 1)], v[Index(w, i, j - 1)]);
      assert value == DivAt(w, h, u[..], v[..], i, j);
      div[Index(w, i, j)] := value;
      p[Index(w, i, j)] := 0.0;
      assert div[..] == d[Index(w, i, j) := f(i, j)];
      assert p[..] == q[Index(w, i, j) := Constant(0.0)(i, j)];
    }
  }

  /** The last double loop of project: each interior cell of u and v loses
      the pressure gradient along its axis. */
  method GradientLoop(w: nat, h: nat, u: array<real>, v: array<real>, p: array<real>, spacing: real,
                      ghost fu: (int, int) -> real, ghost fv: (int, int) -> real)
    requires w >= 1 && h >= 1 && spacing == 1.0 / (w as real)
    requires u.Length == Size(w, h) && v.Length == Size(w, h)
    requires u != v && u != p && v != p
    requires SubtractsGradient(w, h, fu, fv, u[..], v[..], p[..])
    modifies u, v
    ensures u[..] == Filled(w, h, old(u[..]), fu)
    ensures v[..] == Filled(w, h, old(v[..]), fv)
  {
    ghost var u0, v0 := u[..], v[..];
    for i := 1 to w + 1
      invariant u[..] == FillColumns(w, h, u0, fu, i - 1)
      invariant v[..] == FillColumns(w, h, v0, fv, i - 1)
    {
      GradientColumn(w, h, u, v, p, spacing, i, fu, fv, u0, v0);
    }
  }

  method GradientColumn(w: nat, h: nat, u: array<real>, v: array<real>, p: array<real>, spacing: real, i: int,
                        ghost fu: (int, int) -> real, ghost fv: (int, int) -> real, ghost u0: seq<real>, ghost v0: seq<real>)
    requires w >= 1 && h >= 1 && spacing == 1.0 / (w as real) && 1 <= i <= w
    requires u != v && u != p && v != p
    requires SubtractsGradient(w, h, fu, fv, u0, v0, p[..])
    requires u[..] == FillColumns(w, h, u0, fu, i - 1)
    requires v[..] == FillColumns(w, h, v0, fv, i - 1)
    modifies u, v
    ensures u[..] == FillColumns(w, h, u0, fu, i)
    ensures v[..] == FillColumns(w, h, v0, fv, i)
  {
    for j := 1 to h + 1
      invariant u[..] == FillColumn(w, h, FillColumns(w, h, u0, fu, i - 1), fu, i, j - 1)
      invariant v[..] == FillColumn(w, h, FillColumns(w, h, v0, fv, i - 1), fv, i, j - 1)
    {
      ghost var a, c := u[..], v[..];
      IndexInRange(w, h, i, j);
      IndexInRange(w, h, i - 1, j);
      IndexInRange(w, h, i + 1, j);
      IndexInRange(w, h, i, j - 1);
      IndexInRange(w, h, i, j + 1);
      FillAhead(w, h, u0, fu, i, j);
      FillAhead(w, h, v0, fv, i, j);
      var du := u[Index(w, i, j)] - Gradient(spacing, p[Index(w, i + 1, j)], p[Index(w, i - 1, j)]);
      var dv := v[Index(w, i, j)] - Gradient(spacing, p[Index(w, i, j + 1)], p[Index(w, i, j - 1)]);
      assert du == GradUAt(w, h, u0, p[..], i, j);
      assert dv == GradVAt(w, h, v0, p[..], i, j);
      u[Index(w, i, j)] := du;
      v[Index(w, i, j)] := dv;
      assert u[..] == a[Index(w, i, j) := fu(i, j)];
      assert v[..] == c[Index(w, i, j) := fv(i, j)];
    }
  }
}
