/** The semi-Lagrangian transport step `advect`: every interior cell traces
    its position back along the velocity field for one time step, clamps the
    traced point into [0.5, w + 0.5] x [0.5, h + 0.5], and takes the bilinear
    interpolation of the source buffer at that point; setWall of the buffer's
    kind follows. */
module Advection {
  import opened Layout
  import opened Walls
  import opened CellFill

  /** Clamping of a traced coordinate into [0.5, n + 0.5]: first the lower
      bound, then the upper bound. */
  function Clamp(c: real, n: nat): (r: real)
    ensures 0.5 <= r <= n as real + 0.5
    ensures 0.5 <= c <= n as real + 0.5 ==> r == c
  {
    var lower := if c < 0.5 then 0.5 else c;
    if lower > n as real + 0.5 then n as real + 0.5 else lower
  }

  /** The four grid nodes around a traced point and the bilinear weights:
      columns i0, i1 with weights s0, s1 and rows j0, j1 with weights t0, t1. */
  datatype Sample = Sample(i0: int, i1: int, j0: int, j1: int, s0: real, s1: real, t0: real, t1: real)

  /** The weights of a sample form two convex combinations. */
  predicate Convex(p: Sample)
  {
    p.s0 + p.s1 == 1.0 && p.t0 + p.t1 == 1.0 &&
    0.0 <= p.s0 <= 1.0 && 0.0 <= p.s1 <= 1.0 && 0.0 <= p.t0 <= 1.0 && 0.0 <= p.t1 <= 1.0
  }

  /** The back-traced sample of cell (i, j) for velocity (uc, vc); `parseInt`
      of the clamped coordinate, which is at least 0.5, is its floor. */
  function Backtrace(w: nat, h: nat, dt: real, uc: real, vc: real, i: int, j: int): (p: Sample)
    ensures 0 <= p.i0 <= w && p.i1 == p.i0 + 1 && 0 <= p.j0 <= h && p.j1 == p.j0 + 1
    ensures Convex(p)
  {
    var x := Clamp(i as real - dt * (w as real) * uc, w);
    var y := Clamp(j as real - dt * (h as real) * vc, h);
    var i0 := x.Floor;
    var j0 := y.Floor;
    var s1 := x - i0 as real;
    var t1 := y - j0 as real;
    Sample(i0, i0 + 1, j0, j0 + 1, 1.0 - s1, s1, 1.0 - t1, t1)
  }

  /** All four nodes of a back-traced sample lie on the bordered grid. */
  lemma BacktraceInGrid(w: nat, h: nat, dt: real, uc: real, vc: real, i: int, j: int)
    ensures var p := Backtrace(w, h, dt, uc, vc, i, j);
      InGrid(w, h, p.i0, p.j0) && InGrid(w, h, p.i0, p.j1) &&
      InGrid(w, h, p.i1, p.j0) && InGrid(w, h, p.i1, p.j1)
  {
  }

  /** With no velocity an interior cell samples itself with full weight. */
  lemma BacktraceStill(w: nat, h: nat, dt: real, i: int, j: int)
    requires Inside(w, h, i, j)
    ensures Backtrace(w, h, dt, 0.0, 0.0, i, j) == Sample(i, i + 1, j, j + 1, 1.0, 0.0, 1.0, 0.0)
  {
  }

  /** The sample Backtrace builds from the two clamped coordinates. */
  lemma BacktraceOf(w: nat, h: nat, dt: real, uc: real, vc: real, i: int, j: int, cx: real, cy: real)
    requires cx == Clamp(i as real - dt * (w as real) * uc, w)
    requires cy == Clamp(j as real - dt * (h as real) * vc, h)
    ensures Backtrace(w, h, dt, uc, vc, i, j) ==
      Sample(cx.Floor, cx.Floor + 1, cy.Floor, cy.Floor + 1,
             1.0 - (cx - cx.Floor as real), cx - cx.Floor as real,
             1.0 - (cy - cy.Floor as real), cy - cy.Floor as real)
  {
  }

  /** The bilinear interpolation of the four node values. */
  function Interpolate(p: Sample, a00: real, a01: real, a10: real, a11: real): real
  {
    p.s0 * (p.t0 * a00 + p.t1 * a01) + p.s1 * (p.t0 * a10 + p.t1 * a11)
  }

  function Min(a: real, b: real): real
  {
    if a <= b then a else b
  }

  function Max(a: real, b: real): real
  {
    if a <= b then b else a
  }

  lemma MulNonneg(c: real, a: real)
    requires 0.0 <= c && 0.0 <= a
    ensures 0.0 <= c * a
  {
  }

  /** A convex combination of two values in [lo, hi] is in [lo, hi]. */
  lemma Between(c0: real, c1: real, a: real, b: real, lo: real, hi: real)
    requires c0 + c1 == 1.0 && 0.0 <= c0 && 0.0 <= c1
    requires lo <= a <= hi && lo <= b <= hi
    ensures lo <= c0 * a + c1 * b <= hi
  {
    MulNonneg(c0, a - lo);
    MulNonneg(c1, b - lo);
    MulNonneg(c0, hi - a);
    MulNonneg(c1, hi - b);
    assert c0 * a + c1 * b - lo == c0 * (a - lo) + c1 * (b - lo) by {
      assert lo == c0 * lo + c1 * lo;
    }
    assert hi - (c0 * a + c1 * b) == c0 * (hi - a) + c1 * (hi - b) by {
      assert hi == c0 * hi + c1 * hi;
    }
  }

  /** Bilinear interpolation with convex weights of four values in [lo, hi]
      is in [lo, hi]. */
  lemma InterpolateWithin(p: Sample, a00: real, a01: real, a10: real, a11: real, lo: real, hi: real)
    requires Convex(p)
    requires lo <= a00 <= hi && lo <= a01 <= hi && lo <= a10 <= hi && lo <= a11 <= hi
    ensures lo <= Interpolate(p, a00, a01, a10, a11) <= hi
  {
    var left := p.t0 * a00 + p.t1 * a01;
    var right := p.t0 * a10 + p.t1 * a11;
    Between(p.t0, p.t1, a00, a01, lo, hi);
    Between(p.t0, p.t1, a10, a11, lo, hi);
    Between(p.s0, p.s1, left, right, lo, hi);
  }

  lemma MinMaxBound(a00: real, a01: real, a10: real, a11: real)
    ensures var lo := Min(Min(a00, a01), Min(a10, a11));
      lo <= a00 && lo <= a01 && lo <= a10 && lo <= a11
    ensures var hi := Max(Max(a00, a01), Max(a10, a11));
      a00 <= hi && a01 <= hi && a10 <= hi && a11 <= hi
  {
  }

  /** Bilinear interpolation with convex weights stays between the smallest
      and the largest of the four node values. */
  lemma InterpolateBetween(p: Sample, a00: real, a01: real, a10: real, a11: real)
    requires Convex(p)
    ensures Min(Min(a00, a01), Min(a10, a11)) <= Interpolate(p, a00, a01, a10, a11)
    ensures Interpolate(p, a00, a01, a10, a11) <= Max(Max(a00, a01), Max(a10, a11))
  {
    MinMaxBound(a00, a01, a10, a11);
    InterpolateWithin(p, a00, a01, a10, a11, Min(Min(a00, a01), Min(a10, a11)), Max(Max(a00, a01), Max(a10, a11)));
  }

  /** The value advect writes into interior cell (i, j). */
  ghost function AdvectAt(w: nat, h: nat, d0: seq<real>, u: seq<real>, v: seq<real>, dt: real, i: int, j: int): real
    requires |d0| == Size(w, h) && |u| == Size(w, h) && |v| == Size(w, h) && InGrid(w, h, i, j)
  {
    IndexRange(w, h);
    var p := Backtrace(w, h, dt, u[Index(w, i, j)], v[Index(w, i, j)], i, j);
    Interpolate(p, d0[Index(w, p.i0, p.j0)], d0[Index(w, p.i0, p.j1)],
                   d0[Index(w, p.i1, p.j0)], d0[Index(w, p.i1, p.j1)])
  }

  /** AdvectAt as the cell function of the interior double loop. */
  ghost function AdvectField(w: nat, h: nat, d0: seq<real>, u: seq<real>, v: seq<real>, dt: real): (int, int) -> real
    requires |d0| == Size(w, h) && |u| == Size(w, h) && |v| == Size(w, h)
  {
    (x, y) => if InGrid(w, h, x, y) then AdvectAt(w, h, d0, u, v, dt, x, y) else 0.0
  }

  /** The buffer advect(w, h, b, d, d0, u, v, dt) leaves in d. */
  ghost function Advected(w: nat, h: nat, b: int, d: seq<real>, d0: seq<real>, u: seq<real>, v: seq<real>, dt: real): (r: seq<real>)
    requires w >= 1 && h >= 1
    requires |d| == Size(w, h) && |d0| == Size(w, h) && |u| == Size(w, h) && |v| == Size(w, h)
    ensures |r| == |d|
  {
    Walled(w, h, b, Filled(w, h, d, AdvectField(w, h, d0, u, v, dt)))
  }

  /** Every interior cell of the result is AdvectAt, and the ghost border
      follows the wall policy of kind b. */
  lemma AdvectedCells(w: nat, h: nat, b: int, d: seq<real>, d0: seq<real>, u: seq<real>, v: seq<real>, dt: real)
    requires w >= 1 && h >= 1
    requires |d| == Size(w, h) && |d0| == Size(w, h) && |u| == Size(w, h) && |v| == Size(w, h)
    ensures forall x, y :: Inside(w, h, x, y) ==>
      0 <= Index(w, x, y) < |d| &&
      Advected(w, h, b, d, d0, u, v, dt)[Index(w, x, y)] == AdvectAt(w, h, d0, u, v, dt, x, y)
    ensures WallPolicy(w, h, b, Advected(w, h, b, d, d0, u, v, dt))
  {
    var t := Filled(w, h, d, AdvectField(w, h, d0, u, v, dt));
    FilledCells(w, h, d, AdvectField(w, h, d0, u, v, dt));
    WalledPolicy(w, h, b, t);
    IndexRange(w, h);
  }

  /** A cell with zero velocity reads its own cell of d0. */
  lemma AdvectAtStill(w: nat, h: nat, d0: seq<real>, u: seq<real>, v: seq<real>, dt: real, i: int, j: int)
    requires |d0| == Size(w, h) && |u| == Size(w, h) && |v| == Size(w, h) && Inside(w, h, i, j)
    requires 0 <= Index(w, i, j) < Size(w, h) && u[Index(w, i, j)] == 0.0 && v[Index(w, i, j)] == 0.0
    ensures AdvectAt(w, h, d0, u, v, dt, i, j) == d0[Index(w, i, j)]
  {
    BacktraceStill(w, h, dt, i, j);
    IndexRange(w, h);
  }

  /** With an all-zero velocity field advect copies d0 and enforces the walls. */
  lemma AdvectStill(w: nat, h: nat, b: int, d: seq<real>, d0: seq<real>, u: seq<real>, v: seq<real>, dt: real)
    requires w >= 1 && h >= 1
    requires |d| == Size(w, h) && |d0| == Size(w, h) && |u| == Size(w, h) && |v| == Size(w, h)
    requires forall k :: 0 <= k < |u| ==> u[k] == 0.0 && v[k] == 0.0
    ensures Advected(w, h, b, d, d0, u, v, dt) == Walled(w, h, b, d0)
  {
    var t := Filled(w, h, d, AdvectField(w, h, d0, u, v, dt));
    FilledCells(w, h, d, AdvectField(w, h, d0, u, v, dt));
    IndexRange(w, h);
    forall x, y | Inside(w, h, x, y)
      ensures t[Index(w, x, y)] == d0[Index(w, x, y)]
    {
      AdvectAtStill(w, h, d0, u, v, dt, x, y);
    }
    WalledReadsInterior(w, h, b, t, d0);
  }

  lemma AdvectFieldZeros(w: nat, h: nat, u: seq<real>, v: seq<real>, dt: real)
    requires |u| == Size(w, h) && |v| == Size(w, h)
    ensures forall x, y :: Inside(w, h, x, y) ==> AdvectField(w, h, Zeros(Size(w, h)), u, v, dt)(x, y) == 0.0
  {
    IndexRange(w, h);
  }

  /** Advecting an all-zero buffer gives an all-zero buffer, whatever the
      velocity and whatever d held. */
  lemma AdvectZeros(w: nat, h: nat, b: int, d: seq<real>, u: seq<real>, v: seq<real>, dt: real)
    requires w >= 1 && h >= 1 && |d| == Size(w, h) && |u| == Size(w, h) && |v| == Size(w, h)
    ensures Advected(w, h, b, d, Zeros(Size(w, h)), u, v, dt) == Zeros(Size(w, h))
  {
    AdvectFieldZeros(w, h, u, v, dt);
    WalledFillZeros(w, h, b, d, AdvectField(w, h, Zeros(Size(w, h)), u, v, dt));
  }

  /** The smallest and the largest of the four cells of d0 a sample reads. */
  ghost function SampleMin(w: nat, h: nat, d0: seq<real>, p: Sample): real
    requires |d0| == Size(w, h) && 0 <= p.i0 <= w && p.i1 == p.i0 + 1 && 0 <= p.j0 <= h && p.j1 == p.j0 + 1
  {
    IndexRange(w, h);
    Min(Min(d0[Index(w, p.i0, p.j0)], d0[Index(w, p.i0, p.j1)]),
        Min(d0[Index(w, p.i1, p.j0)], d0[Index(w, p.i1, p.j1)]))
  }

  ghost function SampleMax(w: nat, h: nat, d0: seq<real>, p: Sample): real
    requires |d0| == Size(w, h) && 0 <= p.i0 <= w && p.i1 == p.i0 + 1 && 0 <= p.j0 <= h && p.j1 == p.j0 + 1
  {
    IndexRange(w, h);
    Max(Max(d0[Index(w, p.i0, p.j0)], d0[Index(w, p.i0, p.j1)]),
        Max(d0[Index(w, p.i1, p.j0)], d0[Index(w, p.i1, p.j1)]))
  }

  /** Each interior cell lies between the smallest and the largest of the four
      cells of d0 it samples. */
  lemma AdvectBetween(w: nat, h: nat, d0: seq<real>, u: seq<real>, v: seq<real>, dt: real, i: int, j: int, p: Sample)
    requires |d0| == Size(w, h) && |u| == Size(w, h) && |v| == Size(w, h) && Inside(w, h, i, j)
    requires 0 <= Index(w, i, j) < Size(w, h)
    requires p == Backtrace(w, h, dt, u[Index(w, i, j)], v[Index(w, i, j)], i, j)
    ensures SampleMin(w, h, d0, p) <= AdvectAt(w, h, d0, u, v, dt, i, j) <= SampleMax(w, h, d0, p)
  {
    IndexRange(w, h);
    InterpolateBetween(p, d0[Index(w, p.i0, p.j0)], d0[Index(w, p.i0, p.j1)],
                          d0[Index(w, p.i1, p.j0)], d0[Index(w, p.i1, p.j1)]);
  }

  /** f gives AdvectAt on every interior cell. The loops of advect are
      proved against such an f, so that their proofs never unfold AdvectAt. */
  ghost predicate AdvectsTo(w: nat, h: nat, f: (int, int) -> real, d0: seq<real>, u: seq<real>, v: seq<real>, dt: real)
  {
    |d0| == Size(w, h) && |u| == Size(w, h) && |v| == Size(w, h) &&
    forall x, y {:trigger AdvectAt(w, h, d0, u, v, dt, x, y)} ::
      Inside(w, h, x, y) ==> f(x, y) == AdvectAt(w, h, d0, u, v, dt, x, y)
  }

  lemma AdvectFieldAdvects(w: nat, h: nat, d0: seq<real>, u: seq<real>, v: seq<real>, dt: real)
    requires |d0| == Size(w, h) && |u| == Size(w, h) && |v| == Size(w, h)
    ensures AdvectsTo(w, h, AdvectField(w, h, d0, u, v, dt), d0, u, v, dt)
  {
  }

  /** advect(w, h, b, d, d0, u, v, dt): d must not be d0, u or v; d0 may be
      one of the velocity buffers. */
  method Advect(w: nat, h: nat, b: int, d: array<real>, d0: array<real>, u: array<real>, v: array<real>, dt: real)
    requires w >= 1 && h >= 1
    requires d.Length == Size(w, h) && d0.Length == Size(w, h) && u.Length == Size(w, h) && v.Length == Size(w, h)
    requires d != d0 && d != u && d != v
    modifies d
    ensures d[..] == Advected(w, h, b, old(d[..]), d0[..], u[..], v[..], dt)
  {
    AdvectFieldAdvects(w, h, d0[..], u[..], v[..], dt);
    AdvectInterior(w, h, d, d0, u, v, dt, AdvectField(w, h, d0[..], u[..], v[..], dt));
    SetWall(w, h, b, d);
  }

  /** The double loop of advect over the interior. */
  method AdvectInterior(w: nat, h: nat, d: array<real>, d0: array<real>, u: array<real>, v: array<real>, dt: real,
                        ghost f: (int, int) -> real)
    requires w >= 1 && h >= 1 && d.Length == Size(w, h)
    requires d != d0 && d != u && d != v
    requires AdvectsTo(w, h, f, d0[..], u[..], v[..], dt)
    modifies d
    ensures d[..] == Filled(w, h, old(d[..]), f)
  {
    var dt0x := dt * (w as real);
    var dt0y := dt * (h as real);
    for i := 1 to w + 1
      invariant d[..] == FillColumns(w, h, old(d[..]), f, i - 1)
    {
      AdvectColumn(w, h, d, d0, u, v, dt, dt0x, dt0y, i, f);
    }
  }

  /** Column i of advect's double loop. */
  method AdvectColumn(w: nat, h: nat, d: array<real>, d0: array<real>, u: array<real>, v: array<real>,
                      dt: real, dt0x: real, dt0y: real, i: int, ghost f: (int, int) -> real)
    requires w >= 1 && h >= 1 && 1 <= i <= w && dt0x == dt * (w as real) && dt0y == dt * (h as real)
    requires d.Length == Size(w, h) && d != d0 && d != u && d != v
    requires AdvectsTo(w, h, f, d0[..], u[..], v[..], dt)
    modifies d
    ensures d[..] == FillColumn(w, h, old(d[..]), f, i, h)
  {
    for j := 1 to h + 1
      invariant d[..] == FillColumn(w, h, old(d[..]), f, i, j - 1)
    {
      ghost var before := d[..];
      var value := AdvectCell(w, h, d0, u, v, dt, dt0x, dt0y, i, j, f);
      d[Index(w, i, j)] := value;
      assert d[..] == before[Index(w, i, j) := value];
    }
  }

  /** The value the body of advect's double loop computes for interior cell (i, j). */
  method AdvectCell(w: nat, h: nat, d0: array<real>, u: array<real>, v: array<real>,
                    dt: real, dt0x: real, dt0y: real, i: int, j: int, ghost f: (int, int) -> real) returns (value: real)
    requires w >= 1 && h >= 1 && Inside(w, h, i, j) && dt0x == dt * (w as real) && dt0y == dt * (h as real)
    requires AdvectsTo(w, h, f, d0[..], u[..], v[..], dt)
    ensures 0 <= Index(w, i, j) < Size(w, h)
    ensures value == f(i, j)
  {
    IndexInRange(w, h, i, j);
    ghost var uc, vc := u[Index(w, i, j)], v[Index(w, i, j)];
    var x := i as real - dt0x * u[Index(w, i, j)];
    var y := j as real - dt0y * v[Index(w, i, j)];
    assert x == i as real - dt * (w as real) * uc;
    assert y == j as real - dt * (h as real) * vc;
    ghost var cx, cy := Clamp(x, w), Clamp(y, h);
    BacktraceOf(w, h, dt, uc, vc, i, j, cx, cy);
    if x < 0.5 { x := 0.5; }
    if x > w as real + 0.5 { x := w as real + 0.5; }
    assert x == cx;
    var i0 := x.Floor;
    var i1 := i0 + 1;
    if y < 0.5 { y := 0.5; }
    if y > h as real + 0.5 { y := h as real + 0.5; }
    assert y == cy;
    var j0 := y.Floor;
    var j1 := j0 + 1;
    var s1 := x - i0 as real;
    var s0 := 1.0 - s1;
    var t1 := y - j0 as real;
    var t0 := 1.0 - t1;
    var p := Sample(i0, i1, j0, j1, s0, s1, t0, t1);
    assert p == Backtrace(w, h, dt, uc, vc, i, j) by {
      assert i0 == cx.Floor && j0 == cy.Floor;
    }
    IndexInRange(w, h, i0, j0);
    IndexInRange(w, h, i0, j1);
    IndexInRange(w, h, i1, j0);
    IndexInRange(w, h, i1, j1);
    value := Interpolate(p, d0[Index(w, i0, j0)], d0[Index(w, i0, j1)], d0[Index(w, i1, j0)], d0[Index(w, i1, j1)]);
    assert value == AdvectAt(w, h, d0[..], u[..], v[..], dt, i, j);
  }
}
