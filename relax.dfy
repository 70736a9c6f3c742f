/** The fixed-count Gauss-Seidel relaxation shared by `diffuse` and the
    pressure solve of `project`: ten sweeps over the interior, column by column
    and row by row inside a column, each cell replaced in place by
    (src + coef * (sum of its four neighbours)) / den, so that a cell sees the
    values its left and lower neighbours already received in the same sweep;
    setWall runs after every sweep. `diffuse` uses coef = a, den = 1 + 4a with
    a = dt * diff * w * w; the pressure solve uses coef = 1, den = 4. */
module Relaxation {
  import opened Layout
  import opened Walls

  /** Number of relaxation sweeps of `diffuse` and `project`. */
  const Sweeps: nat := 10

  /** The relaxation stencil: the source value plus coef times the sum of the
      four neighbours, divided by den. */
  function Stencil(c: real, left: real, right: real, below: real, above: real, coef: real, den: real): real
    requires den != 0.0
  {
    (c + coef * (left + right + below + above)) / den
  }

  /** The new value of interior cell (i, j) given the current field s. */
  ghost function CellUpdate(w: nat, h: nat, src: seq<real>, s: seq<real>, coef: real, den: real, i: int, j: int): real
    requires |src| == Size(w, h) && |s| == Size(w, h) && Inside(w, h, i, j) && den != 0.0
  {
    IndexLayout(w, h);
    Stencil(src[Index(w, i, j)], s[Index(w, i - 1, j)], s[Index(w, i + 1, j)],
            s[Index(w, i, j - 1)], s[Index(w, i, j + 1)], coef, den)
  }

  /** Column i after its cells (i, 1) .. (i, j) were updated in order. */
  ghost function ColumnSweep(w: nat, h: nat, src: seq<real>, s: seq<real>, coef: real, den: real, i: int, j: nat): (r: seq<real>)
    requires |src| == Size(w, h) && |s| == Size(w, h) && 1 <= i <= w && j <= h && den != 0.0
    ensures |r| == |s|
    decreases j
  {
    if j == 0 then s
    else
      var t := ColumnSweep(w, h, src, s, coef, den, i, j - 1);
      IndexLayout(w, h);
      t[Index(w, i, j) := CellUpdate(w, h, src, t, coef, den, i, j)]
  }

  /** The field after columns 1 .. i of one sweep. */
  ghost function Sweep(w: nat, h: nat, src: seq<real>, s: seq<real>, coef: real, den: real, i: nat): (r: seq<real>)
    requires |src| == Size(w, h) && |s| == Size(w, h) && i <= w && den != 0.0
    ensures |r| == |s|
    decreases i
  {
    if i == 0 then s
    else ColumnSweep(w, h, src, Sweep(w, h, src, s, coef, den, i - 1), coef, den, i, h)
  }

  /** The field after n sweeps, each followed by setWall of kind b. */
  ghost function Relaxed(w: nat, h: nat, b: int, src: seq<real>, s: seq<real>, coef: real, den: real, n: nat): (r: seq<real>)
    requires w >= 1 && h >= 1 && |src| == Size(w, h) && |s| == Size(w, h) && den != 0.0
    ensures |r| == |s|
    decreases n
  {
    if n == 0 then s
    else Walled(w, h, b, Sweep(w, h, src, Relaxed(w, h, b, src, s, coef, den, n - 1), coef, den, w))
  }

  /** Ten sweeps of in-place relaxation of x towards src, with setWall(b) after each. */
  method Relax(w: nat, h: nat, b: int, x: array<real>, src: array<real>, coef: real, den: real)
    requires w >= 1 && h >= 1 && x.Length == Size(w, h) && src.Length == Size(w, h)
    requires x != src && den != 0.0
    modifies x
    ensures x[..] == Relaxed(w, h, b, src[..], old(x[..]), coef, den, Sweeps)
  {
    for k := 0 to Sweeps
      invariant x[..] == Relaxed(w, h, b, src[..], old(x[..]), coef, den, k)
    {
      SweepOnce(w, h, x, src, coef, den);
      SetWall(w, h, b, x);
    }
  }

  /** One sweep over the interior, column by column. */
  method SweepOnce(w: nat, h: nat, x: array<real>, src: array<real>, coef: real, den: real)
    requires x.Length == Size(w, h) && src.Length == Size(w, h)
    requires x != src && den != 0.0
    modifies x
    ensures x[..] == Sweep(w, h, src[..], old(x[..]), coef, den, w)
  {
    for i := 1 to w + 1
      invariant x[..] == Sweep(w, h, src[..], old(x[..]), coef, den, i - 1)
    {
      SweepColumn(w, h, x, src, coef, den, i);
    }
  }

  /** Column i of one sweep, bottom to top. */
  method SweepColumn(w: nat, h: nat, x: array<real>, src: array<real>, coef: real, den: real, i: int)
    requires x.Length == Size(w, h) && src.Length == Size(w, h)
    requires x != src && den != 0.0 && 1 <= i <= w
    modifies x
    ensures x[..] == ColumnSweep(w, h, src[..], old(x[..]), coef, den, i, h)
  {
    for j := 1 to h + 1
      invariant x[..] == ColumnSweep(w, h, src[..], old(x[..]), coef, den, i, j - 1)
    {
      ghost var t := x[..];
      IndexInRange(w, h, i, j);
      IndexInRange(w, h, i - 1, j);
      IndexInRange(w, h, i + 1, j);
      IndexInRange(w, h, i, j - 1);
      IndexInRange(w, h, i, j + 1);
      var v := Stencil(src[Index(w, i, j)], x[Index(w, i - 1, j)], x[Index(w, i + 1, j)],
                       x[Index(w, i, j - 1)], x[Index(w, i, j + 1)], coef, den);
      assert v == CellUpdate(w, h, src[..], t, coef, den, i, j);
      x[Index(w, i, j)] := v;
      assert x[..] == t[Index(w, i, j) := v];
    }
  }

  /** After any positive number of sweeps the ghost border follows the
      setWall policy of kind b. */
  lemma RelaxedWalls(w: nat, h: nat, b: int, src: seq<real>, s: seq<real>, coef: real, den: real, n: nat)
    requires w >= 1 && h >= 1 && |src| == Size(w, h) && |s| == Size(w, h) && den != 0.0 && n >= 1
    ensures WallPolicy(w, h, b, Relaxed(w, h, b, src, s, coef, den, n))
  {
    WalledPolicy(w, h, b, Sweep(w, h, src, Relaxed(w, h, b, src, s, coef, den, n - 1), coef, den, w));
  }

  /** With coef 0 and den 1 a column sweep copies src into rows 1 .. j of
      column i and keeps every other cell. */
  lemma {:induction false} ColumnSweepCopies(w: nat, h: nat, src: seq<real>, s: seq<real>, i: int, j: nat)
    requires |src| == Size(w, h) && |s| == Size(w, h) && 1 <= i <= w && j <= h
    ensures forall x, y :: InGrid(w, h, x, y) ==>
      0 <= Index(w, x, y) < |s| &&
      ColumnSweep(w, h, src, s, 0.0, 1.0, i, j)[Index(w, x, y)] ==
        (if x == i && 1 <= y <= j then src[Index(w, x, y)] else s[Index(w, x, y)])
    decreases j
  {
    IndexRange(w, h);
    if j > 0 {
      ColumnSweepCopies(w, h, src, s, i, j - 1);
      var t := ColumnSweep(w, h, src, s, 0.0, 1.0, i, j - 1);
      assert CellUpdate(w, h, src, t, 0.0, 1.0, i, j) == src[Index(w, i, j)];
      IndexDistinct(w, h);
    }
  }

  /** With coef 0 and den 1 the first i columns of a sweep copy src. */
  lemma {:induction false} SweepCopies(w: nat, h: nat, src: seq<real>, s: seq<real>, i: nat)
    requires |src| == Size(w, h) && |s| == Size(w, h) && i <= w
    ensures forall x, y :: InGrid(w, h, x, y) ==>
      0 <= Index(w, x, y) < |s| &&
      Sweep(w, h, src, s, 0.0, 1.0, i)[Index(w, x, y)] ==
        (if 1 <= x <= i && 1 <= y <= h then src[Index(w, x, y)] else s[Index(w, x, y)])
    decreases i
  {
    IndexRange(w, h);
    if i > 0 {
      SweepCopies(w, h, src, s, i - 1);
      ColumnSweepCopies(w, h, src, Sweep(w, h, src, s, 0.0, 1.0, i - 1), i, h);
    }
  }

  /** With coef 0 and den 1 every relaxation of n >= 1 sweeps yields src with
      its border set by setWall, whatever x held before. */
  lemma RelaxedCopies(w: nat, h: nat, b: int, src: seq<real>, s: seq<real>, n: nat)
    requires w >= 1 && h >= 1 && |src| == Size(w, h) && |s| == Size(w, h) && n >= 1
    ensures Relaxed(w, h, b, src, s, 0.0, 1.0, n) == Walled(w, h, b, src)
  {
    var t := Sweep(w, h, src, Relaxed(w, h, b, src, s, 0.0, 1.0, n - 1), 0.0, 1.0, w);
    SweepCopies(w, h, src, Relaxed(w, h, b, src, s, 0.0, 1.0, n - 1), w);
    assert SameInterior(w, h, t, src);
    WalledReadsInterior(w, h, b, t, src);
  }

  /** Relaxing an all-zero field towards an all-zero source keeps it zero. */
  lemma {:induction false} ColumnSweepZeros(w: nat, h: nat, coef: real, den: real, i: int, j: nat)
    requires 1 <= i <= w && j <= h && den != 0.0
    ensures ColumnSweep(w, h, Zeros(Size(w, h)), Zeros(Size(w, h)), coef, den, i, j) == Zeros(Size(w, h))
    decreases j
  {
    var z := Zeros(Size(w, h));
    if j > 0 {
      ColumnSweepZeros(w, h, coef, den, i, j - 1);
      IndexInRange(w, h, i, j);
      assert CellUpdate(w, h, z, z, coef, den, i, j) == 0.0 by {
        IndexRange(w, h);
      }
      assert z[Index(w, i, j) := 0.0] == z;
    }
  }

  lemma {:induction false} SweepZeros(w: nat, h: nat, coef: real, den: real, i: nat)
    requires i <= w && den != 0.0
    ensures Sweep(w, h, Zeros(Size(w, h)), Zeros(Size(w, h)), coef, den, i) == Zeros(Size(w, h))
    decreases i
  {
    if i > 0 {
      SweepZeros(w, h, coef, den, i - 1);
      ColumnSweepZeros(w, h, coef, den, i, h);
    }
  }

  lemma {:induction false} RelaxedZeros(w: nat, h: nat, b: int, coef: real, den: real, n: nat)
    requires w >= 1 && h >= 1 && den != 0.0
    ensures Relaxed(w, h, b, Zeros(Size(w, h)), Zeros(Size(w, h)), coef, den, n) == Zeros(Size(w, h))
    decreases n
  {
    if n > 0 {
      RelaxedZeros(w, h, b, coef, den, n - 1);
      SweepZeros(w, h, coef, den, w);
      WalledZeros(w, h, b);
    }
  }

  /** The coefficient a = dt * diff * w * w of `diffuse`. */
  function DiffusionCoef(w: nat, diff: real, dt: real): real
  {
    dt * diff * (w as real) * (w as real)
  }

  /** The denominator 1 + 4a of `diffuse`. */
  function DiffusionDen(w: nat, diff: real, dt: real): real
  {
    1.0 + 4.0 * DiffusionCoef(w, diff, dt)
  }

  /** The field diffuse(w, h, b, x, x0, diff, dt) leaves in x. */
  ghost function Diffused(w: nat, h: nat, b: int, x0: seq<real>, x: seq<real>, diff: real, dt: real): (r: seq<real>)
    requires w >= 1 && h >= 1 && |x0| == Size(w, h) && |x| == Size(w, h)
    requires DiffusionDen(w, diff, dt) != 0.0
  {
    Relaxed(w, h, b, x0, x, DiffusionCoef(w, diff, dt), DiffusionDen(w, diff, dt), Sweeps)
  }

  /** diffuse always leaves x with the border setWall of kind b derives
      from its interior. */
  lemma DiffusedWalls(w: nat, h: nat, b: int, x0: seq<real>, x: seq<real>, diff: real, dt: real)
    requires w >= 1 && h >= 1 && |x0| == Size(w, h) && |x| == Size(w, h)
    requires DiffusionDen(w, diff, dt) != 0.0
    ensures WallPolicy(w, h, b, Diffused(w, h, b, x0, x, diff, dt))
  {
    RelaxedWalls(w, h, b, x0, x, DiffusionCoef(w, diff, dt), DiffusionDen(w, diff, dt), Sweeps);
  }

  /** diffuse(w, h, b, x, x0, diff, dt): relaxes x towards x0; x0 is only read. */
  method Diffuse(w: nat, h: nat, b: int, x: array<real>, x0: array<real>, diff: real, dt: real)
    requires w >= 1 && h >= 1 && x.Length == Size(w, h) && x0.Length == Size(w, h) && x != x0
    requires DiffusionDen(w, diff, dt) != 0.0
    modifies x
    ensures x[..] == Diffused(w, h, b, x0[..], old(x[..]), diff, dt)
    ensures x0[..] == old(x0[..])
  {
    var a := dt * diff * (w as real) * (w as real);
    Relax(w, h, b, x, x0, a, 1.0 + 4.0 * a);
  }

  /** With a = dt * diff * w * w == 0, diffuse leaves x0 in every interior
      cell of x and the setWall border of kind b around it. */
  lemma DiffuseStill(w: nat, h: nat, b: int, x0: seq<real>, x: seq<real>, diff: real, dt: real)
    requires w >= 1 && h >= 1 && |x0| == Size(w, h) && |x| == Size(w, h)
    requires DiffusionCoef(w, diff, dt) == 0.0
    ensures Diffused(w, h, b, x0, x, diff, dt) == Walled(w, h, b, x0)
    ensures SameInterior(w, h, Diffused(w, h, b, x0, x, diff, dt), x0)
    ensures WallPolicy(w, h, b, Diffused(w, h, b, x0, x, diff, dt))
  {
    RelaxedCopies(w, h, b, x0, x, Sweeps);
    WalledPolicy(w, h, b, x0);
  }

  /** Diffusing an all-zero field with an all-zero source gives all zeros. */
  lemma DiffuseZeros(w: nat, h: nat, b: int, diff: real, dt: real)
    requires w >= 1 && h >= 1 && DiffusionDen(w, diff, dt) != 0.0
    ensures Diffused(w, h, b, Zeros(Size(w, h)), Zeros(Size(w, h)), diff, dt) == Zeros(Size(w, h))
  {
    RelaxedZeros(w, h, b, DiffusionCoef(w, diff, dt), DiffusionDen(w, diff, dt), Sweeps);
  }
}
