/** The circular stamps of `spawnInk` and `injectVelocity`: the pointer
    position (px, py) is floored to a centre cell (cx, cy), the radius is half
    the diameter, and every cell of the box
    [max(1, floor(cx - rad)), min(W, floor(cx + rad))] x
    [max(1, floor(cy - rad)), min(H, floor(cy + rad))]
    whose squared distance to the centre is at most rad * rad is overwritten
    with the given value. */
module Stamping {
  import opened Layout

  /** Centre, radius and clipped bounding box of one stamp. */
  datatype Stamp = Stamp(cx: int, cy: int, rad: real, minX: int, maxX: int, minY: int, maxY: int)

  function Max(a: int, b: int): int
  {
    if a < b then b else a
  }

  function Min(a: int, b: int): int
  {
    if a < b then a else b
  }

  /** The stamp of a call with pointer (px, py) and the given diameter. The
      box never leaves the interior. */
  function MakeStamp(w: nat, h: nat, px: real, py: real, diameter: real): (s: Stamp)
    ensures 1 <= s.minX && s.maxX <= w && 1 <= s.minY && s.maxY <= h
  {
    var cx := px.Floor;
    var cy := py.Floor;
    var rad := diameter * 0.5;
    Stamp(cx, cy, rad,
          Max(1, (cx as real - rad).Floor), Min(w, (cx as real + rad).Floor),
          Max(1, (cy as real - rad).Floor), Min(h, (cy as real + rad).Floor))
  }

  /** The box of s lies in the interior of a w x h grid. */
  predicate Clipped(w: nat, h: nat, s: Stamp)
  {
    1 <= s.minX && s.maxX <= w && 1 <= s.minY && s.maxY <= h
  }

  /** Cell (x, y) passes the distance test dx * dx + dy * dy <= rad * rad. */
  predicate InDisc(s: Stamp, x: int, y: int)
  {
    ((x - s.cx) * (x - s.cx) + (y - s.cy) * (y - s.cy)) as real <= s.rad * s.rad
  }

  /** Cell (x, y) is written by the stamp: it is in the box and in the disc. */
  predicate InStamp(s: Stamp, x: int, y: int)
  {
    s.minX <= x <= s.maxX && s.minY <= y <= s.maxY && InDisc(s, x, y)
  }

  /** Only interior cells are ever written. */
  lemma StampInside(w: nat, h: nat, px: real, py: real, diameter: real, x: int, y: int)
    requires InStamp(MakeStamp(w, h, px, py, diameter), x, y)
    ensures Inside(w, h, x, y)
  {
  }

  lemma MulPositive(p: real, q: real)
    requires 0.0 < p && 0.0 < q
    ensures 0.0 < p * q
  {
  }

  lemma SquareMono(a: real, b: real)
    requires 0.0 <= a < b
    ensures a * a < b * b
  {
    assert b * b - a * a == (b - a) * (b + a);
    MulPositive(b - a, b + a);
  }

  /** A square of at most r * r bounds its root by r. */
  lemma SquareBound(d: int, r: real)
    requires 0.0 <= r && (d * d) as real <= r * r
    ensures -r <= d as real <= r
  {
    var e := d as real;
    assert (d * d) as real == e * e;
    if r < e {
      SquareMono(r, e);
    } else if e < -r {
      assert (-e) * (-e) == e * e;
      SquareMono(r, -e);
    }
  }

  /** One axis of the disc: an offset whose square fits fits the box. */
  lemma AxisInBox(c: int, rad: real, z: int, other: int)
    requires 0.0 <= rad && 0 <= other && ((z - c) * (z - c) + other) as real <= rad * rad
    ensures (c as real - rad).Floor <= z <= (c as real + rad).Floor
  {
    SquareBound(z - c, rad);
    FloorBelow(z, c as real - rad);
    FloorAbove(z, c as real + rad);
  }

  lemma FloorBelow(k: int, c: real)
    requires c <= k as real
    ensures c.Floor <= k
  {
  }

  lemma FloorAbove(k: int, c: real)
    requires k as real <= c
    ensures k <= c.Floor
  {
  }

  /** For a diameter of at least zero, the bounding box hides nothing: the
      stamp writes exactly the interior cells within distance rad of the
      centre. (A negative diameter makes the box empty while the squared
      test still passes near the centre.) */
  lemma StampIsDisc(w: nat, h: nat, px: real, py: real, diameter: real, x: int, y: int)
    requires 0.0 <= diameter
    ensures var s := MakeStamp(w, h, px, py, diameter);
      InStamp(s, x, y) <==> Inside(w, h, x, y) && InDisc(s, x, y)
  {
    var s := MakeStamp(w, h, px, py, diameter);
    if InDisc(s, x, y) {
      DiscInBox(s, x, y);
    }
  }

  /** A cell of the disc lies in the unclipped box around the centre. */
  lemma DiscInBox(s: Stamp, x: int, y: int)
    requires 0.0 <= s.rad && InDisc(s, x, y)
    ensures (s.cx as real - s.rad).Floor <= x <= (s.cx as real + s.rad).Floor
    ensures (s.cy as real - s.rad).Floor <= y <= (s.cy as real + s.rad).Floor
  {
    var dx, dy := x - s.cx, y - s.cy;
    assert 0 <= dx * dx && 0 <= dy * dy;
    AxisInBox(s.cx, s.rad, x, dy * dy);
    AxisInBox(s.cy, s.rad, y, dx * dx);
  }

  /** Column x of the stamp loop after rows minY .. y. */
  ghost function StampColumn(w: nat, h: nat, t: seq<real>, s: Stamp, value: real, x: int, y: int): (r: seq<real>)
    requires |t| == Size(w, h) && Clipped(w, h, s) && s.minX <= x <= s.maxX && (y <= s.maxY || y < s.minY)
    ensures |r| == |t|
    decreases y - s.minY
  {
    if y < s.minY then t
    else
      var prev := StampColumn(w, h, t, s, value, x, y - 1);
      IndexInRange(w, h, x, y);
      if InDisc(s, x, y) then prev[Index(w, x, y) := value] else prev
  }

  /** The buffer after columns minX .. x of the stamp loop. */
  ghost function StampColumns(w: nat, h: nat, t: seq<real>, s: Stamp, value: real, x: int): (r: seq<real>)
    requires |t| == Size(w, h) && Clipped(w, h, s) && (x <= s.maxX || x < s.minX)
    ensures |r| == |t|
    decreases x - s.minX
  {
    if x < s.minX then t
    else StampColumn(w, h, StampColumns(w, h, t, s, value, x - 1), s, value, x, s.maxY)
  }

  /** The buffer after the whole stamp loop. */
  ghost function Stamped(w: nat, h: nat, t: seq<real>, s: Stamp, value: real): (r: seq<real>)
    requires |t| == Size(w, h) && Clipped(w, h, s)
    ensures |r| == |t|
  {
    StampColumns(w, h, t, s, value, s.maxX)
  }

  lemma {:induction false} StampColumnCells(w: nat, h: nat, t: seq<real>, s: Stamp, value: real, x: int, y: int)
    requires |t| == Size(w, h) && Clipped(w, h, s) && s.minX <= x <= s.maxX && y <= s.maxY
    ensures forall a, b :: InGrid(w, h, a, b) ==>
      0 <= Index(w, a, b) < |t| &&
      StampColumn(w, h, t, s, value, x, y)[Index(w, a, b)] ==
        (if a == x && s.minY <= b <= y && InDisc(s, a, b) then value else t[Index(w, a, b)])
    decreases y - s.minY
  {
    IndexRange(w, h);
    if y >= s.minY {
      StampColumnCells(w, h, t, s, value, x, y - 1);
      IndexDistinct(w, h);
    }
  }

  lemma {:induction false} StampColumnsCells(w: nat, h: nat, t: seq<real>, s: Stamp, value: real, x: int)
    requires |t| == Size(w, h) && Clipped(w, h, s) && x <= s.maxX
    ensures forall a, b :: InGrid(w, h, a, b) ==>
      0 <= Index(w, a, b) < |t| &&
      StampColumns(w, h, t, s, value, x)[Index(w, a, b)] ==
        (if s.minX <= a <= x && InStamp(s, a, b) then value else t[Index(w, a, b)])
    decreases x - s.minX
  {
    IndexRange(w, h);
    if x >= s.minX {
      StampColumnsCells(w, h, t, s, value, x - 1);
      StampColumnCells(w, h, StampColumns(w, h, t, s, value, x - 1), s, value, x, s.maxY);
    }
  }

  /** The stamp loop overwrites with value exactly the cells of the stamp and
      keeps every other cell. */
  lemma StampedCells(w: nat, h: nat, t: seq<real>, s: Stamp, value: real)
    requires |t| == Size(w, h) && Clipped(w, h, s)
    ensures forall x, y :: InGrid(w, h, x, y) ==>
      0 <= Index(w, x, y) < |t| &&
      Stamped(w, h, t, s, value)[Index(w, x, y)] == (if InStamp(s, x, y) then value else t[Index(w, x, y)])
  {
    StampColumnsCells(w, h, t, s, value, s.maxX);
  }

  /** The loops of spawnInk: the cells of the stamp get r, g and b in the
      three colour source buffers. */
  method StampInk(w: nat, h: nat, s: Stamp, r0: array<real>, g0: array<real>, b0: array<real>, r: real, g: real, b: real)
    requires Clipped(w, h, s)
    requires r0.Length == Size(w, h) && g0.Length == Size(w, h) && b0.Length == Size(w, h)
    requires r0 != g0 && r0 != b0 && g0 != b0
    modifies r0, g0, b0
    ensures r0[..] == Stamped(w, h, old(r0[..]), s, r)
    ensures g0[..] == Stamped(w, h, old(g0[..]), s, g)
    ensures b0[..] == Stamped(w, h, old(b0[..]), s, b)
  {
    var x := s.minX;
    while x <= s.maxX
      invariant s.minX <= x && (x <= s.maxX + 1 || x == s.minX)
      invariant r0[..] == StampColumns(w, h, old(r0[..]), s, r, x - 1)
      invariant g0[..] == StampColumns(w, h, old(g0[..]), s, g, x - 1)
      invariant b0[..] == StampColumns(w, h, old(b0[..]), s, b, x - 1)
      decreases s.maxX - x
    {
      InkColumn(w, h, s, r0, g0, b0, r, g, b, x);
      x := x + 1;
    }
  }

  method InkColumn(w: nat, h: nat, s: Stamp, r0: array<real>, g0: array<real>, b0: array<real>,
                   r: real, g: real, b: real, x: int)
    requires Clipped(w, h, s) && s.minX <= x <= s.maxX
    requires r0.Length == Size(w, h) && g0.Length == Size(w, h) && b0.Length == Size(w, h)
    requires r0 != g0 && r0 != b0 && g0 != b0
    modifies r0, g0, b0
    ensures r0[..] == StampColumn(w, h, old(r0[..]), s, r, x, s.maxY)
    ensures g0[..] == StampColumn(w, h, old(g0[..]), s, g, x, s.maxY)
    ensures b0[..] == StampColumn(w, h, old(b0[..]), s, b, x, s.maxY)
  {
    var y := s.minY;
    while y <= s.maxY
      invariant s.minY <= y && (y <= s.maxY + 1 || y == s.minY)
      invariant r0[..] == StampColumn(w, h, old(r0[..]), s, r, x, y - 1)
      invariant g0[..] == StampColumn(w, h, old(g0[..]), s, g, x, y - 1)
      invariant b0[..] == StampColumn(w, h, old(b0[..]), s, b, x, y - 1)
      decreases s.maxY - y
    {
      if InDisc(s, x, y) {
        IndexInRange(w, h, x, y);
        var i := Index(w, x, y);
        r0[i] := r;
        g0[i] := g;
        b0[i] := b;
      }
      y := y + 1;
    }
  }

  /** The loops of injectVelocity: the cells of the stamp get vx and vy in
      the two velocity source buffers. */
  method StampVelocity(w: nat, h: nat, s: Stamp, u0: array<real>, v0: array<real>, vx: real, vy: real)
    requires Clipped(w, h, s)
    requires u0.Length == Size(w, h) && v0.Length == Size(w, h) && u0 != v0
    modifies u0, v0
    ensures u0[..] == Stamped(w, h, old(u0[..]), s, vx)
    ensures v0[..] == Stamped(w, h, old(v0[..]), s, vy)
  {
    var x := s.minX;
    while x <= s.maxX
      invariant s.minX <= x && (x <= s.maxX + 1 || x == s.minX)
      invariant u0[..] == StampColumns(w, h, old(u0[..]), s, vx, x - 1)
      invariant v0[..] == StampColumns(w, h, old(v0[..]), s, vy, x - 1)
      decreases s.maxX - x
    {
      VelocityColumn(w, h, s, u0, v0, vx, vy, x);
      x := x + 1;
    }
  }

  method VelocityColumn(w: nat, h: nat, s: Stamp, u0: array<real>, v0: array<real>, vx: real, vy: real, x: int)
    requires Clipped(w, h, s) && s.minX <= x <= s.maxX
    requires u0.Length == Size(w, h) && v0.Length == Size(w, h) && u0 != v0
    modifies u0, v0
    ensures u0[..] == StampColumn(w, h, old(u0[..]), s, vx, x, s.maxY)
    ensures v0[..] == StampColumn(w, h, old(v0[..]), s, vy, x, s.maxY)
  {
    var y := s.minY;
    while y <= s.maxY
      invariant s.minY <= y && (y <= s.maxY + 1 || y == s.minY)
      invariant u0[..] == StampColumn(w, h, old(u0[..]), s, vx, x, y - 1)
      invariant v0[..] == StampColumn(w, h, old(v0[..]), s, vy, x, y - 1)
      decreases s.maxY - y
    {
      if InDisc(s, x, y) {
        IndexInRange(w, h, x, y);
        var i := Index(w, x, y);
        u0[i] := vx;
        v0[i] := vy;
      }
      y := y + 1;
    }
  }
}
