/** The class `Fluid`: ten flat buffers of (W + 2) * (H + 2) cells (the three
    colour fields r, g, b and the velocity components u, v, each with its
    source buffer), a constructor that allocates them and renders one frame,
    the two pointer stamps, and the state update of one frame of `render`:
    velStep, densStep on the three colour channels, a fade of every colour
    cell by 0.005 and a reset of the five source buffers to zero. */
module Simulation {
  import opened Layout
  import opened Walls
  import opened Relaxation
  import opened Steps
  import opened Stamping

  /** The amount by which every colour cell fades per frame. */
  const Fade: real := 0.005

  /** Default diffusion, viscosity and time step of the constructor. */
  const DefaultDiffusion: real := 0.00001
  const DefaultViscosity: real := 0.0
  const DefaultStep: real := 1.0

  /** Default colour component of spawnInk. */
  const FullColour: real := 255.0

  /** The smallest integer at or above x. */
  function Ceil(x: real): (c: int)
    ensures x <= c as real < x + 1.0
  {
    -((-x).Floor)
  }

  /** Default ink diameter: ceil(W * H / 1500). */
  function InkDiameter(w: nat, h: nat): (d: int)
    ensures (w * h) as real <= 1500.0 * d as real < (w * h) as real + 1500.0
  {
    Ceil((w * h) as real / 1500.0)
  }

  /** Default velocity diameter: W * H / 2500, not rounded. */
  function VelocityDiameter(w: nat, h: nat): (d: real)
    ensures 2500.0 * d == (w * h) as real
  {
    (w * h) as real / 2500.0
  }

  /** The contents of the ten buffers. */
  datatype Buffers = Buffers(r: seq<real>, r0: seq<real>, g: seq<real>, g0: seq<real>, b: seq<real>, b0: seq<real>,
                             u: seq<real>, u0: seq<real>, v: seq<real>, v0: seq<real>)

  predicate Sized(w: nat, h: nat, s: Buffers)
  {
    var n := Size(w, h);
    |s.r| == n && |s.r0| == n && |s.g| == n && |s.g0| == n && |s.b| == n && |s.b0| == n &&
    |s.u| == n && |s.u0| == n && |s.v| == n && |s.v0| == n
  }

  /** Every cell lowered by Fade, with no clamping. */
  function Faded(t: seq<real>): (r: seq<real>)
    ensures |r| == |t|
  {
    seq(|t|, k requires 0 <= k < |t| => t[k] - Fade)
  }

  /** The buffers after one frame of render. */
  ghost function Rendered(w: nat, h: nat, s: Buffers, diffusion: real, viscosity: real, dt: real): (r: Buffers)
    requires w >= 1 && h >= 1 && Sized(w, h, s)
    requires DiffusionDen(w, diffusion, dt) != 0.0
    requires DiffusionDen(w, viscosity, dt) != 0.0
    ensures Sized(w, h, r)
  {
    var vel := VelStepped(w, h, Velocity(s.u, s.v, s.u0, s.v0), viscosity, dt);
    var red := DensStepped(w, h, Channel(s.r, s.r0), vel.u, vel.v, diffusion, dt);
    var green := DensStepped(w, h, Channel(s.g, s.g0), vel.u, vel.v, diffusion, dt);
    var blue := DensStepped(w, h, Channel(s.b, s.b0), vel.u, vel.v, diffusion, dt);
    var z := Zeros(Size(w, h));
    Buffers(Faded(red.x), z, Faded(green.x), z, Faded(blue.x), z, vel.u, z, vel.v, z)
  }

  /** The buffers as the constructor leaves them: allocated all zero, then one
      frame rendered, so the colours have faded once and nothing else moved. */
  function Initial(w: nat, h: nat): Buffers
  {
    var z := Zeros(Size(w, h));
    var f := seq(Size(w, h), _ => -Fade);
    Buffers(f, z, f, z, f, z, z, z, z, z)
  }

  function AllZero(w: nat, h: nat): Buffers
  {
    var z := Zeros(Size(w, h));
    Buffers(z, z, z, z, z, z, z, z, z, z)
  }

  /** Rendering a frame of an empty fluid leaves every colour at -Fade and
      every other buffer at zero. */
  lemma RenderedEmpty(w: nat, h: nat, diffusion: real, viscosity: real, dt: real)
    requires w >= 1 && h >= 1
    requires DiffusionDen(w, diffusion, dt) != 0.0
    requires DiffusionDen(w, viscosity, dt) != 0.0
    ensures Rendered(w, h, AllZero(w, h), diffusion, viscosity, dt) == Initial(w, h)
  {
    var z := Zeros(Size(w, h));
    VelStepZeros(w, h, viscosity, dt);
    DensStepZeros(w, h, z, z, diffusion, dt);
    assert Faded(z) == seq(Size(w, h), _ => -Fade);
  }

  /** Fading keeps the kind-0 border: ghosts copy their neighbours and
      corners average them, both of which commute with a uniform shift. */
  lemma FadeKeepsWalls(w: nat, h: nat, t: seq<real>)
    requires w >= 1 && h >= 1 && |t| == Size(w, h)
    requires WallPolicy(w, h, 0, t)
    ensures WallPolicy(w, h, 0, Faded(t))
  {
    IndexLayout(w, h);
    var f := Faded(t);
    assert SidesReflected(w, h, 0, f);
    assert EndsReflected(w, h, 0, f);
  }

  /** After any frame the colours keep the kind-0 border, u and v their
      kind-1 and kind-2 walls, and all five source buffers are zero. */
  lemma RenderedWalls(w: nat, h: nat, s: Buffers, diffusion: real, viscosity: real, dt: real)
    requires w >= 1 && h >= 1 && Sized(w, h, s)
    requires DiffusionDen(w, diffusion, dt) != 0.0
    requires DiffusionDen(w, viscosity, dt) != 0.0
    ensures var r := Rendered(w, h, s, diffusion, viscosity, dt);
      WallPolicy(w, h, 0, r.r) && WallPolicy(w, h, 0, r.g) && WallPolicy(w, h, 0, r.b) &&
      WallPolicy(w, h, 1, r.u) && WallPolicy(w, h, 2, r.v) &&
      r.r0 == r.g0 == r.b0 == r.u0 == r.v0 == Zeros(Size(w, h))
  {
    var vel := VelStepped(w, h, Velocity(s.u, s.v, s.u0, s.v0), viscosity, dt);
    VelStepWalls(w, h, Velocity(s.u, s.v, s.u0, s.v0), viscosity, dt);
    DensStepWalls(w, h, Channel(s.r, s.r0), vel.u, vel.v, diffusion, dt);
    DensStepWalls(w, h, Channel(s.g, s.g0), vel.u, vel.v, diffusion, dt);
    DensStepWalls(w, h, Channel(s.b, s.b0), vel.u, vel.v, diffusion, dt);
    FadeKeepsWalls(w, h, DensStepped(w, h, Channel(s.r, s.r0), vel.u, vel.v, diffusion, dt).x);
    FadeKeepsWalls(w, h, DensStepped(w, h, Channel(s.g, s.g0), vel.u, vel.v, diffusion, dt).x);
    FadeKeepsWalls(w, h, DensStepped(w, h, Channel(s.b, s.b0), vel.u, vel.v, diffusion, dt).x);
  }

  /** The fade loop of render. */
  method FadeColours(r: array<real>, g: array<real>, b: array<real>)
    requires g.Length == r.Length && b.Length == r.Length
    requires r != g && r != b && g != b
    modifies r, g, b
    ensures r[..] == Faded(old(r[..])) && g[..] == Faded(old(g[..])) && b[..] == Faded(old(b[..]))
  {
    for i := 0 to r.Length
      invariant forall k :: 0 <= k < i ==> r[k] == old(r[k]) - Fade && g[k] == old(g[k]) - Fade && b[k] == old(b[k]) - Fade
      invariant forall k :: i <= k < r.Length ==> r[k] == old(r[k]) && g[k] == old(g[k]) && b[k] == old(b[k])
    {
      r[i] := r[i] - Fade;
      g[i] := g[i] - Fade;
      b[i] := b[i] - Fade;
    }
    assert r[..] == Faded(old(r[..]));
    assert g[..] == Faded(old(g[..]));
  }

  /** `fill(0)` of a source buffer. */
  method Clear(a: array<real>)
    modifies a
    ensures a[..] == Zeros(a.Length)
  {
    for i := 0 to a.Length
      invariant forall k :: 0 <= k < i ==> a[k] == 0.0
    {
      a[i] := 0.0;
    }
  }

  /** `new Array(n).fill(0)`. */
  method NewBuffer(n: nat) returns (a: array<real>)
    ensures fresh(a) && a[..] == Zeros(n)
  {
    a := new real[n](_ => 0.0);
  }

  /** The channel arguments of render's densStep call meet its
      preconditions and name exactly the six colour buffers. */
  lemma ColourChannels(n: nat, xs: seq<array<real>>, x0s: seq<array<real>>,
                       r: array<real>, g: array<real>, b: array<real>,
                       r0: array<real>, g0: array<real>, b0: array<real>, u: array<real>, v: array<real>)
    requires xs == [r, g, b] && x0s == [r0, g0, b0]
    requires r.Length == n && g.Length == n && b.Length == n && r0.Length == n && g0.Length == n && b0.Length == n
    requires r != g && r != b && g != b && r0 != g0 && r0 != b0 && g0 != b0
    requires r != r0 && r != g0 && r != b0 && g != r0 && g != g0 && g != b0 && b != r0 && b != g0 && b != b0
    requires r != u && r != v && g != u && g != v && b != u && b != v
    requires r0 != u && r0 != v && g0 != u && g0 != v && b0 != u && b0 != v
    ensures ChannelsDistinct(xs, x0s, u, v)
    ensures forall k :: 0 <= k < |xs| ==> xs[k].Length == n && x0s[k].Length == n
    ensures forall k :: 0 <= k < |xs| ==> xs[k] in {r, g, b} && x0s[k] in {r0, g0, b0}
  {
  }

  class Fluid {
    const W: nat
    const H: nat
    const dt: real
    const diffusion: real
    const viscosity: real

    const r: array<real>
    const r0: array<real>
    const g: array<real>
    const g0: array<real>
    const b: array<real>
    const b0: array<real>
    const u: array<real>
    const u0: array<real>
    const v: array<real>
    const v0: array<real>

    /** Every buffer has Size(W, H) cells and the ten buffers are distinct
        arrays; both relaxation denominators are non-zero. */
    ghost predicate Valid()
    {
      W >= 1 && H >= 1 &&
      DiffusionDen(W, diffusion, dt) != 0.0 &&
      DiffusionDen(W, viscosity, dt) != 0.0 &&
      r.Length == Size(W, H) && r0.Length == Size(W, H) && g.Length == Size(W, H) && g0.Length == Size(W, H) &&
      b.Length == Size(W, H) && b0.Length == Size(W, H) && u.Length == Size(W, H) && u0.Length == Size(W, H) &&
      v.Length == Size(W, H) && v0.Length == Size(W, H) &&
      r != r0 && r != g && r != g0 && r != b && r != b0 && r != u && r != u0 && r != v && r != v0 &&
      r0 != g && r0 != g0 && r0 != b && r0 != b0 && r0 != u && r0 != u0 && r0 != v && r0 != v0 &&
      g != g0 && g != b && g != b0 && g != u && g != u0 && g != v && g != v0 &&
      g0 != b && g0 != b0 && g0 != u && g0 != u0 && g0 != v && g0 != v0 &&
      b != b0 && b != u && b != u0 && b != v && b != v0 &&
      b0 != u && b0 != u0 && b0 != v && b0 != v0 &&
      u != u0 && u != v && u != v0 &&
      u0 != v && u0 != v0 &&
      v != v0
    }

    function Contents(): Buffers
      reads r, r0, g, g0, b, b0, u, u0, v, v0
    {
      Buffers(r[..], r0[..], g[..], g0[..], b[..], b0[..], u[..], u0[..], v[..], v0[..])
    }

    /** A fluid on a width x height canvas: ten zero buffers, then one frame. */
    constructor(width: nat, height: nat, diffusion: real := DefaultDiffusion,
                viscosity: real := DefaultViscosity, dt: real := DefaultStep)
      requires width >= 1 && height >= 1
      requires DiffusionDen(width, diffusion, dt) != 0.0
      requires DiffusionDen(width, viscosity, dt) != 0.0
      ensures Valid() && W == width && H == height
      ensures this.diffusion == diffusion && this.viscosity == viscosity && this.dt == dt
      ensures fresh(r) && fresh(r0) && fresh(g) && fresh(g0) && fresh(b) && fresh(b0)
      ensures fresh(u) && fresh(u0) && fresh(v) && fresh(v0)
      ensures Contents() == Initial(width, height)
    {
      this.dt := dt;
      this.diffusion := diffusion;
      this.viscosity := viscosity;
      W := width;
      H := height;
      var n := Size(width, height);
      var newr := NewBuffer(n);
      var newr0 := NewBuffer(n);
      var newg := NewBuffer(n);
      var newg0 := NewBuffer(n);
      var newb := NewBuffer(n);
      var newb0 := NewBuffer(n);
      var newu := NewBuffer(n);
      var newu0 := NewBuffer(n);
      var newv := NewBuffer(n);
      var newv0 := NewBuffer(n);
      r := newr;
      r0 := newr0;
      g := newg;
      g0 := newg0;
      b := newb;
      b0 := newb0;
      u := newu;
      u0 := newu0;
      v := newv;
      v0 := newv0;
      new;
      assert Contents() == AllZero(width, height);
      Render();
      RenderedEmpty(width, height, diffusion, viscosity, dt);
    }

    /** One frame of render, without the drawing: velStep, densStep on the
        three colours, the fade and the reset of the sources. */
    method Render()
      requires Valid()
      modifies r, r0, g, g0, b, b0, u, u0, v, v0
      ensures Contents() == Rendered(W, H, old(Contents()), diffusion, viscosity, dt)
    {
      VelStep(W, H, u, v, u0, v0, viscosity, dt);
      StepColours();
      FadeColours(r, g, b);
      Clear(r0);
      Clear(g0);
      Clear(b0);
      Clear(u0);
      Clear(v0);
    }

    /** The densStep call of render: the three colour channels with the
        current velocity. */
    method StepColours()
      requires Valid()
      modifies r, r0, g, g0, b, b0
      ensures Channel(r[..], r0[..]) == DensStepped(W, H, Channel(old(r[..]), old(r0[..])), u[..], v[..], diffusion, dt)
      ensures Channel(g[..], g0[..]) == DensStepped(W, H, Channel(old(g[..]), old(g0[..])), u[..], v[..], diffusion, dt)
      ensures Channel(b[..], b0[..]) == DensStepped(W, H, Channel(old(b[..]), old(b0[..])), u[..], v[..], diffusion, dt)
    {
      var xs, x0s := [r, g, b], [r0, g0, b0];
      ColourChannels(Size(W, H), xs, x0s, r, g, b, r0, g0, b0, u, v);
      DensStep(W, H, xs, x0s, u, v, diffusion, dt);
      assert xs[0] == r && x0s[0] == r0;
      assert xs[1] == g && x0s[1] == g0;
      assert xs[2] == b && x0s[2] == b0;
    }

    /** spawnInk: the cells of the stamp get the colour (red, green, blue) in
        the colour source buffers. */
    method SpawnInk(px: real, py: real, diameter: real := InkDiameter(W, H) as real,
                    red: real := FullColour, green: real := FullColour, blue: real := FullColour)
      requires Valid()
      modifies r0, g0, b0
      ensures var s := MakeStamp(W, H, px, py, diameter);
        r0[..] == Stamped(W, H, old(r0[..]), s, red) &&
        g0[..] == Stamped(W, H, old(g0[..]), s, green) &&
        b0[..] == Stamped(W, H, old(b0[..]), s, blue)
    {
      var s := MakeStamp(W, H, px, py, diameter);
      StampInk(W, H, s, r0, g0, b0, red, green, blue);
    }

    /** injectVelocity: the cells of the stamp get the velocity (vx, vy) in
        the velocity source buffers. */
    method InjectVelocity(px: real, py: real, vx: real, vy: real, diameter: real := VelocityDiameter(W, H))
      requires Valid()
      modifies u0, v0
      ensures var s := MakeStamp(W, H, px, py, diameter);
        u0[..] == Stamped(W, H, old(u0[..]), s, vx) &&
        v0[..] == Stamped(W, H, old(v0[..]), s, vy)
    {
      var s := MakeStamp(W, H, px, py, diameter);
      StampVelocity(W, H, s, u0, v0, vx, vy);
    }
  }
}
