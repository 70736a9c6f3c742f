/** The two time steps of the solver. `densStep` runs, for each colour
    channel, addSource, diffuse of kind 0 and advect of kind 0; `velStep` runs
    addSource on both velocity components, diffuse of kinds 1 and 2, project,
    advect of kinds 1 and 2 and project again. Both exchange the roles of a
    field buffer and its source buffer by swapping local references, so each
    call below passes the buffers in the roles the swaps give them. */
module Steps {
  import opened Layout
  import opened Walls
  import opened Sources
  import opened CellFill
  import opened Relaxation
  import opened Advection
  import opened Projection

  /** The two buffers of one colour channel after densStep: the field buffer
      x holds the advected result, the source buffer x0 the diffused field. */
  datatype Channel = Channel(x: seq<real>, x0: seq<real>)

  ghost function DensStepped(w: nat, h: nat, c: Channel, u: seq<real>, v: seq<real>, diff: real, dt: real): (r: Channel)
    requires w >= 1 && h >= 1 && |c.x| == Size(w, h) && |c.x0| == Size(w, h) && |u| == Size(w, h) && |v| == Size(w, h)
    requires DiffusionDen(w, diff, dt) != 0.0
    ensures |r.x| == Size(w, h) && |r.x0| == Size(w, h)
  {
    var added := AddScaled(c.x, c.x0, Size(w, h), dt);
    var diffused := Diffused(w, h, 0, added, c.x0, diff, dt);
    Channel(Advected(w, h, 0, added, diffused, u, v, dt), diffused)
  }

  /** One channel of densStep: x and x0 are the channel's field and source
      buffers. */
  method DensChannel(w: nat, h: nat, x: array<real>, x0: array<real>, u: array<real>, v: array<real>, diff: real, dt: real)
    requires w >= 1 && h >= 1
    requires x.Length == Size(w, h) && x0.Length == Size(w, h) && u.Length == Size(w, h) && v.Length == Size(w, h)
    requires x != x0 && x != u && x != v && x0 != u && x0 != v
    requires DiffusionDen(w, diff, dt) != 0.0
    modifies x, x0
    ensures Channel(x[..], x0[..]) == DensStepped(w, h, Channel(old(x[..]), old(x0[..])), u[..], v[..], diff, dt)
  {
    AddSource(Size(w, h), x, x0, dt);
    // swap: the source buffer x0 now plays x, the field buffer x plays x0
    Diffuse(w, h, 0, x0, x, diff, dt);
    // swap back
    Advect(w, h, 0, x, x0, u, v, dt);
  }

  /** The channel buffers of densStep are pairwise distinct and distinct from
      the velocity buffers. */
  ghost predicate ChannelsDistinct(xs: seq<array<real>>, x0s: seq<array<real>>, u: array<real>, v: array<real>)
  {
    |xs| == |x0s| &&
    (forall a, b :: 0 <= a < |xs| && 0 <= b < |xs| ==> xs[a] != x0s[b]) &&
    (forall a, b :: 0 <= a < |xs| && 0 <= b < |xs| && a != b ==> xs[a] != xs[b] && x0s[a] != x0s[b]) &&
    (forall a :: 0 <= a < |xs| ==> xs[a] != u && xs[a] != v && x0s[a] != u && x0s[a] != v)
  }

  /** densStep(w, h, x, x0, u, v, diff, dt) over the channels xs with their
      sources x0s: every channel is stepped on its own with the same velocity. */
  method DensStep(w: nat, h: nat, xs: seq<array<real>>, x0s: seq<array<real>>, u: array<real>, v: array<real>,
                  diff: real, dt: real)
    requires w >= 1 && h >= 1 && u.Length == Size(w, h) && v.Length == Size(w, h)
    requires ChannelsDistinct(xs, x0s, u, v)
    requires forall k :: 0 <= k < |xs| ==> xs[k].Length == Size(w, h) && x0s[k].Length == Size(w, h)
    requires DiffusionDen(w, diff, dt) != 0.0
    modifies set k | 0 <= k < |xs| :: xs[k], set k | 0 <= k < |x0s| :: x0s[k]
    ensures forall k :: 0 <= k < |xs| ==>
      Channel(xs[k][..], x0s[k][..]) ==
      DensStepped(w, h, Channel(old(xs[k][..]), old(x0s[k][..])), u[..], v[..], diff, dt)
  {
    for i := 0 to |xs|
      invariant forall k :: 0 <= k < i ==>
        Channel(xs[k][..], x0s[k][..]) ==
        DensStepped(w, h, Channel(old(xs[k][..]), old(x0s[k][..])), u[..], v[..], diff, dt)
      invariant forall k :: i <= k < |xs| ==> xs[k][..] == old(xs[k][..]) && x0s[k][..] == old(x0s[k][..])
    {
      DensChannel(w, h, xs[i], x0s[i], u, v, diff, dt);
    }
  }

  /** With no source, no field and any velocity, densStep leaves both buffers
      of a channel all zero. */
  lemma DensStepZeros(w: nat, h: nat, u: seq<real>, v: seq<real>, diff: real, dt: real)
    requires w >= 1 && h >= 1 && |u| == Size(w, h) && |v| == Size(w, h)
    requires DiffusionDen(w, diff, dt) != 0.0
    ensures var z := Zeros(Size(w, h));
      DensStepped(w, h, Channel(z, z), u, v, diff, dt) == Channel(z, z)
  {
    var z := Zeros(Size(w, h));
    AddZeroSource(z, z, dt);
    DiffuseZeros(w, h, 0, diff, dt);
    AdvectZeros(w, h, 0, z, u, v, dt);
  }

  /** With a zero diffusion coefficient and a still velocity field, densStep
      only adds the source: both buffers end as x + x0 * dt with the kind-0
      border. */
  lemma DensStepStill(w: nat, h: nat, c: Channel, u: seq<real>, v: seq<real>, diff: real, dt: real)
    requires w >= 1 && h >= 1 && |c.x| == Size(w, h) && |c.x0| == Size(w, h) && |u| == Size(w, h) && |v| == Size(w, h)
    requires DiffusionCoef(w, diff, dt) == 0.0
    requires forall k :: 0 <= k < |u| ==> u[k] == 0.0 && v[k] == 0.0
    ensures var added := Walled(w, h, 0, AddScaled(c.x, c.x0, Size(w, h), dt));
      DensStepped(w, h, c, u, v, diff, dt) == Channel(added, added)
  {
    var added := AddScaled(c.x, c.x0, Size(w, h), dt);
    DiffuseStill(w, h, 0, added, c.x0, diff, dt);
    AdvectStill(w, h, 0, added, Walled(w, h, 0, added), u, v, dt);
    WalledIdempotent(w, h, 0, added);
  }

  /** After densStep both buffers of a channel follow the kind-0 border:
      the field from its advection, the source from its diffusion. */
  lemma DensStepWalls(w: nat, h: nat, c: Channel, u: seq<real>, v: seq<real>, diff: real, dt: real)
    requires w >= 1 && h >= 1 && |c.x| == Size(w, h) && |c.x0| == Size(w, h) && |u| == Size(w, h) && |v| == Size(w, h)
    requires DiffusionDen(w, diff, dt) != 0.0
    ensures var r := DensStepped(w, h, c, u, v, diff, dt);
      WallPolicy(w, h, 0, r.x) && WallPolicy(w, h, 0, r.x0)
  {
    var added := AddScaled(c.x, c.x0, Size(w, h), dt);
    var diffused := Diffused(w, h, 0, added, c.x0, diff, dt);
    WalledPolicy(w, h, 0, Filled(w, h, added, AdvectField(w, h, diffused, u, v, dt)));
    DiffusedWalls(w, h, 0, added, c.x0, diff, dt);
  }

  /** The four velocity buffers of velStep. */
  datatype Velocity = Velocity(u: seq<real>, v: seq<real>, u0: seq<real>, v0: seq<real>)

  ghost predicate VelocitySized(w: nat, h: nat, s: Velocity)
  {
    |s.u| == Size(w, h) && |s.v| == Size(w, h) && |s.u0| == Size(w, h) && |s.v0| == Size(w, h)
  }

  /** The buffers after velStep. After the first swaps u0 and v0 hold the
      diffused velocity and u and v serve project as pressure and divergence;
      after the second swaps u and v receive the advected velocity, which the
      last project corrects using u0 and v0 as pressure and divergence. */
  ghost function VelStepped(w: nat, h: nat, s: Velocity, visc: real, dt: real): (r: Velocity)
    requires w >= 1 && h >= 1 && VelocitySized(w, h, s)
    requires DiffusionDen(w, visc, dt) != 0.0
    ensures VelocitySized(w, h, r)
  {
    var a := AddScaled(s.u, s.u0, Size(w, h), dt);
    var b := AddScaled(s.v, s.v0, Size(w, h), dt);
    var du := Diffused(w, h, 1, a, s.u0, visc, dt);
    var dv := Diffused(w, h, 2, b, s.v0, visc, dt);
    var p1 := ProjectPressure(w, h, du, dv, b, a);
    var div1 := ProjectDivergence(w, h, du, dv, b);
    var pu := ProjectU(w, h, du, p1);
    var pv := ProjectV(w, h, dv, p1);
    var au := Advected(w, h, 1, p1, pu, pu, pv, dt);
    var av := Advected(w, h, 2, div1, pv, pu, pv, dt);
    var p2 := ProjectPressure(w, h, au, av, pv, pu);
    Velocity(ProjectU(w, h, au, p2), ProjectV(w, h, av, p2), p2, ProjectDivergence(w, h, au, av, pv))
  }

  /** velStep(w, h, u, v, u0, v0, visc, dt) on four distinct buffers. */
  method VelStep(w: nat, h: nat, u: array<real>, v: array<real>, u0: array<real>, v0: array<real>, visc: real, dt: real)
    requires w >= 1 && h >= 1
    requires u.Length == Size(w, h) && v.Length == Size(w, h) && u0.Length == Size(w, h) && v0.Length == Size(w, h)
    requires u != v && u != u0 && u != v0 && v != u0 && v != v0 && u0 != v0
    requires DiffusionDen(w, visc, dt) != 0.0
    modifies u, v, u0, v0
    ensures Velocity(u[..], v[..], u0[..], v0[..]) == VelStepped(w, h, Velocity(old(u[..]), old(v[..]), old(u0[..]), old(v0[..])), visc, dt)
  {
    AddSource(Size(w, h), u, u0, dt);
    AddSource(Size(w, h), v, v0, dt);
    // swap u and u0: diffuse into the source buffer
    Diffuse(w, h, 1, u0, u, visc, dt);
    // swap v and v0
    Diffuse(w, h, 2, v0, v, visc, dt);
    Project(w, h, u0, v0, u, v);
    // swap both pairs back
    Advect(w, h, 1, u, u0, u0, v0, dt);
    Advect(w, h, 2, v, v0, u0, v0, dt);
    Project(w, h, u, v, u0, v0);
  }

  /** A fluid at rest with no velocity source stays at rest. */
  lemma VelStepZeros(w: nat, h: nat, visc: real, dt: real)
    requires w >= 1 && h >= 1 && DiffusionDen(w, visc, dt) != 0.0
    ensures var z := Zeros(Size(w, h));
      VelStepped(w, h, Velocity(z, z, z, z), visc, dt) == Velocity(z, z, z, z)
  {
    var z := Zeros(Size(w, h));
    AddZeroSource(z, z, dt);
    DiffuseZeros(w, h, 1, visc, dt);
    DiffuseZeros(w, h, 2, visc, dt);
    ProjectZeros(w, h, z, z);
    AdvectZeros(w, h, 1, z, z, z, dt);
    AdvectZeros(w, h, 2, z, z, z, dt);
  }

  /** After velStep the velocity components u and v follow their kind-1 and
      kind-2 walls, and u0 and v0 hold the last pressure and divergence, both
      with the kind-0 border. */
  lemma VelStepWalls(w: nat, h: nat, s: Velocity, visc: real, dt: real)
    requires w >= 1 && h >= 1 && VelocitySized(w, h, s)
    requires DiffusionDen(w, visc, dt) != 0.0
    ensures var r := VelStepped(w, h, s, visc, dt);
      WallPolicy(w, h, 1, r.u) && WallPolicy(w, h, 2, r.v) &&
      WallPolicy(w, h, 0, r.u0) && WallPolicy(w, h, 0, r.v0)
  {
    var a := AddScaled(s.u, s.u0, Size(w, h), dt);
    var b := AddScaled(s.v, s.v0, Size(w, h), dt);
    var du := Diffused(w, h, 1, a, s.u0, visc, dt);
    var dv := Diffused(w, h, 2, b, s.v0, visc, dt);
    var p1 := ProjectPressure(w, h, du, dv, b, a);
    var div1 := ProjectDivergence(w, h, du, dv, b);
    var pu := ProjectU(w, h, du, p1);
    var pv := ProjectV(w, h, dv, p1);
    var au := Advected(w, h, 1, p1, pu, pu, pv, dt);
    var av := Advected(w, h, 2, div1, pv, pu, pv, dt);
    var p2 := ProjectPressure(w, h, au, av, pv, pu);
    ProjectUCells(w, h, au, p2);
    ProjectVCells(w, h, av, p2);
    ProjectPressureWalls(w, h, au, av, pv, pu);
    ProjectDivergenceCells(w, h, au, av, pv);
  }
}
