# Stable-fluids grid solver in Dafny

This project models the class `Fluid` of `main.js`. `Fluid` is a grid-based
"stable fluids" solver. A canvas of W x H pixels is simulated on ten flat
buffers of (W + 2) * (H + 2) cells, with a one-cell ghost border around the
interior:

- the colour fields `r`, `g` and `b`, and the velocity components `u` and `v`;
- one source buffer for each of them: `r0`, `g0`, `b0`, `u0` and `v0`.

Each frame runs the same sequence:

1. `velStep` adds the velocity sources, diffuses, projects, advects and
   projects again.
2. `densStep` adds, diffuses and advects each colour channel.
3. Every colour cell fades by 0.005.
4. The five source buffers are cleared.

The pointer feeds the source buffers through the circular stamps `spawnInk`
and `injectVelocity`.

Cell values are Dafny `real`s, so the arithmetic is exact. Every routine that
works in place in the source is a method over `array<real>` here, with the
same loops in the same order. Each method is proved against a ghost function
that follows the loop step by step (`Walled`, `Relaxed`, `Filled`,
`Advected`, `Stamped`, ...). Lemmas then prove what the source promises
about those functions. `Fluid` is a class with ten `const` array fields. The
swaps in `densStep` and `velStep` exchange only local references, so the
fields never change; each call is modelled with the buffers in the roles the
swaps give them.

Modules, one file each:

- `Layout` (layout.dfy): `index`, the buffer size, and decoding a position.
- `Walls` (walls.dfy): `setWall`.
- `Sources` (sources.dfy): `addSource`.
- `CellFill` (fill.dfy): the common shape of the interior loops.
- `Relaxation` (relax.dfy): the 10-sweep Gauss-Seidel loop shared by
  `diffuse` and `project`, and `diffuse`.
- `Advection` (advect.dfy): `advect`.
- `Projection` (project.dfy): `project`.
- `Steps` (steps.dfy): `densStep` and `velStep`.
- `Stamping` (stamp.dfy): the stamps.
- `Simulation` (fluid.dfy): the class `Fluid`, its constructor and the state
  update of `render`.

## Model

| member | source | states |
|---|---|---|
| Layout.RowStartIsProduct | main.js:25 | the repeated sum used for positions equals y * (W + 2), as in `index` |
| Layout.IndexInRange | main.js:13-25 | every cell (x, y) with 0 <= x <= W+1 and 0 <= y <= H+1 has its position inside [0, (W+2)*(H+2)) |
| Layout.IndexCell | main.js:25 | the position of a bordered-grid cell decodes back to that cell (column k mod (W+2), row k div (W+2)) |
| Layout.IndexInjective | main.js:25 | two bordered-grid cells share a position if and only if they are the same cell |
| Layout.IndexDistinct | main.js:25 | distinct bordered-grid cells have distinct positions |
| Layout.Decode | main.js:13-25 | every position of a buffer is the index of a bordered-grid cell: the layout is onto |
| Layout.Zeros | main.js:14-23 | a freshly allocated buffer has the given length and only zero cells |
| Walls.SetWall | main.js:141-154 | setWall leaves the buffer equal to Walled of its old contents |
| Walls.SideWalls | main.js:142-145 | the first loop of setWall reflects the left and right ghosts of rows 1..h |
| Walls.EndWalls | main.js:146-149 | the second loop reflects the top and bottom ghosts of columns 1..w |
| Walls.SideWallsRow | main.js:143-144 | one row of the first loop |
| Walls.EndWallsColumn | main.js:147-148 | one column of the second loop |
| Walls.Corners | main.js:150-153 | the four corner assignments |
| Walls.WalledPolicy | main.js:141-153 | after setWall the interior is unchanged, each side ghost equals its interior neighbour (negated iff b == 1 on the left and right walls, iff b == 2 on the top and bottom walls), and each corner is half the sum of its two neighbouring edge ghosts |
| Walls.WalledCorners | main.js:150-153 | the corner average holds for every kind b |
| Walls.WalledCell | main.js:142-149 | each non-corner cell after setWall is its interior neighbour, reflected |
| Walls.PolicyDetermines | main.js:141-153 | the ghost border is determined by the interior: two buffers that follow the policy and agree inside are equal |
| Walls.WallStepsWalled | main.js:141-153 | the three loops of setWall together compute exactly Walled |
| Walls.SidesLoop | main.js:142-145 | after rows 1..j of the first loop those rows are reflected and no column changed |
| Walls.EndsLoop | main.js:146-149 | after columns 1..i of the second loop those columns are reflected and no row changed |
| Walls.CornersStep | main.js:150-153 | the corner assignments average the corners and change nothing else |
| Walls.NonCornersKept | main.js:146-153 | the later loops keep the interior and the side ghosts already written |
| Walls.WalledFixes | main.js:141-153 | setWall leaves a buffer that already follows the policy unchanged |
| Walls.WalledReadsInterior | main.js:141-153 | setWall reads only the interior: buffers agreeing inside get the same result |
| Walls.WalledIdempotent | main.js:141-153 | applying setWall twice equals applying it once |
| Walls.WalledZeros | main.js:141-153 | setWall keeps an all-zero buffer all zero |
| Sources.AddSource | main.js:31-33 | x[i] becomes old x[i] + s[i] * dt for every i < arrSize, later cells are kept, and s is unchanged unless it is x itself |
| Sources.AddZeroSource | main.js:31-33 | an all-zero source leaves x unchanged |
| CellFill.FilledCells | main.js:56-57 | the column-by-column loop over the interior writes f(x, y) into each interior cell and keeps the ghost border |
| CellFill.FillAhead | main.js:56-57 | a cell not yet reached by the loop still holds its old value |
| CellFill.WalledFillZeros | main.js:113-121 | filling the interior with zeros and applying setWall gives an all-zero buffer |
| Relaxation.Relax | main.js:37-49 | ten sweeps of the stencil over the interior, each followed by setWall, give Relaxed |
| Relaxation.SweepOnce | main.js:38-47 | one sweep over columns 1..w gives Sweep |
| Relaxation.SweepColumn | main.js:39-46 | one column of a sweep, in place in row order, gives ColumnSweep |
| Relaxation.RelaxedWalls | main.js:48 | after at least one sweep the buffer follows the setWall policy of its kind |
| Relaxation.SweepCopies | main.js:38-47 | with coefficient 0 and denominator 1 a sweep copies the source into the interior |
| Relaxation.RelaxedCopies | main.js:37-49 | with coefficient 0 and denominator 1 the ten sweeps give setWall of the source |
| Relaxation.RelaxedZeros | main.js:37-49 | relaxing zeros towards zeros gives zeros |
| Relaxation.Diffuse | main.js:35-50 | diffuse leaves x equal to Diffused, with a = dt*diff*w*w and denominator 1 + 4a, and never changes x0 |
| Relaxation.DiffusedWalls | main.js:35-50 | after diffuse, x follows the setWall policy of kind b |
| Relaxation.DiffuseStill | main.js:35-50 | with a == 0, diffuse leaves every interior cell of x equal to x0, with the setWall border of kind b |
| Relaxation.DiffuseZeros | main.js:35-50 | diffusing zeros gives zeros |
| Advection.Clamp | main.js:61-66 | the clamped coordinate lies in [0.5, n + 0.5] and is unchanged when already inside |
| Advection.Backtrace | main.js:58-73 | after the clamp, 0 <= i0 <= w, i1 = i0 + 1, 0 <= j0 <= h and j1 = j0 + 1; the weights satisfy s0 + s1 = t0 + t1 = 1, each in [0, 1] |
| Advection.BacktraceInGrid | main.js:63-76 | all four cells read from d0 are bordered-grid cells, so every read is in bounds |
| Advection.BacktraceStill | main.js:58-73 | with zero velocity at (i, j) the sample is the cell (i, j) itself with full weight |
| Advection.InterpolateBetween | main.js:75-76 | the bilinear interpolation lies between the minimum and maximum of its four samples |
| Advection.Advect | main.js:52-80 | advect leaves d equal to Advected: AdvectAt in every interior cell, then setWall of kind b |
| Advection.AdvectInterior | main.js:56-78 | the double loop over the interior fills each cell with the interpolated value |
| Advection.AdvectColumn | main.js:57-77 | one column of the loop |
| Advection.AdvectCell | main.js:58-76 | one cell: the back-traced, clamped, bilinear sample of d0 |
| Advection.AdvectedCells | main.js:52-80 | every interior cell of the result is AdvectAt, and the border follows the policy of kind b |
| Advection.AdvectAtStill | main.js:58-76 | a cell with zero velocity takes the value of d0 at the same cell |
| Advection.AdvectStill | main.js:52-80 | with an all-zero velocity field every interior cell of d equals d0, and the border is setWall of kind b |
| Advection.AdvectBetween | main.js:58-76 | each interior cell lies between the minimum and maximum of its four sampled d0 cells |
| Advection.AdvectZeros | main.js:52-80 | advecting an all-zero field gives zeros for any velocity |
| Projection.Project | main.js:111-139 | div is the kind-0-walled divergence of the old velocity; p is ten relaxation sweeps from zero towards (div + neighbours) / 4; u and v lose half the central difference of p divided by the spacing 1/w, with kind-1 and kind-2 walls |
| Projection.DivergenceLoop | main.js:113-119 | the first double loop writes the divergence into div and 0 into p on the interior |
| Projection.DivergenceColumn | main.js:114-118 | one column of the first loop |
| Projection.GradientLoop | main.js:131-136 | the last double loop subtracts the pressure gradient from u and v |
| Projection.GradientColumn | main.js:132-135 | one column of the last loop |
| Projection.ProjectDivergenceCells | main.js:113-120 | each interior cell of div is -0.5 * spacing * (u[i+1,j] - u[i-1,j] + v[i,j+1] - v[i,j-1]), and div follows the kind-0 border |
| Projection.PressureStartZeros | main.js:117-121 | p starts all zero, ghosts included, before the sweeps |
| Projection.ProjectPressureWalls | main.js:122-130 | the final pressure follows the kind-0 border |
| Projection.ProjectUCells | main.js:133-137 | each interior cell of u loses 0.5 * (p[i+1,j] - p[i-1,j]) / spacing, and u follows the kind-1 walls |
| Projection.ProjectVCells | main.js:134-138 | each interior cell of v loses 0.5 * (p[i,j+1] - p[i,j-1]) / spacing, and v follows the kind-2 walls |
| Projection.ProjectZeros | main.js:111-139 | projecting a velocity field at rest leaves all four buffers zero |
| Steps.DensChannel | main.js:84-88 | one channel: addSource, diffuse of kind 0 into the source buffer, advect of kind 0 back into the field buffer, so the caller's x[i] holds the advected result and x0[i] the diffused field |
| Steps.DensStep | main.js:82-90 | every channel is stepped on its own with the same velocity |
| Steps.DensStepZeros | main.js:82-90 | a channel with no field and no source stays all zero under any velocity |
| Steps.DensStepStill | main.js:82-90 | with a == 0 and velocity at rest, both buffers of a channel end as setWall of x + x0 * dt |
| Steps.DensStepWalls | main.js:82-90 | after densStep both buffers of a channel follow the kind-0 border |
| Steps.VelStep | main.js:92-109 | velStep is addSource on u and v, diffuse of kinds 1 and 2 into u0 and v0, project with the original u and v as pressure and divergence, advect of kinds 1 and 2 back into u and v, and project with u0 and v0 as scratch |
| Steps.VelStepZeros | main.js:92-109 | a fluid at rest with no velocity source stays at rest |
| Steps.VelStepWalls | main.js:92-109 | after velStep, u and v follow their kind-1 and kind-2 walls, and u0 and v0 the kind-0 border |
| Stamping.MakeStamp | main.js:157-165 | the centre is the floored pointer, the radius half the diameter, and the box is clipped to 1..W x 1..H |
| Stamping.StampInside | main.js:161-164 | a stamp only ever writes interior cells |
| Stamping.StampIsDisc | main.js:161-176 | for a diameter of at least zero, a cell is written if and only if it is interior and (x - cx)^2 + (y - cy)^2 <= rad^2 |
| Stamping.DiscInBox | main.js:161-164 | every cell of the disc lies in the unclipped box [floor(c - rad), floor(c + rad)] |
| Stamping.StampedCells | main.js:166-176 | the stamp loops overwrite exactly the stamp's cells with the given value and keep every other cell |
| Stamping.StampInk | main.js:166-176 | the loops of spawnInk write r, g and b into r0, g0 and b0 over the stamp |
| Stamping.InkColumn | main.js:167-175 | one column of the spawnInk loops |
| Stamping.StampVelocity | main.js:190-199 | the loops of injectVelocity write vx and vy into u0 and v0 over the stamp |
| Stamping.VelocityColumn | main.js:191-198 | one column of the injectVelocity loops |
| Simulation.Ceil | main.js:156 | the result is the least integer at or above x |
| Simulation.InkDiameter | main.js:156 | the default ink diameter is ceil(W * H / 1500) |
| Simulation.VelocityDiameter | main.js:180 | the default velocity diameter is W * H / 2500, not rounded |
| Simulation.FadeColours | main.js:221-225 | every cell of r, g and b, ghosts included, loses exactly 0.005, with no clamping |
| Simulation.Clear | main.js:227-231 | `fill(0)` sets every cell to 0 |
| Simulation.NewBuffer | main.js:14-23 | a new buffer of n zero cells |
| Simulation.RenderedEmpty | main.js:2-28 | a frame of an all-zero fluid leaves every colour cell at -0.005 and every other buffer zero |
| Simulation.FadeKeepsWalls | main.js:221-225 | the fade keeps the kind-0 border of a colour buffer |
| Simulation.RenderedWalls | main.js:203-231 | after any frame the colours follow the kind-0 border, u and v their kind-1 and kind-2 walls, and all five source buffers are zero |
| Simulation.Fluid.constructor | main.js:2-28 | ten fresh, distinct buffers of (W+2)*(H+2) cells; after the first frame each colour cell holds -0.005 and every other cell 0 |
| Simulation.Fluid.Render | main.js:203-231 | one frame: velStep, densStep on (r, g, b) with (r0, g0, b0), the fade, and the clearing of the five sources |
| Simulation.Fluid.StepColours | main.js:205 | the densStep call of render steps each colour with its own source buffer |
| Simulation.Fluid.SpawnInk | main.js:156-178 | r0, g0 and b0 get the colour over the stamp and keep every other cell; no other buffer changes; the default diameter is ceil(W*H/1500) and the default colour 255 |
| Simulation.Fluid.InjectVelocity | main.js:180-201 | u0 and v0 get (vx, vy) over the stamp and keep every other cell; no other buffer changes; the default diameter is W*H/2500 |

## Left out

- Drawing a frame into `ImageData` and the canvas (main.js:207-219), and
  `getContext`: these are output only. W and H are constructor parameters
  rather than read from a canvas.
- The `setTimeout`/`requestAnimationFrame` loop at the end of `render`, the
  two global instances, `injectTwoSides`, pointer and touch handling, and
  `getPaletteColor`: these are host scheduling and demo UI.
- Floating point: cells are exact reals, so rounding, `NaN` and `Infinity` are
  not modelled. `parseInt` on the clamped coordinate (at least 0.5) is
  `.Floor`.
- Nothing is claimed about numerical quality: how far `project` reduces
  divergence, convergence of the ten sweeps, or stability.
- The fade follows the code, which subtracts 0.005 with no clamp at zero. A
  fade clamped at zero for bounded channels is a design requirement that
  `main.js` does not implement.
- Relaxation.Diffuse: requires 1 + 4a != 0 (a = dt * diff * w * w). The
  source would divide by zero there and produce non-finite cells, which exact
  reals cannot represent. The same requirement appears on Steps.DensStep,
  Steps.VelStep and Simulation.Fluid.constructor. It holds whenever diff, dt
  and w are non-negative, which includes the defaults.
- Simulation.Fluid.constructor: requires width and height of at least 1.
  Canvases with no interior are not modelled.
- Projection.Project: requires u, v, p and div to be distinct arrays. Both
  calls in velStep pass four distinct buffers.
- Advection.Advect: requires d to be distinct from d0, u and v. Every call in
  the source meets this.
- Stamping.StampIsDisc: proved only for a diameter of at least zero. With a
  negative diameter the clipped box is empty, so nothing is written, even
  though the distance test alone would accept cells near the centre.
  Stamping.StampedCells describes exactly what is written for every diameter.
