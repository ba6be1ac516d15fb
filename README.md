# Particle level set, 2D and 3D — a Dafny model

The library tracks a moving interface as the zero set of a level-set function `phi`.
`phi` is sampled on a uniform grid that has one ghost cell on every side.
The interface is advected by a velocity field.

- **Advection.** A semi-Lagrangian step traces every interior node back along the velocity.
  It interpolates bilinearly (2D) or trilinearly (3D), and leaves alone the nodes whose value exceeds `SEMILAGRA_LIMIT`; the test is one-sided, so nodes on the negative side are always advected.
- **Reinitialisation.** Fast marching rebuilds `phi` as a signed distance from the front.
  - Cells next to a sign change are initialised from linear crossings.
  - A binary min-heap of "close" cells, with back-indices, grows the accepted region.
  - The heap value is the upwind solution of the discrete Eikonal equation.
  - The march runs twice: once on `-phi` for the negative side, then on the result for the positive side.
- **Particle correction.** Each marker particle carries a sign, a radius (in cells) and a position.
  - A particle that has escaped to the wrong side corrects `phi` in the 2x2 (or 2x2x2) block of nodes around it.
  - Negative particles lower a copy of `phi`, positive ones raise another copy.
  - The two copies are merged by taking, cell by cell, the value of smaller magnitude.
- **Particle sets.**
  - Particles are advected, and those that leave the grid are culled.
  - They are resampled: radii are reset, and particles on the wrong side are discarded.
  - They are reseeded: each cell with a corner near the interface gets a fixed number of random particles.

Both copies of the library are modelled: the 2D one (`Vec2D`, `Grid2D`, `FastMarch2D`,
`Particle2D`, `ParticleSet2D`, `LevelSet2D`) and the 3D one (`Vector`, the 3D grid, `FastMarch`,
`Particle`, `ParticleSet`, `LevelSet`).

How the code is modelled:

- Arithmetic is on `real`.
- The C++ casts `int(x)` and `ceil` are written out as `Numerics.Trunc` and `Numerics.Ceil`.
- The heap's XOR sign test is evaluated on 32-bit two's-complement bit vectors.
- `sqrt` is a parameter, characterised by `IsSqrt`.
- The random generator is an index-to-value stream, with every value in [0, 1).
- The velocity field is a function parameter.

Modules:

- **Shared:** `Numerics` (main.h helpers and constants), `MarchHeap` (the heap and the cell record shared by both marchers), `Eikonal` (the upwind solve), `ParticleLists` (the keep-filter behind culling and resampling).
- **2D:** `Vec2`, `Grid2`, `FastMarch2`, `Particle2`, `ParticleSet2`, `LevelSet2`.
- **3D:** `Vector3`, `Grid3`, `FastMarch3`, `Particle3`, `ParticleSet3`, `LevelSet3`.

## Model

| member | source | states |
|---|---|---|
| Numerics.ConstantsConsistent | pls/LevelSet2D/main.h:127-134 | the tuning constants are mutually consistent: 0 < RADIUS_MIN < RADIUS_MAX < PARTICLE_DELETE, 0 < SEMILAGRA_LIMIT < FASTMARCH_LIMIT |
| Numerics.Clamp | pls/LevelSet2D/main.h:188-192 | the result lies in [a, b] when a <= b, is the input when already in range and a when below |
| Numerics.ClampInt | pls/LevelSet2D/main.h:194-198 | the integer clamp has the same range and fixed-point properties |
| Numerics.ModIsRemainder | pls/LevelSet2D/main.h:205-211 | for b > 0 with bInv = 1/b, the floating modulo built from a truncating cast is the Euclidean remainder a % b, in [0, b) |
| Numerics.Lerp | pls/LevelSet2D/main.h:177 | interpolation returns a at 0 and b at 1, and a constant when a == b |
| Numerics.LerpBetween | pls/LevelSet2D/main.h:177 | for alpha in [0, 1] the interpolant lies between the endpoints |
| Numerics.CmpFtoZeroIsSmallMagnitude | pls/LevelSet2D/main.h:154-157 | the float-equals-zero test holds exactly when the magnitude is below 0.00001 |
| Numerics.MCerpSlopes | pls/LevelSet2D/main.h:165-172 | the monotone cubic's end slopes are zeroed when they oppose the secant, so no slope opposes the data |
| Numerics.MCerp | pls/LevelSet2D/main.h:161-175 | the monotone cubic interpolates its two middle samples at t = 0 and t = 1 |
| Numerics.SmoothStep | pls/LevelSet2D/main.h:200-203 | the smooth step lies in [0, 1], is 0 at or below min and 1 at or above max |
| Numerics.Round | pls/LevelSet2D/main.h:181 | rounding gives the integer n with n <= alpha + 0.5 < n + 1 |
| Numerics.Square | pls/LevelSet2D/main.h:183 | a square is never negative |
| Vec2.Sub | trunk/pls/LevelSet2D/Vec2D.h:77 | subtraction is the inverse of addition: (a - b) + b == a |
| Vec2.AddScalar | trunk/pls/LevelSet2D/Vec2D.h:79 | adding a scalar is adding the vector filled with it |
| Vec2.SubScalar | trunk/pls/LevelSet2D/Vec2D.h:80 | subtracting a scalar undoes adding it |
| Vec2.DivScalar | trunk/pls/LevelSet2D/Vec2D.h:82 | for c != 0, dividing by c and scaling back by c gives the vector |
| Vec2.Neg | trunk/pls/LevelSet2D/Vec2D.h:83 | a vector plus its negation is zero |
| Vec2.ScalarMul | trunk/pls/LevelSet2D/Vec2D.h:96-98 | scalar-on-the-left multiplication equals scaling on the right |
| Vec2.ScalarDiv | trunk/pls/LevelSet2D/Vec2D.h:100-103 | scalar-on-the-left division equals dividing by the scalar |
| Vec2.SquaredLength | trunk/pls/LevelSet2D/Vec2D.h:86 | the squared length equals the dot product with itself and is never negative |
| Vec2.DotSymmetric | trunk/pls/LevelSet2D/Vec2D.h:105-112 | the dot product is symmetric |
| Vec2.ScaleCommutes | trunk/pls/LevelSet2D/Vec2D.h:96-98 | `c * a` (free operator) equals `a * c` (member operator) |
| Vec2.AddCommutes | trunk/pls/LevelSet2D/Vec2D.h:76 | vector addition is commutative |
| Vec2.Vec2DRef.constructor | trunk/pls/LevelSet2D/Vec2D.h:44 | the new vector holds (x, y) |
| Vec2.Vec2DRef.Copy | trunk/pls/LevelSet2D/Vec2D.h:45 | the copy holds the source's value in fresh storage |
| Vec2.Vec2DRef.Set | trunk/pls/LevelSet2D/Vec2D.h:48 | the vector afterwards holds (x, y); z is ignored and the unused third slot is untouched |
| Vec2.Vec2DRef.AddAssign | trunk/pls/LevelSet2D/Vec2D.h:61-62 | `+=` leaves the sum of the old value and the argument |
| Vec2.Vec2DRef.SubAssign | trunk/pls/LevelSet2D/Vec2D.h:63-64 | `-=` leaves the difference |
| Vec2.Vec2DRef.MulAssign | trunk/pls/LevelSet2D/Vec2D.h:65-66 | `*=` by a vector leaves the component-wise product |
| Vec2.Vec2DRef.AddScalarAssign | trunk/pls/LevelSet2D/Vec2D.h:67-68 | `+= c` adds c to both components |
| Vec2.Vec2DRef.SubScalarAssign | trunk/pls/LevelSet2D/Vec2D.h:69-70 | `-= c` subtracts c from both components |
| Vec2.Vec2DRef.ScaleAssign | trunk/pls/LevelSet2D/Vec2D.h:71-72 | `*= c` scales the vector |
| Vec2.Vec2DRef.DivAssign | trunk/pls/LevelSet2D/Vec2D.h:73-74 | `/= c` multiplies by the reciprocal of c |
| Vec2.Vec2DRef.Plus | trunk/pls/LevelSet2D/Vec2D.h:76 | the binary operator returns the sum and leaves both operands unchanged |
| Vec2.Vec2DRef.Minus | trunk/pls/LevelSet2D/Vec2D.h:77 | returns the difference, operands unchanged |
| Vec2.Vec2DRef.Times | trunk/pls/LevelSet2D/Vec2D.h:78 | returns the component-wise product, operands unchanged |
| Vec2.Vec2DRef.PlusScalar | trunk/pls/LevelSet2D/Vec2D.h:79 | returns the vector plus a scalar, operand unchanged |
| Vec2.Vec2DRef.MinusScalar | trunk/pls/LevelSet2D/Vec2D.h:80 | returns the vector minus a scalar, operand unchanged |
| Vec2.Vec2DRef.TimesScalar | trunk/pls/LevelSet2D/Vec2D.h:81 | returns the scaled vector, operand unchanged |
| Vec2.Vec2DRef.Over | trunk/pls/LevelSet2D/Vec2D.h:82 | returns the vector divided by a scalar, operand unchanged |
| Vector3.Sub | pls/LevelSet3D/Vector.h:73 | (a - b) + b == a |
| Vector3.AddScalar | pls/LevelSet3D/Vector.h:75 | adding a scalar is adding the filled vector |
| Vector3.SubScalar | pls/LevelSet3D/Vector.h:76 | subtracting a scalar undoes adding it |
| Vector3.DivScalar | pls/LevelSet3D/Vector.h:78 | for c != 0, dividing by c and scaling back gives the vector |
| Vector3.Neg | pls/LevelSet3D/Vector.h:79 | a vector plus its negation is zero |
| Vector3.ScalarMul | pls/LevelSet3D/Vector.h:92-94 | scalar-on-the-left multiplication equals scaling |
| Vector3.ScalarDiv | pls/LevelSet3D/Vector.h:96-99 | the left scalar division multiplies by the reciprocal of c |
| Vector3.SquaredLength | pls/LevelSet3D/Vector.h:82 | the squared length is the self dot product and never negative |
| Vector3.Cross | pls/LevelSet3D/Vector.h:106-111 | the cross product is orthogonal to both factors |
| Vector3.CrossAntiCommutes | pls/LevelSet3D/Vector.h:117-121 | a x b == -(b x a) |
| Vector3.CrossSelfIsZero | pls/LevelSet3D/Vector.h:117-121 | a x a == 0 |
| Vector3.DotSymmetric | pls/LevelSet3D/Vector.h:101-104 | the dot product (member and free `dot`) is symmetric |
| Vector3.AddCommutes | pls/LevelSet3D/Vector.h:72 | vector addition is commutative |
| Vector3.ScaleCommutes | pls/LevelSet3D/Vector.h:92-94 | `c * a` (free operator) equals `a * c` (member operator) |
| Vector3.VectorRef.constructor | pls/LevelSet3D/Vector.h:37-39 | the new vector holds (x, y, z) |
| Vector3.VectorRef.Copy | pls/LevelSet3D/Vector.h:40 | the copy holds the source's value and is fresh |
| Vector3.VectorRef.Set | pls/LevelSet3D/Vector.h:43 | the vector afterwards holds (x, y, z) |
| Vector3.VectorRef.AddAssign | pls/LevelSet3D/Vector.h:57-58 | `+=` leaves the sum |
| Vector3.VectorRef.SubAssign | pls/LevelSet3D/Vector.h:59-60 | `-=` leaves the difference |
| Vector3.VectorRef.MulAssign | pls/LevelSet3D/Vector.h:61-62 | `*=` leaves the component-wise product |
| Vector3.VectorRef.AddScalarAssign | pls/LevelSet3D/Vector.h:63-64 | `+= c` adds c to every component |
| Vector3.VectorRef.SubScalarAssign | pls/LevelSet3D/Vector.h:65-66 | `-= c` subtracts c from every component |
| Vector3.VectorRef.ScaleAssign | pls/LevelSet3D/Vector.h:67-68 | `*= c` scales the vector |
| Vector3.VectorRef.DivAssign | pls/LevelSet3D/Vector.h:69-70 | `/= c` multiplies by the reciprocal |
| Vector3.VectorRef.Plus | pls/LevelSet3D/Vector.h:72 | returns the sum, operands unchanged |
| Vector3.VectorRef.Minus | pls/LevelSet3D/Vector.h:73 | returns the difference, operands unchanged |
| Vector3.VectorRef.Times | pls/LevelSet3D/Vector.h:74 | returns the component-wise product, operands unchanged |
| Vector3.VectorRef.PlusScalar | pls/LevelSet3D/Vector.h:75 | returns the vector plus a scalar |
| Vector3.VectorRef.MinusScalar | pls/LevelSet3D/Vector.h:76 | returns the vector minus a scalar |
| Vector3.VectorRef.TimesScalar | pls/LevelSet3D/Vector.h:77 | returns the scaled vector |
| Vector3.VectorRef.Over | pls/LevelSet3D/Vector.h:78 | returns the vector divided by a scalar |
| Grid2.StrideIsProduct | trunk/pls/LevelSet2D/Grid2D.h:64 | the row stride of the padded grid is the product (Nx + 2) * j |
| Grid2.ColRowDivMod | trunk/pls/LevelSet2D/Grid2D.h:64 | the cell index decodes back to its column and row |
| Grid2.GIRange | trunk/pls/LevelSet2D/Grid2D.h:64 | every in-grid (i, j) maps into [0, (Nx+2)(Ny+2)) |
| Grid2.GIInjective | trunk/pls/LevelSet2D/Grid2D.h:64 | distinct in-grid coordinates map to distinct indices |
| Grid2.ColRowRange | trunk/pls/LevelSet2D/Grid2D.h:64 | every flat index decodes to in-grid coordinates |
| Grid2.DenseIndex | trunk/pls/LevelSet2D/Grid2D.h:75-77 | for an interior cell the position in the dense, ghost-free input array lies in [0, nx*ny) |
| Grid2.GhostKinds | trunk/pls/LevelSet2D/Grid2D.h:109-115 | every ghost cell is exactly one of: a left/right side cell, a top/bottom cell, or a corner |
| Grid2.BoundaryKeepsInterior | trunk/pls/LevelSet2D/Grid2D.h:109-115 | every boundary rule leaves all interior cells as they were |
| Grid2.SignedDistKeepsInterior | trunk/pls/LevelSet2D/Grid2D.h:179-190 | the signed-distance boundary leaves the interior unchanged |
| Grid2.DirichletZeroesGhosts | trunk/pls/LevelSet2D/Grid2D.h:124-130 | the Dirichlet rule sets every ghost cell to 0 |
| Grid2.SignedDistGhosts | trunk/pls/LevelSet2D/Grid2D.h:179-190 | the signed-distance rule sets every ghost cell to 3*HH |
| Grid2.NeumannCopiesEdges | trunk/pls/LevelSet2D/Grid2D.h:132-143 | under the Neumann rule each ghost edge cell copies its interior neighbour |
| Grid2.UReflectsSides | trunk/pls/LevelSet2D/Grid2D.h:145-156 | the u-velocity rule negates the interior neighbour on the left/right sides and copies it on top/bottom |
| Grid2.VReflectsTopBottom | trunk/pls/LevelSet2D/Grid2D.h:158-169 | the v-velocity rule negates on top/bottom and copies on the sides |
| Grid2.CornersAverage | trunk/pls/LevelSet2D/Grid2D.h:171-177 | each corner becomes the mean of its two adjacent edge ghosts |
| Grid2.MirrorEdges | trunk/pls/LevelSet2D/Grid2D.h:132-169 | under any reflecting rule each ghost edge cell is its interior neighbour times the rule's sign for that side |
| Grid2.BoundaryIdempotent | trunk/pls/LevelSet2D/Grid2D.h:109-115 | applying a boundary twice gives the same grid as applying it once |
| Grid2.SignedDistIdempotent | trunk/pls/LevelSet2D/Grid2D.h:179-190 | the signed-distance boundary is idempotent |
| Grid2.WithCornersIdempotent | trunk/pls/LevelSet2D/Grid2D.h:171-177 | edge-then-corner stages are idempotent |
| Grid2.SubCells | trunk/pls/LevelSet2D/Grid2D.h:90 | cell-wise subtraction is the inverse of cell-wise addition |
| Grid2.ScaleByReciprocal | trunk/pls/LevelSet2D/Grid2D.h:92-93 | for s != 0, scaling by 1/s then by s restores the grid |
| Grid2.DotSymmetric | trunk/pls/LevelSet2D/Grid2D.h:97-98 | the grid dot product is symmetric |
| Grid2.SelfDotNonNegative | trunk/pls/LevelSet2D/Grid2D.h:99 | the grid squared length is never negative |
| Grid2.Grid2D.constructor | trunk/pls/LevelSet2D/Grid2D.h:70-71 | a fresh (Nx+2)(Ny+2) grid of zeros |
| Grid2.Grid2D.Copy | trunk/pls/LevelSet2D/Grid2D.h:72-74 | a fresh grid with the source's size and cells |
| Grid2.Grid2D.FromValues | trunk/pls/LevelSet2D/Grid2D.h:75-77 | a fresh grid whose interior cells take the dense array's values (ghosts are left unspecified, as the source leaves them uninitialised) |
| Grid2.Grid2D.SetValues | trunk/pls/LevelSet2D/Grid2D.h:95-96 | interior cells take the dense values, ghosts keep theirs |
| Grid2.Grid2D.Clear | trunk/pls/LevelSet2D/Grid2D.h:103 | every cell becomes 0 |
| Grid2.Grid2D.Assign | trunk/pls/LevelSet2D/Grid2D.h:88 | the grid's cells become the argument's |
| Grid2.Grid2D.AddAssign | trunk/pls/LevelSet2D/Grid2D.h:89 | cells become the cell-wise sum |
| Grid2.Grid2D.SubAssign | trunk/pls/LevelSet2D/Grid2D.h:90 | cells become the cell-wise difference |
| Grid2.Grid2D.ScaleAssign | trunk/pls/LevelSet2D/Grid2D.h:91 | cells are scaled |
| Grid2.Grid2D.DivAssign | trunk/pls/LevelSet2D/Grid2D.h:92-93 | cells are multiplied by the reciprocal |
| Grid2.Grid2D.Dot | trunk/pls/LevelSet2D/Grid2D.h:97-98 | the loop returns the dot sum over every cell, which is symmetric by Grid2.DotSymmetric |
| Grid2.Grid2D.SquaredLength | trunk/pls/LevelSet2D/Grid2D.h:99 | returns the self dot sum, which is never negative |
| Grid2.Grid2D.SetBoundaryCorner | trunk/pls/LevelSet2D/Grid2D.h:171-177 | the grid becomes its corner-averaged form |
| Grid2.Grid2D.SetBoundaryDirichlet | trunk/pls/LevelSet2D/Grid2D.h:124-130 | the grid becomes the Dirichlet-bounded grid |
| Grid2.Grid2D.SetBoundaryNeumann | trunk/pls/LevelSet2D/Grid2D.h:132-143 | the grid becomes the Neumann-bounded grid |
| Grid2.Grid2D.SetBoundaryU | trunk/pls/LevelSet2D/Grid2D.h:145-156 | the grid becomes the u-velocity-bounded grid |
| Grid2.Grid2D.SetBoundaryV | trunk/pls/LevelSet2D/Grid2D.h:158-169 | the grid becomes the v-velocity-bounded grid |
| Grid2.Grid2D.SetBoundarySignedDist | trunk/pls/LevelSet2D/Grid2D.h:179-190 | the grid becomes the signed-distance-bounded grid |
| Grid2.Grid2D.SetBoundary | trunk/pls/LevelSet2D/Grid2D.h:109-115 | the grid becomes the specified boundary for b (0 Neumann, 1 u, 2 v, otherwise Dirichlet); interior kept, idempotent by the lemmas above |
| Grid3.GI3IsProduct | pls/LevelSet3D/FastMarch.cpp:3-5 | the 3D flat index is i + (Nx+2)(j + (Ny+2)k) |
| Grid3.Size3IsProduct | pls/LevelSet3D/FastMarch.cpp:3-5 | the grid has (Nx+2)(Ny+2)(Nz+2) cells |
| Grid3.GI3Range | pls/LevelSet3D/FastMarch.cpp:3-5 | every in-grid (i, j, k) maps into range |
| Grid3.Coords3 | pls/LevelSet3D/FastMarch.cpp:3-5 | every flat index decodes to in-grid coordinates that encode back to it |
| Grid3.GI3Injective | pls/LevelSet3D/FastMarch.cpp:3-5 | distinct coordinates give distinct indices |
| Grid3.SignedDist3Cells | trunk/pls/LevelSet3D/LevelSet.cpp:12-13 | the 3D signed-distance boundary sets every ghost (faces, edges, corners) to 3*HH and keeps the interior; the rule is the 2D one of Grid2D.h:179-190, assumed for 3D (see "## Left out") |
| Grid3.SignedDist3Idempotent | trunk/pls/LevelSet3D/LevelSet.cpp:12-13 | applying it twice equals applying it once |
| Grid3.Grid3D.constructor | pls/LevelSet3D/LevelSet.h:81-83 | a fresh zero grid of the padded size |
| Grid3.Grid3D.Assign | trunk/pls/LevelSet3D/LevelSet.cpp:63-64 | the grid's cells become the argument's |
| Grid3.Grid3D.SetBoundarySignedDist | trunk/pls/LevelSet3D/LevelSet.cpp:12-13 | the grid becomes its signed-distance-bounded form `SignedDist3` of the old cells (rule assumed from 2D, see "## Left out") |
| MarchHeap.AddToHeap | trunk/pls/LevelSet2D/FastMarch2D.cpp:194-210 | the heap grows by one, back-indices stay consistent, heap order is kept, the heap's cell set gains exactly the new index, keys are unchanged |
| MarchHeap.UpdateHeap | trunk/pls/LevelSet2D/FastMarch2D.cpp:212-225 | after a key decrease, sifting up restores heap order; cell set and keys unchanged |
| MarchHeap.PopHeap | trunk/pls/LevelSet2D/FastMarch2D.cpp:239-275 | an empty heap gives -1 and changes nothing; otherwise the old root is returned, it is a minimum of an ordered heap, it becomes Done, values stay, order is kept and it leaves the heap |
| MarchHeap.RootIsMin | trunk/pls/LevelSet2D/FastMarch2D.cpp:239-243 | in an ordered heap the root's value is at most every entry's |
| MarchHeap.HeapCellsCount | trunk/pls/LevelSet2D/FastMarch2D.cpp:194-210 | a linked heap of size n holds n distinct cells |
| MarchHeap.HeapRoom | trunk/pls/LevelSet2D/FastMarch2D.cpp:194-199 | if a cell is not in the heap, the heap array (as long as the grid) has room to add it |
| MarchHeap.XorSign | trunk/pls/LevelSet2D/FastMarch2D.cpp:76 | for flags in {-1, 0, 1}, the 32-bit XOR is negative exactly when the two flags differ in sign |
| MarchHeap.LoadedFlags | trunk/pls/LevelSet2D/FastMarch2D.cpp:50-55 | loading a value negates it, clears the heap position and flags it fixed (-1) iff the stored value is negative |
| MarchHeap.LoadTwice | pls/LevelSet3D/FastMarch.cpp:12-20 | loading the loaded value again restores the original value, as the second reinitialisation pass relies on |
| MarchHeap.OrderedOutside | trunk/pls/LevelSet2D/FastMarch2D.cpp:166-168 | writing the value of a cell not in the heap keeps the heap ordered |
| MarchHeap.OpenCellsShrink | trunk/pls/LevelSet2D/FastMarch2D.cpp:239-246 | turning one open cell Done shrinks the open set by one, so the march terminates |
| MarchHeap.KeptGrowTrans | trunk/pls/LevelSet2D/FastMarch2D.cpp:227-237 | "fixed cells stay and flags only grow" composes across steps |
| Eikonal.Axis | trunk/pls/LevelSet2D/FastMarch2D.cpp:172-188 | the axis neighbour value is flagged iff a neighbour is Done, and is the smaller one when both are |
| Eikonal.CheckMax2Rule | trunk/pls/LevelSet2D/FastMarch2D.cpp:190-192 | when the two axis values are more than h apart the two-term stencil falls back to one term; otherwise it is unchanged |
| Eikonal.Select2Max | trunk/pls/LevelSet2D/FastMarch2D.cpp:148-157 | with both axes active, axes more than h apart keep only the smaller value, otherwise both values are used |
| Eikonal.Select2Upwind | trunk/pls/LevelSet2D/FastMarch2D.cpp:148-157 | the selected 2D stencil is upwind-consistent |
| Eikonal.CheckMax3Rule | pls/LevelSet3D/FastMarch.cpp:240-244 | when (p-q)^2 + (p-r)^2 exceeds h^2 the three-term stencil falls back to two terms, dropping p; otherwise it is unchanged |
| Eikonal.Max3Rule | pls/LevelSet3D/FastMarch.cpp:240-244 | the three-term test keeps two or three terms, and keeps three only when the stencil is close around its largest value |
| Eikonal.Select3DropsLargest | pls/LevelSet3D/FastMarch.cpp:185-203 | the 3D selection drops the largest value when it is too far from the others |
| Eikonal.Select3Upwind | pls/LevelSet3D/FastMarch.cpp:185-203 | the selected 3D stencil is upwind-consistent |
| Eikonal.QuotientBound | trunk/pls/LevelSet2D/FastMarch2D.cpp:159-165 | with a Done neighbour the discriminant quotient is at least h^2, so the negative branch never fires |
| Eikonal.RootSolves | trunk/pls/LevelSet2D/FastMarch2D.cpp:159-165 | the quadratic root solves the discrete Eikonal equation |
| Eikonal.RootIsUpwind | trunk/pls/LevelSet2D/FastMarch2D.cpp:159-165 | the root has zero residual and lies above the active neighbour values |
| Eikonal.RootNonNegative | trunk/pls/LevelSet2D/FastMarch2D.cpp:159-165 | the root of a non-negative stencil is non-negative |
| Eikonal.UpwindRoot | pls/LevelSet3D/FastMarch.cpp:205-215 | the upwind solution: the root solves the equation and dominates every term |
| FastMarch2.GIJInvertsGI | trunk/pls/LevelSet2D/FastMarch2D.h:126-127 | decoding the flat index with the reciprocal row length gives back (i, j) |
| FastMarch2.SweptSigns | trunk/pls/LevelSet2D/FastMarch2D.cpp:65-117 | a sweep never changes which cells are fixed, leaves fixed cells alone and keeps flags in {-1, 0, 1} |
| FastMarch2.InitializedAt | trunk/pls/LevelSet2D/FastMarch2D.cpp:65-117 | the initialised cell is the crossing-update of its four neighbours in sweep order |
| FastMarch2.InitializedChain | trunk/pls/LevelSet2D/FastMarch2D.cpp:65-117 | the initialised value of an interior cell is the chain of crossings with its four neighbours |
| FastMarch2.SweptKeeps | trunk/pls/LevelSet2D/FastMarch2D.cpp:65-117 | a sweep keeps flags in range, ghosts fixed, and only raises flags |
| FastMarch2.InitializedKeeps | trunk/pls/LevelSet2D/FastMarch2D.cpp:65-117 | initialisation never raises a value, keeps fixed cells and heap positions, and keeps non-negativity |
| FastMarch2.SeedNextToDone | trunk/pls/LevelSet2D/FastMarch2D.cpp:119-136 | a cell next to a Done cell counts as a heap seed |
| FastMarch2.DiscriminantPositive | trunk/pls/LevelSet2D/FastMarch2D.cpp:159-169 | the quotient is at least h^2 > 0 and the stencil has one or two terms |
| FastMarch2.FastMarch2D.constructor | trunk/pls/LevelSet2D/FastMarch2D.cpp:3-9 | fresh cell and heap arrays of the padded size, empty heap |
| FastMarch2.FastMarch2D.Set | trunk/pls/LevelSet2D/FastMarch2D.cpp:50-55 | the cell is loaded: value negated, heap position -1, flag -1 iff the stored value is negative |
| FastMarch2.FastMarch2D.SetBoundary | trunk/pls/LevelSet2D/FastMarch2D.cpp:57-63 | exactly the ghost cells are pinned fixed; interior cells unchanged |
| FastMarch2.FastMarch2D.Pin | trunk/pls/LevelSet2D/FastMarch2D.cpp:59-62 | one cell's flag becomes -1, nothing else changes |
| FastMarch2.FastMarch2D.AddClose | trunk/pls/LevelSet2D/FastMarch2D.cpp:119-126 | the close list gains the index exactly when the cell is open |
| FastMarch2.FastMarch2D.Cross | trunk/pls/LevelSet2D/FastMarch2D.cpp:76-89 | the cell gets the crossing update against a fixed neighbour, and the seed list stays valid |
| FastMarch2.FastMarch2D.CrossPair | trunk/pls/LevelSet2D/FastMarch2D.cpp:76-89 | at a sign change the non-fixed cell of the pair is updated |
| FastMarch2.FastMarch2D.SweepLine | trunk/pls/LevelSet2D/FastMarch2D.cpp:72-90 | one full line is swept, as the sweep specification says |
| FastMarch2.FastMarch2D.Initialize | trunk/pls/LevelSet2D/FastMarch2D.cpp:65-117 | the cells become the specified initialisation of the old cells; close list only grows |
| FastMarch2.FastMarch2D.FindPhi | trunk/pls/LevelSet2D/FastMarch2D.cpp:138-170 | a negative quotient changes nothing; otherwise the cell gets the upwind Eikonal root and is in the heap |
| FastMarch2.FastMarch2D.SolvePhi | trunk/pls/LevelSet2D/FastMarch2D.cpp:143-165 | solved iff the quotient is non-negative, and then the value solves the upwind equation |
| FastMarch2.FastMarch2D.StorePhi | trunk/pls/LevelSet2D/FastMarch2D.cpp:166-168 | the value is stored, the cell is in the heap, the heap grows iff the cell was new |
| FastMarch2.FastMarch2D.InitPoint | trunk/pls/LevelSet2D/FastMarch2D.cpp:128-136 | an open seed ends in the heap, which stays ordered |
| FastMarch2.FastMarch2D.InitHeap | trunk/pls/LevelSet2D/FastMarch2D.cpp:128-136 | every open cell of the close list ends in an ordered heap; flags and fixed cells are unchanged |
| FastMarch2.FastMarch2D.MarchNeighbour | trunk/pls/LevelSet2D/FastMarch2D.cpp:231-235 | a neighbour of the accepted cell is queued, and if it was open its value solves the upwind equation |
| FastMarch2.FastMarch2D.MarchFrom | trunk/pls/LevelSet2D/FastMarch2D.cpp:231-235 | all four neighbours of an accepted cell are queued |
| FastMarch2.FastMarch2D.Pop | trunk/pls/LevelSet2D/FastMarch2D.cpp:239-246 | -1 iff the heap was empty; otherwise an interior open cell becomes Done and the open set shrinks by one |
| FastMarch2.FastMarch2D.FastMarch | trunk/pls/LevelSet2D/FastMarch2D.cpp:227-237 | the march stops when the heap empties or after accepting a value above FASTMARCH_LIMIT; fixed cells stay and flags only grow |
| FastMarch2.FastMarch2D.ReinitHalf | trunk/pls/LevelSet2D/FastMarch2D.cpp:40-48 | one pass keeps fixed (negative) and ghost values, and non-negative values stay non-negative |
| FastMarch2.FastMarch2D.Reinitialize | trunk/pls/LevelSet2D/FastMarch2D.cpp:32-38 | negative interior inputs end non-negative; a non-negative input's mid value is non-negative and, when positive, the result is its negation; ghosts end negated |
| FastMarch3.GIJKInvertsGI | pls/LevelSet3D/FastMarch.cpp:161 | decoding the flat index gives back (i, j, k) |
| FastMarch3.GIInvertsGIJK | pls/LevelSet3D/FastMarch.cpp:283 | encoding the decoded coordinates gives back the index |
| FastMarch3.SweptKeeps | pls/LevelSet3D/FastMarch.cpp:62-146 | a 3D sweep keeps flags in range, ghosts fixed, and only raises flags |
| FastMarch3.SweptFlag | pls/LevelSet3D/FastMarch.cpp:62-146 | a sweep either keeps a cell's flag or turns an open cell into a Done one; flags stay in {-1, 0, 1} |
| FastMarch3.InitializedKeeps | pls/LevelSet3D/FastMarch.cpp:62-146 | initialisation never raises a value, keeps fixed cells, and keeps non-negativity |
| FastMarch3.SeedNextToDone | pls/LevelSet3D/FastMarch.cpp:148-165 | a cell next to a Done cell counts as a heap seed |
| FastMarch3.DiscriminantPositive | pls/LevelSet3D/FastMarch.cpp:205-215 | the quotient is at least h^2 > 0 and the stencil has one to three terms |
| FastMarch3.FastMarch3D.constructor | pls/LevelSet3D/FastMarch.cpp:3-10 | fresh arrays of the padded 3D size, empty heap |
| FastMarch3.FastMarch3D.Set | pls/LevelSet3D/FastMarch.cpp:32-37 | the cell is loaded (negated, unqueued, flagged by sign) |
| FastMarch3.FastMarch3D.SetBoundary | pls/LevelSet3D/FastMarch.cpp:39-60 | exactly the ghost cells of all faces, edges and corners are pinned |
| FastMarch3.FastMarch3D.AddClose | pls/LevelSet3D/FastMarch.cpp:148-155 | the close list gains the index exactly when the cell is open |
| FastMarch3.FastMarch3D.SweepAll | pls/LevelSet3D/FastMarch.cpp:62-146 | all lines in one direction are swept as specified |
| FastMarch3.FastMarch3D.Initialize | pls/LevelSet3D/FastMarch.cpp:62-146 | cells become the specified three-direction initialisation |
| FastMarch3.FastMarch3D.FindPhi | pls/LevelSet3D/FastMarch.cpp:167-216 | a negative quotient changes nothing; otherwise the 3D upwind root is stored in the heap |
| FastMarch3.FastMarch3D.InitHeap | pls/LevelSet3D/FastMarch.cpp:157-165 | every open close-list cell is in an ordered heap |
| FastMarch3.FastMarch3D.MarchFrom | pls/LevelSet3D/FastMarch.cpp:284-289 | all six neighbours of an accepted cell are queued |
| FastMarch3.FastMarch3D.Pop | pls/LevelSet3D/FastMarch.cpp:293-300 | -1 iff the heap was empty; otherwise an open cell becomes Done and the open set shrinks |
| FastMarch3.FastMarch3D.March | pls/LevelSet3D/FastMarch.cpp:279-291 | stops on an empty heap or after accepting a value above FASTMARCH_LIMIT; fixed cells stay |
| FastMarch3.FastMarch3D.ReinitHalf | pls/LevelSet3D/FastMarch.cpp:22-30 | one pass keeps fixed and ghost values and non-negativity |
| FastMarch3.FastMarch3D.Reinitialize | pls/LevelSet3D/FastMarch.cpp:12-20 | positive level-set values end non-negative; a non-positive value has a non-negative first-pass distance and, when that is positive, ends as its negation; ghost cells keep their values |
| Particle2.SignOf | pls/LevelSet2D/Particle2D.h:71 | the sign is +1 or -1, and -1 exactly for negative phi |
| Particle2.ClampRadius | pls/LevelSet2D/Particle2D.h:72-74 | the radius is clamped into [RADIUS_MIN, RADIUS_MAX] |
| Particle2.ClampRadiusIsClamp | pls/LevelSet2D/Particle2D.h:72-74 | the radius clamp is the general clamp of main.h |
| Particle2.InitialRadius | pls/LevelSet2D/Particle2D.h:72-74 | the constructor's radius is in range and equals the resampling radius for hInv >= 0 |
| Particle2.SameSideAccepted | pls/LevelSet2D/Particle2D.h:85 | a particle on the side its sign says is never rejected |
| Particle2.PhiAt | pls/LevelSet2D/Particle2D.h:78-79 | the particle's local phi is sign*radius*h at its centre and 0 on its sphere |
| Particle2.AdvectedStill | pls/LevelSet2D/Particle2D.h:91-100 | zero velocity leaves the particle in place |
| Particle2.AdvectedUniform | pls/LevelSet2D/Particle2D.h:91-100 | a uniform velocity moves it by dt*u in cell units |
| Particle2.DeepNegativeSeed | pls/LevelSet2D/Particle2D.h:69-76 | a particle seeded deep inside gets sign -1 and the maximal radius |
| Particle2.Particle2D.constructor | pls/LevelSet2D/Particle2D.h:69-76 | sign from phi, clamped radius, given position |
| Particle2.Particle2D.PhiAtPosition | pls/LevelSet2D/Particle2D.h:78-79 | at its own position the particle's phi is sign*radius*h |
| Particle2.Particle2D.SetRadius | pls/LevelSet2D/Particle2D.h:83-90 | false exactly when phi has the opposite sign and magnitude above PARTICLE_DELETE, and then the radius is unchanged; otherwise the radius is reset to the clamped \|phi\|*hInv; position unchanged; the sign is a constant field |
| Particle2.Particle2D.Update | pls/LevelSet2D/Particle2D.h:91-100 | the position is advected, the radius unchanged |
| Particle3.SignOf | trunk/pls/LevelSet3D/Particle.h:70 | the sign is +1 or -1, and -1 exactly for negative phi |
| Particle3.ClampRadius | trunk/pls/LevelSet3D/Particle.h:71-73 | the radius is clamped into range |
| Particle3.ClampRadiusIsClamp | trunk/pls/LevelSet3D/Particle.h:71-73 | it is the general clamp |
| Particle3.InitialRadius | trunk/pls/LevelSet3D/Particle.h:71-73 | in range, and equals the resampling radius for hInv >= 0 |
| Particle3.SameSideAccepted | trunk/pls/LevelSet3D/Particle.h:84 | a particle on its own side is never rejected |
| Particle3.PhiAt | trunk/pls/LevelSet3D/Particle.h:77-78 | sign*radius*h at the centre, 0 on the sphere |
| Particle3.AdvectedStill | trunk/pls/LevelSet3D/Particle.h:90-99 | zero velocity leaves the particle in place |
| Particle3.AdvectedUniform | trunk/pls/LevelSet3D/Particle.h:90-99 | a uniform velocity moves it by dt*u in cell units |
| Particle3.DeepNegativeSeed | trunk/pls/LevelSet3D/Particle.h:68-75 | a deep interior seed gets sign -1 and the maximal radius |
| Particle3.Particle.constructor | trunk/pls/LevelSet3D/Particle.h:68-75 | sign from phi, clamped radius, given position |
| Particle3.Particle.PhiAtPosition | trunk/pls/LevelSet3D/Particle.h:77-78 | at its own position the particle's phi is sign*radius*h |
| Particle3.Particle.SetRadius | trunk/pls/LevelSet3D/Particle.h:82-89 | false exactly for an opposite-sign phi above PARTICLE_DELETE, radius then unchanged; otherwise the radius is reset to the clamped \|phi\|*hInv |
| Particle3.Particle.Update | trunk/pls/LevelSet3D/Particle.h:90-99 | position advected, radius unchanged |
| ParticleLists.Filter | trunk/pls/LevelSet2D/ParticleSet2D.h:74-88 | the kept list is never longer than the input |
| ParticleLists.FilterSound | trunk/pls/LevelSet2D/ParticleSet2D.h:74-88 | every kept particle is an input particle marked to keep, in the original order |
| ParticleLists.FilterComplete | trunk/pls/LevelSet2D/ParticleSet2D.h:74-88 | every particle marked to keep is in the result |
| ParticleLists.FilterDistinct | trunk/pls/LevelSet2D/ParticleSet2D.h:74-88 | filtering a list of distinct particles gives distinct particles |
| ParticleLists.FilterSnoc | trunk/pls/LevelSet2D/ParticleSet2D.h:74-88 | the loop's one-step extension of the kept list |
| ParticleSet2.AsWrittenKeepsUnsampleable | trunk/pls/LevelSet2D/ParticleSet2D.h:84-85 | the written cull keeps a particle at x = Nx+1 that the sampler cannot index |
| ParticleSet2.KeptIsSampleable | trunk/pls/LevelSet2D/ParticleSet2D.h:84-85 | with the corrected cull, a particle is kept iff it can be sampled |
| ParticleSet2.OutsideDiffers | trunk/pls/LevelSet2D/ParticleSet2D.h:84-85 | the two culls differ only on the far faces x = Nx+1 or y = Ny+1 |
| ParticleSet2.FilterValid | trunk/pls/LevelSet2D/ParticleSet2D.h:74-88 | filtering valid sampleable particles gives a well-formed set |
| ParticleSet2.NearUpToCorners | trunk/pls/LevelSet2D/ParticleSet2D.h:109-112 | a cell is reseeded iff one of its four corners has |phi| below the threshold |
| ParticleSet2.NodeSeeds | trunk/pls/LevelSet2D/ParticleSet2D.h:113-118 | each reseeded cell gets PARTICLES_PER_NODE seeds |
| ParticleSet2.NodeSeedsInCell | trunk/pls/LevelSet2D/ParticleSet2D.h:115-117 | every seed lies inside its cell |
| ParticleSet2.SeedsSampleable | trunk/pls/LevelSet2D/ParticleSet2D.h:107-118 | every seed lies in the sampleable interior |
| ParticleSet2.SeedsCount | trunk/pls/LevelSet2D/ParticleSet2D.h:107-118 | the number of seeds is a multiple of PARTICLES_PER_NODE |
| ParticleSet2.FarCellAddsNothing | trunk/pls/LevelSet2D/ParticleSet2D.h:109-112 | a cell with no corner near the interface adds no seeds |
| ParticleSet2.SeededPush | trunk/pls/LevelSet2D/ParticleSet2D.h:115-117 | appending a particle built from a new seed keeps the seeding relation |
| ParticleSet2.ParticleSet2D.constructor | trunk/pls/LevelSet2D/ParticleSet2D.h:64 | an empty set with hInv = 1/h |
| ParticleSet2.ParticleSet2D.Update | trunk/pls/LevelSet2D/ParticleSet2D.h:74-88 | every particle is advected; the kept list is the advected old list filtered, in order, by the corrected cull (a coordinate `< 0` or `>= N+1` erases) |
| ParticleSet2.ParticleSet2D.Resample | trunk/pls/LevelSet2D/ParticleSet2D.h:89-100 | the kept list is the old list filtered by acceptance; accepted radii are reset from the sampled phi |
| ParticleSet2.ParticleSet2D.Reseed | trunk/pls/LevelSet2D/ParticleSet2D.h:101-121 | the set becomes fresh particles, one per specified seed, each built from phi sampled where it is |
| ParticleSet2.ParticleSet2D.Reseeds | trunk/pls/LevelSet2D/ParticleSet2D.h:109-112 | the corner loop's verdict is the nearness of any of the four corners |
| ParticleSet3.AsWrittenKeepsUnsampleable | pls/LevelSet3D/ParticleSet.h:84-86 | the written cull keeps a particle at x = Nx+1 that the sampler cannot index |
| ParticleSet3.KeptIsSampleable | pls/LevelSet3D/ParticleSet.h:84-86 | with the corrected cull, a particle is kept iff it can be sampled |
| ParticleSet3.OutsideDiffers | pls/LevelSet3D/ParticleSet.h:84-86 | the two culls differ only on the far faces |
| ParticleSet3.FilterValid | pls/LevelSet3D/ParticleSet.h:74-89 | filtering valid sampleable particles gives a well-formed set |
| ParticleSet3.CornerValuesAt | pls/LevelSet3D/ParticleSet.h:112-120 | entry 4dx+2dy+dz of the corner list is \|phi\| at corner (i+dx, j+dy, k+dz) |
| ParticleSet3.FlagUpToSome | pls/LevelSet3D/ParticleSet.h:112-120 | the corner loop's flag is set iff some corner up to there passes the test |
| ParticleSet3.CellCountByCorners | pls/LevelSet3D/ParticleSet.h:116-122 | a cell gets perInterface seeds when some corner is within h, PARTICLES_PER_NODE when one is near, else none |
| ParticleSet3.NodeSeeds | pls/LevelSet3D/ParticleSet.h:123-129 | a cell yields exactly the requested number of seeds |
| ParticleSet3.NodeSeedsInCell | pls/LevelSet3D/ParticleSet.h:123-129 | every seed lies inside its cell |
| ParticleSet3.AllSeedsSampleable | pls/LevelSet3D/ParticleSet.h:109-129 | every seed lies in the sampleable interior |
| ParticleSet3.SeedsNextCell | pls/LevelSet3D/ParticleSet.h:109-129 | advancing one cell appends exactly that cell's seeds |
| ParticleSet3.ZeroCountAddsNothing | pls/LevelSet3D/ParticleSet.h:121-122 | a cell with no near corner adds no seeds |
| ParticleSet3.SeededPush | pls/LevelSet3D/ParticleSet.h:123-129 | appending a particle built from a new seed keeps the seeding relation |
| ParticleSet3.ParticleSet.constructor | pls/LevelSet3D/ParticleSet.h:64 | an empty set with hInv = 1/h |
| ParticleSet3.ParticleSet.Update | pls/LevelSet3D/ParticleSet.h:74-89 | every particle is advected; the kept list is the advected old list filtered, in order, by the corrected cull (a coordinate `< 0` or `>= N+1` erases) |
| ParticleSet3.ParticleSet.Resample | pls/LevelSet3D/ParticleSet.h:90-101 | kept = old list filtered by acceptance; accepted radii reset from the sampled phi |
| ParticleSet3.ParticleSet.Reseed | pls/LevelSet3D/ParticleSet.h:102-133 | the set becomes fresh particles, one per specified seed |
| ParticleSet3.ParticleSet.Reseeds | pls/LevelSet3D/ParticleSet.h:112-120 | the corner loop's two flags are "some corner near" and "some corner within h" |
| LevelSet2.LinearSampleAtNode | pls/LevelSet2D/LevelSet2D.cpp:107-118 | bilinear sampling at a grid node returns that node's value |
| LevelSet2.LinearSampleBounded | pls/LevelSet2D/LevelSet2D.cpp:107-118 | bilinear samples lie within the grid's bounds |
| LevelSet2.CubicIndices | pls/LevelSet2D/LevelSet2D.cpp:129-130 | the four stencil rows are clamped into the grid and bracket the sample |
| LevelSet2.CubicSampleAtNode | pls/LevelSet2D/LevelSet2D.cpp:120-136 | cubic sampling at a node returns the node's value, the same as linear sampling |
| LevelSet2.Departure | pls/LevelSet2D/LevelSet2D.cpp:27-32 | the departure cell is clamped into [0, n] and is the node itself for zero displacement |
| LevelSet2.StepValue | pls/LevelSet2D/LevelSet2D.cpp:16-41 | nodes whose value exceeds SEMILAGRA_LIMIT keep their value; nodes on the negative side are always advected |
| LevelSet2.StepStill | pls/LevelSet2D/LevelSet2D.cpp:16-41 | zero velocity leaves the node's value unchanged |
| LevelSet2.StepConstant | pls/LevelSet2D/LevelSet2D.cpp:34-40 | a constant field is advected to itself |
| LevelSet2.BilinearOfConstant | pls/LevelSet2D/LevelSet2D.cpp:34-40 | the bilinear weights sum to one |
| LevelSet2.AdvectCells | pls/LevelSet2D/LevelSet2D.cpp:5-14 | the advected grid holds the step value at every interior node and keeps the scratch ghosts |
| LevelSet2.UpdateResult | pls/LevelSet2D/LevelSet2D.cpp:5-14 | after an update every ghost is 3*HH, and zero velocity leaves the interior unchanged |
| LevelSet2.Correct | pls/LevelSet2D/LevelSet2D.cpp:85-105 | lowering never raises, raising never lowers, and the result is the old value or the particle's phi |
| LevelSet2.BlockCells | pls/LevelSet2D/LevelSet2D.cpp:85-105 | the 2x2 block around the particle is corrected, every other cell kept |
| LevelSet2.FixBlockTouches | pls/LevelSet2D/LevelSet2D.cpp:85-105 | a block fix moves the grid only in its direction and only in the block |
| LevelSet2.CorrectedMonotone | pls/LevelSet2D/LevelSet2D.cpp:60-75 | negative corrections only lower the grid, positive ones only raise it |
| LevelSet2.CorrectedNoEscape | pls/LevelSet2D/LevelSet2D.cpp:67-72 | with no escaped particle the correction is the identity |
| LevelSet2.Pick | pls/LevelSet2D/LevelSet2D.cpp:77-82 | the merge keeps the value of smaller magnitude, ties going to the negative copy |
| LevelSet2.MergeCells | pls/LevelSet2D/LevelSet2D.cpp:77-82 | merged cells pick from the two copies; row 0 and column 0 keep phi |
| LevelSet2.FixedNoEscape | pls/LevelSet2D/LevelSet2D.cpp:50-83 | with no escaped particle, Fix leaves phi unchanged |
| LevelSet2.FixedBetween | pls/LevelSet2D/LevelSet2D.cpp:50-83 | the fixed grid lies between the lowered and raised copies and has the smaller magnitude |
| LevelSet2.LevelSet2D.constructor | trunk/pls/LevelSet2D/LevelSet2D.h:78-80 | a zero phi grid of the padded size |
| LevelSet2.LevelSet2D.Initialize | trunk/pls/LevelSet2D/LevelSet2D.h:87 | phi becomes a copy of the given grid |
| LevelSet2.LevelSet2D.SemiLagrangianStep | pls/LevelSet2D/LevelSet2D.cpp:16-41 | the scratch node takes the specified step value |
| LevelSet2.LevelSet2D.Update | pls/LevelSet2D/LevelSet2D.cpp:5-14 | the grids swap, and phi becomes the advected grid with the signed-distance boundary |
| LevelSet2.LevelSet2D.ReInitialize | pls/LevelSet2D/LevelSet2D.cpp:43-48 | ghosts end 3*HH; positive interior phi stays non-negative; non-positive interior phi ends as the negated first-pass distance when that is positive |
| LevelSet2.LevelSet2D.FixNeg | pls/LevelSet2D/LevelSet2D.cpp:85-94 | the negative copy becomes its lowered 2x2 block fix |
| LevelSet2.LevelSet2D.FixPos | pls/LevelSet2D/LevelSet2D.cpp:96-105 | the positive copy becomes its raised 2x2 block fix |
| LevelSet2.LevelSet2D.Fix | pls/LevelSet2D/LevelSet2D.cpp:50-83 | both copies become the specified corrections and phi becomes their merge |
| LevelSet2.LevelSet2D.CorrectWith | pls/LevelSet2D/LevelSet2D.cpp:60-75 | one particle corrects the copy of its sign if it escaped |
| LevelSet2.LevelSet2D.MergeScratch | pls/LevelSet2D/LevelSet2D.cpp:77-82 | phi becomes the merge of the two copies |
| LevelSet3.LinearSampleAtNode | trunk/pls/LevelSet3D/LevelSet.cpp:113-132 | trilinear sampling at a node returns its value |
| LevelSet3.LinearSampleBounded | trunk/pls/LevelSet3D/LevelSet.cpp:113-132 | trilinear samples lie within the grid's bounds |
| LevelSet3.CubicSampleAtNode | trunk/pls/LevelSet3D/LevelSet.cpp:134-181 | cubic sampling at a node returns its value, as linear does |
| LevelSet3.SamplePhiAtNode | trunk/pls/LevelSet3D/LevelSet.cpp:113-181 | whichever sampler is chosen, a node sample is the node's value |
| LevelSet3.StepValue | trunk/pls/LevelSet3D/LevelSet.cpp:16-48 | nodes whose value exceeds SEMILAGRA_LIMIT keep their value; nodes on the negative side are always advected |
| LevelSet3.StepStill | trunk/pls/LevelSet3D/LevelSet.cpp:16-48 | zero velocity leaves a node unchanged |
| LevelSet3.StepConstant | trunk/pls/LevelSet3D/LevelSet.cpp:36-47 | a constant field is advected to itself |
| LevelSet3.TrilinearOfConstant | trunk/pls/LevelSet3D/LevelSet.cpp:40-47 | the trilinear weights sum to one |
| LevelSet3.InterpolatedConstant | trunk/pls/LevelSet3D/LevelSet.cpp:40-47 | interpolating eight equal values gives that value |
| LevelSet3.AdvectCells | trunk/pls/LevelSet3D/LevelSet.cpp:5-14 | interior nodes hold the step value, scratch ghosts kept |
| LevelSet3.UpdateResult | trunk/pls/LevelSet3D/LevelSet.cpp:5-14 | ghosts become 3*HH, zero velocity keeps the interior |
| LevelSet3.BlockCells | trunk/pls/LevelSet3D/LevelSet.cpp:87-111 | the 2x2x2 block is corrected, every other cell kept |
| LevelSet3.FixBlockTouches | trunk/pls/LevelSet3D/LevelSet.cpp:87-111 | a block fix moves only in its direction and only in the block |
| LevelSet3.CorrectedMonotone | trunk/pls/LevelSet3D/LevelSet.cpp:65-77 | negative corrections lower, positive ones raise |
| LevelSet3.CorrectedNoEscape | trunk/pls/LevelSet3D/LevelSet.cpp:72-76 | with no escaped particle the correction is the identity |
| LevelSet3.MergeCells | trunk/pls/LevelSet3D/LevelSet.cpp:79-84 | merged cells pick the smaller magnitude; the low faces keep phi |
| LevelSet3.FixedNoEscape | trunk/pls/LevelSet3D/LevelSet.cpp:55-85 | with no escaped particle, Fix leaves phi unchanged |
| LevelSet3.FixedBetween | trunk/pls/LevelSet3D/LevelSet.cpp:55-85 | the fixed grid lies between the two copies with the smaller magnitude |
| LevelSet3.LevelSet3D.constructor | pls/LevelSet3D/LevelSet.h:81-83 | a zero phi grid of size (Nx+2)(Ny+2)(Nz+2) |
| LevelSet3.LevelSet3D.Initialize | pls/LevelSet3D/LevelSet.h:90 | phi becomes a copy of the given grid |
| LevelSet3.LevelSet3D.SemiLagrangianStep | trunk/pls/LevelSet3D/LevelSet.cpp:16-48 | the scratch node takes the specified step value |
| LevelSet3.LevelSet3D.Update | trunk/pls/LevelSet3D/LevelSet.cpp:5-14 | grids swap; phi becomes the advected, signed-distance-bounded grid |
| LevelSet3.LevelSet3D.AdvectInterior | trunk/pls/LevelSet3D/LevelSet.cpp:7-9 | the scratch grid becomes the advected grid |
| LevelSet3.LevelSet3D.ReInitialize | trunk/pls/LevelSet3D/LevelSet.cpp:50-53 | ghosts end 3*HH; positive interior phi stays non-negative; non-positive interior phi ends as the negated first-pass distance when that is positive |
| LevelSet3.LevelSet3D.FixNeg | trunk/pls/LevelSet3D/LevelSet.cpp:87-98 | the negative copy becomes its lowered block fix |
| LevelSet3.LevelSet3D.FixPos | trunk/pls/LevelSet3D/LevelSet.cpp:100-111 | the positive copy becomes its raised block fix |
| LevelSet3.LevelSet3D.Fix | trunk/pls/LevelSet3D/LevelSet.cpp:55-85 | both copies become the specified corrections, phi their merge |
| LevelSet3.LevelSet3D.CorrectWith | trunk/pls/LevelSet3D/LevelSet.cpp:65-77 | one particle corrects the copy of its sign if it escaped |
| LevelSet3.LevelSet3D.MergeScratch | trunk/pls/LevelSet3D/LevelSet.cpp:79-84 | phi becomes the merge of the copies |

## Left out

- The 3D `main.h`, `Grid.h` and `FastMarch.h` are not part of this model. The 3D modules use the constants of the 2D `main.h` and the 3D indexing seen in `FastMarch.cpp`.
- `PARTICLES_PER_INTERFACE_NODE` (3D) comes from a missing header. It is the parameter `perInterface` of `ParticleSet3.ParticleSet.Reseed`.
- `Grid3.SignedDist3`: the 3D `SetBoundarySignedDist` is defined in the 3D `Grid.h`, which is not part of this model. Its rule is assumed to be the 2D one (trunk/pls/LevelSet2D/Grid2D.h:179-190 followed by the corner stage): every ghost cell, on faces, edges and corners, becomes 3*HH and the interior is kept. The 3D ghost facts of `Grid3.SignedDist3Cells`, `Grid3.Grid3D.SetBoundarySignedDist`, `LevelSet3.UpdateResult` and `LevelSet3.LevelSet3D.ReInitialize` rest on that assumption.
- The 3D `SAMPLEPHI` switch is the boolean `cubic` of `LevelSet3D`.
- The 2D loop macros are modelled with their ranges: `FOR_LS2D` runs i and j over 1..N, `FOR_ALL_LS2D` over 1..N+1 so that row 0 and column 0 are never visited, and `FOR_GRID2D` over every cell (pls/LevelSet2D/main.h:137-140). The 3D macros `FOR_LS`, `FOR_ALL_LS`, `FOR_GRID` and the face loops of `SetBoundary` are defined in headers that are not part of this model; they are taken to be the same ranges with a third index, `FOR_LS` over 1..N and `FOR_ALL_LS` over 1..N+1 on each axis, in the order k, j, i (k outermost, i innermost) by analogy with `FOR_LS2D`. That order decides which random draws the seeds of each cell take in `ParticleSet3.ParticleSet.Reseed`.
- `FastMarch2.GIJ` keeps the source's decoding: `Mod` and a truncated product by the reciprocal 1/(Nx+2), over exact reals; `FastMarch2.GIJInvertsGI` proves that with the exact reciprocal this is integer decoding on the padded grid. The 3D `GIJK` is defined in a header that is not part of this model and is modelled as exact integer division and remainder (`FastMarch3.GIJKInvertsGI`, `FastMarch3.GIInvertsGIJK`).
- `ClosePoints` is written by index into a buffer of capacity `size` with no bounds check. It is modelled as a growing list, so an overflow of that buffer is not modelled.
- Gradient, normal and `eval`-style helpers beyond the named operations are not modelled. So are `Length`, `Normalize` and `Hat` on vectors, because they need a square root.
- `sqrt`, the random generator and the velocity field are parameters. The model assumes `sqrt` returns the non-negative root and that the random values lie in [0, 1).
- The C++ evaluation order of the three `RandomFloat` arguments in a seed is unspecified. The model draws x, then y, then z.
- Destructors, memory management, printing and logging (`PrintFlags`, `cout`) are left out.
- The GUI, camera and timer code is outside the core and left out.
- `LevelSet2.LevelSet2D.constructor`: requires `nx == NX` and `ny == NY`, because the 2D loops use the compile-time sizes.
- `ParticleSet2.ParticleSet2D.constructor`: requires `nx == NX` and `ny == NY` for the same reason (its reseeding loop is `FOR_LS2D`). The only construction, in `Container2D`, passes `NX` and `NY`.
- `Grid2.Grid2D.SetBoundary`: the boundary methods require `Nx, Ny >= 1`. For an empty interior the source reads a cell index that has no neighbour.
- `LevelSet2.LevelSet2D.Fix`: takes the particle list rather than the particle-set object. It requires every particle to be sampleable; the source indexes the grid out of bounds otherwise.
- `LevelSet3.LevelSet3D.Fix`: the same as the 2D `Fix`.
- `MarchHeap.UpdateHeap`: claims heap order only after a decreased key. The source only sifts up, so a raised key can leave the heap out of order.
- `FastMarch2.FastMarch2D.FastMarch`: claims no heap order across the march (cells need not pop in increasing value), for the same reason.
- `FastMarch3.FastMarch3D.March`: claims no heap order across the march either, because it uses the same `UpdateHeap`. It states only that the last popped cell is -1 or a Done cell beyond `FASTMARCH_LIMIT`.
- `MarchHeap.PopHeap`: the source does not reset the popped cell's `HeapPosition`, and neither does the model. Membership is therefore defined through the heap array.
- The member and free forms of `Dot`/`dot` and `Cross`/`cross` compute the same expression and are one function each in the model.
- `Length` and `Normalize` of `Grid2D` are not modelled, because they need a square root.
- `ParticleSet2.ParticleSet2D.Update`: culls with the corrected test `>= N+1` (`ParticleSet2.Outside`), not the source's `> N+1` (`ParticleSet2.OutsideAsWritten`). It therefore erases a particle that lands exactly on x = Nx+1 or y = Ny+1, which the source keeps; `ParticleSet2.OutsideDiffers` proves the two tests differ only there. See the first row of "## Findings": the kept particle could not be sampled, and the rest of the model (the set's invariant, `Resample`, `Reseed` and `LevelSet2D.Fix`) relies on every kept particle being sampleable.
- `ParticleSet3.ParticleSet.Update`: the same, with the corrected test on the three axes (`ParticleSet3.Outside` instead of `ParticleSet3.OutsideAsWritten`); particles on the far faces x = Nx+1, y = Ny+1 or z = Nz+1 are erased here and kept by the source. See the second row of "## Findings".
- Division by zero is excluded: `Vec2.DivScalar`, `Vec2.ScalarDiv`, `Vec2.Vec2DRef.DivAssign` and `Vec2.Vec2DRef.Over`, their four `Vector3` counterparts and `Grid2.Grid2D.DivAssign` require a non-zero divisor, the particle-set constructors require `hi != 0.0` (they store 1/hi), and `Numerics.SmoothStep` requires `min != max`. The C++ gives infinities or NaN there; no call inside the core divides by zero.
- Floating-point rounding is not modelled. All arithmetic is exact on `real`.

## Findings

| source | as written | input that shows it | evidently intended | confidence | as-written member | corrected member |
|---|---|---|---|---|---|---|
| trunk/pls/LevelSet2D/ParticleSet2D.h:84-85 | the cull deletes a particle only when a coordinate is `< 0` or `> N+1` | a particle at x = Nx+1 is kept, but bilinear sampling then reads column Nx+2, outside the grid | cull at `>= N+1`, so that every kept particle can be sampled | not executed | ParticleSet2.AsWrittenKeepsUnsampleable | ParticleSet2.KeptIsSampleable |
| pls/LevelSet3D/ParticleSet.h:84-86 | the same `> N+1` test on the three coordinates | a particle at x = Nx+1 is kept, but trilinear sampling reads index Nx+2 | cull at `>= N+1` | not executed | ParticleSet3.AsWrittenKeepsUnsampleable | ParticleSet3.KeptIsSampleable |
