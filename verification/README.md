# crust-render path tracer core, in Dafny

This project models the geometric and bookkeeping skeleton of the crust-render path tracer. Each part is stated over Dafny's unbounded `real` and `int` as an idealisation of `f32` and `usize`, and the properties each part promises are proved:

- axis-aligned bounding boxes and both versions of the slab test;
- bounding volume hierarchy (BVH) construction and closest-hit traversal;
- the hittable list and the indexed mesh;
- the sphere and Möller–Trumbore triangle tests and front-face orientation;
- the frame buffer, tiles and the CMJ (correlated multi-jittered) sample table;
- fixed-count and adaptive pixel averaging;
- the recursion structure of the path-tracing estimator;
- the UV-sphere and torus generators and the light list;
- material tags, `Vec3` and `Mat4` helpers, and the naive USDA sphere parser.

Everything is a pure function or a method with loop invariants. Whatever the source gets from outside the core comes in as a parameter:

- random draws (the BVH axis, CMJ jitter, the light pick, sample offsets);
- `f32::sqrt`, `sin` and `cos`;
- float parsing;
- the colour of a camera sample.

Modules follow the source files:

| module | file | source |
|---|---|---|
| `Vectors` | vec3.dfy | crates/utils/src/vec3.rs |
| `Common` | common.dfy | crates/utils/src/common.rs |
| `Matrices` | mat4.dfy | crates/utils/src/mat4.rs |
| `Boxes` | aabb.dfy | both aabb.rs |
| `Hits` | hittable.dfy | hittable.rs |
| `Materials` | material.dfy | material/mod.rs |
| `Primitives` | primitives.dfy | sphere.rs, triangle.rs |
| `Scene` | scene.dfy | hittable objects, hittable_list.rs, mesh.rs, the BVH node's `hit` |
| `Bvh` | bvh.dfy | bvhnode.rs `build` |
| `Buffers` | buffer.dfy | buffer.rs |
| `Tiles` | tiles.dfy | `generate_tiles` |
| `Sampler` | sampler.dfy | sampler.rs |
| `Render` | render.dfy | the library `Renderer` |
| `Adaptive` | adaptive.dfy | the application's adaptive loop |
| `Shading` | shading.dfy | both `ray_color` |
| `Generators` | generator.dfy | generator.rs |
| `Lights` | lights.dfy | light.rs |
| `Usda` | usda.dfy | usd_oxidized parser.rs |

Three more modules hold only arithmetic helper lemmas: `RealArith` (arith.dfy), `IntArith` (intarith.dfy) and `FloorHit` (floor.dfy). `Options` (option.dfy) is the option type.

The slab test is parameterised by a `SlabRule`:

- `AsWritten` rejects when `t_max <= t_min`, as the source does.
- `Closed` rejects only when `t_max < t_min`.

The difference matters for boxes of zero thickness (see Findings). The BVH-equals-list theorem is proved under `Closed`. Under `AsWritten` a counterexample is exhibited.

## Model

| member | source | states |
|---|---|---|
| Boxes.SurroundingBox | crates/crust-render/src/aabb.rs:15-27 | the union box encloses both input boxes on every axis |
| Boxes.SurroundingBoxLeast | crates/crust-render/src/aabb.rs:16-25 | every box enclosing both inputs encloses their union: the corners are exactly the componentwise min and max |
| Boxes.SurroundingBoxCommutes | crates/crust-render/src/aabb.rs:15-27 | the union does not depend on argument order |
| Boxes.InsideSurrounding | crates/crust-core/src/aabb.rs:15-30 | a point inside either box is inside their union (the core crate's copy of `surrounding_box`) |
| Boxes.TriangleAabb | crates/crust-render/src/aabb.rs:62-74 | the box holds all three vertices and has minimum <= maximum |
| Boxes.TriangleAabbLeast | crates/crust-render/src/aabb.rs:62-74 | every box holding the three vertices holds `triangle_aabb`, so it is the tightest such box |
| Boxes.CompareAxis | crates/crust-render/src/aabb.rs:49-59 | `compare_x/y/z` answer Less exactly when the first box's minimum on the axis is smaller, Greater exactly when it is larger |
| Boxes.CompareAxisAntisymmetric | crates/crust-render/src/aabb.rs:49-59 | swapping the boxes reverses the comparison |
| Boxes.Recip | crates/crust-render/src/aabb.rs:31 | `1.0 / d` keeps the sign of a nonzero `d` and is `+inf` exactly when `d` is zero |
| Boxes.NarrowAxis | crates/crust-render/src/aabb.rs:32-44 | one pass of the slab loop: the narrowed interval holds exactly the parameters of the caller's interval that the axis slab admits, and a rejection means no parameter of the interval is admitted |
| Boxes.NarrowAxisIff | crates/crust-render/src/aabb.rs:39-44 | an axis survives exactly when its slab, on its own, meets the ray interval |
| Boxes.RenderHitIff | crates/crust-render/src/aabb.rs:29-47 | the render crate's `hit` accepts exactly when each slab separately meets the caller's interval, because the narrowing is shadowed per axis |
| Boxes.CoreHitIff | crates/crust-core/src/aabb.rs:32-50 | the core crate's `hit` accepts exactly when one ray parameter in the interval lies in all three slabs at once |
| Boxes.CoreHitImpliesRenderHit | crates/crust-core/src/aabb.rs:32-50 | whatever the narrowing test accepts, the per-axis test accepts too |
| Boxes.SlabPositive | crates/crust-render/src/aabb.rs:32-33 | with a positive direction component, a point of the slab is reached between `t0` and `t1` |
| Boxes.SlabNegative | crates/crust-render/src/aabb.rs:35-37 | with a negative direction component the entry and exit planes swap, which the swap of `t0` and `t1` accounts for |
| Boxes.SlabEndsFinite | crates/crust-render/src/aabb.rs:31-37 | for a nonzero direction component the slab ends are `(min - o) / d` and `(max - o) / d`, entry first |
| Boxes.SlabEndsParallel | crates/crust-render/src/aabb.rs:31-37 | for a zero direction component with the origin inside the slab, the ends are infinite or NaN and constrain nothing |
| Boxes.HitWhenInside | crates/crust-render/src/aabb.rs:29-47 | under the closed rule, a ray parameter in the interval whose point lies in the box passes both slab tests |
| Boxes.FlatBoxRejected | crates/crust-render/src/aabb.rs:42-44 | the source's `t_max <= t_min` culls a flat box that a downward ray meets at t = 1, in both crates' tests |
| Boxes.FlatAxisRejected | crates/crust-render/src/aabb.rs:42-44 | under the source's rule a box of zero thickness on an axis is missed by every ray not parallel to it |
| Bvh.CompareKey | crates/crust-render/src/bvhnode.rs:14-20 | the comparator passed to `sort_by` orders objects by the minimum corner of their boxes on the drawn axis |
| Bvh.SortBy | crates/crust-render/src/bvhnode.rs:20 | the sorted objects are a permutation of the input, in key order |
| Bvh.Insert | crates/crust-render/src/bvhnode.rs:20 | one insertion step of the sort adds exactly the one element |
| Bvh.InsertSorted | crates/crust-render/src/bvhnode.rs:20 | inserting into a sorted sequence keeps it sorted |
| Bvh.Join | crates/crust-render/src/bvhnode.rs:24-32 | a pair becomes a node with those two children |
| Bvh.JoinBox | crates/crust-render/src/bvhnode.rs:27-31 | the node over a pair is boxed by `surrounding_box` of the two boxes, which holds both children's boxes |
| Bvh.Build | crates/crust-render/src/bvhnode.rs:12-46 | one object is returned as itself; two or more give a node; when every input has a box, so does the result |
| Bvh.BuildNode | crates/crust-render/src/bvhnode.rs:33-42 | over three or more objects the node joins the trees of the two halves of the sorted objects split at `len / 2`, and both halves have boxes |
| Bvh.BuildValid | crates/crust-render/src/bvhnode.rs:12-46 | the tree built from valid objects is valid |
| Bvh.BuildWellBoxed | crates/crust-render/src/bvhnode.rs:37-40 | every node's box holds both children's boxes, all the way down |
| Bvh.BuildPairLeaves | crates/crust-render/src/bvhnode.rs:24-32 | the node over two objects holds exactly their primitives |
| Bvh.BuildLeaves | crates/crust-render/src/bvhnode.rs:12-46 | the tree's primitives equal the input's as a multiset: building neither drops nor duplicates an object |
| Bvh.SortedHalves | crates/crust-render/src/bvhnode.rs:33-36 | the sorted objects and both halves of them are drawn from the input |
| Bvh.BvhMatchesList | crates/crust-render/src/bvhnode.rs:50-71 | under the closed rule the built tree and the list of the same objects agree on every ray: both miss, or both hit at the same distance, and the tree's record is one of the primitives' own records |
| Bvh.TreeMatchesList | crates/crust-render/src/bvhnode.rs:50-71 | any well-boxed tree with the same primitives as a list answers every ray as that list does (closed rule) |
| Bvh.BuildFlat | crates/crust-render/src/bvhnode.rs:37-40 | a tree over objects lying in one axis-aligned plane has a box flat in that plane |
| Bvh.BvhCullsFlatGroup | crates/crust-render/src/bvhnode.rs:51-53 | under the source's rule a tree of two or more coplanar objects is missed by every ray crossing their plane |
| Bvh.FlatPairDisagree | crates/crust-render/src/bvhnode.rs:51-53 | a triangle that accepts a ray, next to another object in its plane: the list reports the hit and the tree over the two reports none |
| Bvh.FloorCounterexample | crates/crust-render/src/aabb.rs:42-44 | two floor triangles at y = 0 and a ray straight down: the list hits at t = 1, the BVH built over them misses, whatever axis is drawn |
| Scene.MeshTriangles | crates/crust-render/src/primitives/mesh.rs:65-72 | the mesh visits `len / 3` triangles, triangle k built from the vertices named by indices 3k, 3k+1 and 3k+2; an incomplete trailing triple is ignored |
| Scene.Hit | crates/crust-render/src/bvhnode.rs:50-71 | the hit of any object (sphere, triangle, mesh, BVH node) lies within `[t_min, t_max]` |
| Scene.Step | crates/crust-render/src/hittable_list.rs:49-55 | one loop iteration never moves the closest hit further away, and a new hit lies between `t_min` and the closest so far |
| Scene.Scan | crates/crust-render/src/hittable_list.rs:49-55 | over the whole loop `closest_so_far` never increases, and a new record lies in the narrowed interval |
| Scene.ScanSomeIff | crates/crust-render/src/hittable_list.rs:49-55 | under either slab rule the loop ends with a record exactly when it began with one or some object reports a hit on the full interval, since until the first hit every query uses `t_max` itself |
| Scene.ListHit | crates/crust-render/src/hittable_list.rs:44-58 | under either slab rule the list reports a hit exactly when at least one object does within `[t_min, t_max]`, and that hit lies within the interval |
| Scene.ListHitAdd | crates/crust-render/src/hittable_list.rs:25-27 | `add` appends the object after the existing ones, which keep their order, and the list's answer becomes the old answer refined by one more query |
| Scene.ClosestHit | crates/crust-render/src/hittable_list.rs:44-58 | under either slab rule the loop returns true exactly when some object reports a hit within `[t_min, t_max]`, and leaves `rec` unchanged when nothing is hit |
| Scene.LeafHit | crates/crust-render/src/primitives/triangle.rs:80-84 | a primitive's hit lies within the interval, at the ray's point for its parameter |
| Scene.NearestStep | crates/crust-render/src/hittable_list.rs:50-54 | the heart of every closest-hit loop: keeping the newest hit, found with `t_max` narrowed to the closest so far, yields the nearest hit among all primitives seen |
| Scene.LeafRestrict | crates/crust-render/src/bvhnode.rs:65-68 | a primitive's hit under a narrowed `t_max` is its full hit, and a full hit below the narrowed bound survives narrowing |
| Scene.LeafHitsInBox | crates/crust-render/src/bvhnode.rs:51-53 | in a well-boxed object every primitive's hit point lies in the object's box |
| Scene.ObjectNearest | crates/crust-render/src/bvhnode.rs:50-71 | under the closed rule a node's hit is the nearest hit among its primitives: the box test culls no primitive hit and narrowing loses no nearer one |
| Scene.ScanNearest | crates/crust-render/src/primitives/mesh.rs:76-89 | scanning after a nearest record continues to produce a nearest record over everything seen |
| Scene.ListNearest | crates/crust-render/src/hittable_list.rs:44-58 | under the closed rule the list returns false exactly when no primitive is hit in `[t_min, t_max]`, and otherwise a primitive's own record with no primitive hit nearer |
| Scene.NearestAgree | crates/crust-render/src/hittable_list.rs:44-58 | two nearest records over the same primitives agree on whether there is a hit and on its distance |
| Hits.SetFaceNormal | crates/crust-render/src/hittable.rs:20-27 | front_face is true exactly when the ray travels against the outward normal; the normal is the outward one or its negation, always opposing the ray; nothing else in the record changes |
| Primitives.PickRoot | crates/crust-render/src/primitives/sphere.rs:65-71 | an accepted root lies strictly inside `(t_min, t_max)` and is one of the two roots |
| Primitives.PickRootLeast | crates/crust-render/src/primitives/sphere.rs:65-71 | the selected root is the least root in the open interval, and nothing is selected when the interval holds no root |
| Primitives.SphereParam | crates/crust-render/src/primitives/sphere.rs:53-71 | a negative discriminant gives no hit; an accepted parameter is strictly inside the interval |
| Primitives.SphereParamNearest | crates/crust-render/src/primitives/sphere.rs:53-77 | an accepted parameter's point lies on the sphere with no surface point before it in the interval; no hit means no surface point in `(t_min, t_max)` |
| Primitives.OnSphereIffRoot | crates/crust-render/src/primitives/sphere.rs:53-57 | a ray point lies on the sphere exactly when its parameter is a root of the quadratic with coefficients `a`, `half_b`, `c` |
| Primitives.QuadraticRoots | crates/crust-render/src/primitives/sphere.rs:62-71 | with the true square root of the discriminant, the quadratic's roots are exactly `(-half_b -/+ sqrt_d) / a`, smaller first |
| Primitives.NoRealRoot | crates/crust-render/src/primitives/sphere.rs:58-60 | with a negative discriminant no parameter is on the sphere |
| Primitives.SphereRecord | crates/crust-render/src/primitives/sphere.rs:73-77 | the record holds the accepted parameter, the ray's point there and the material; for a nonzero radius the normal is the outward normal `(p - center) / radius` or its negation, `front_face` is true exactly when the ray opposes the outward normal, and the normal always opposes the ray |
| Primitives.SphereHit | crates/crust-render/src/primitives/sphere.rs:52-79 | a hit lies strictly inside the interval and its record is the sphere record at that parameter; a negative discriminant misses |
| Primitives.SphereHitRestrict | crates/crust-render/src/primitives/sphere.rs:65-71 | narrowing `t_max` keeps a sphere hit below the new bound and never invents one |
| Primitives.SphereHitInBox | crates/crust-core/src/primitives/sphere.rs:24-29 | a sphere hit lies on the sphere, hence in the cube `center -+ radius` that the core crate's `bounding_box` returns |
| Primitives.TriangleParam | crates/crust-render/src/primitives/triangle.rs:53-78 | a near-parallel ray (`abs(a) < 1e-6`) is rejected; an accepted t is in the closed interval with `u, v >= 0` and `u + v <= 1`; conversely a solve that passes all four checks is accepted at `t = f * (e2 . q)` |
| Primitives.TriangleRecord | crates/crust-render/src/primitives/triangle.rs:80-84 | the record holds t, the ray's point at t and the material; the normal is `normalize(e1 x e2)` or its negation, opposes the ray, and front_face is true exactly when the ray opposes `normalize(e1 x e2)` |
| Primitives.TriangleHit | crates/crust-render/src/primitives/triangle.rs:43-86 | a hit is at a t inside the closed interval and carries the triangle record for it; a near-parallel ray misses; the function reports a hit exactly when the solve passes all four checks |
| Primitives.DegenerateTriangleMisses | crates/crust-render/src/primitives/triangle.rs:53-60 | a triangle with v1 == v0 or v2 == v0 has determinant zero and is never hit |
| Primitives.SolveBarycentric | crates/crust-render/src/primitives/triangle.rs:53-78 | the solve's `t`, `u`, `v` satisfy `origin + t d = v0 + u e1 + v e2` |
| Primitives.TriangleHitOnTriangle | crates/crust-render/src/primitives/triangle.rs:62-84 | an accepted hit point is a convex combination of the vertices, hence inside `triangle_aabb` |
| Primitives.TriangleHitComplete | crates/crust-render/src/primitives/triangle.rs:53-85 | conversely, a ray that reaches a point `v0 + u e1 + v e2` of the triangle (`u, v >= 0`, `u + v <= 1`) at a t in `[t_min, t_max]` is reported hitting it at that t and point, unless `abs(a) < 1e-6` |
| Primitives.TriangleHitRestrict | crates/crust-render/src/primitives/mesh.rs:76-89 | narrowing `t_max` keeps a triangle hit at or below the new bound and never invents one |
| Materials.GetMaterial | crates/crust-render/src/material/mod.rs:34-44 | the material object keeps the tag's variant and every parameter: its tag reads back as the original |
| Materials.GetMaterialOfTag | crates/crust-render/src/material/mod.rs:34-44 | every material object comes from exactly one tag |
| Materials.IsEmissive | crates/crust-render/src/material/mod.rs:45-50 | true exactly for the Emissive variant |
| Materials.GetEmissive | crates/crust-render/src/material/mod.rs:51-56 | Some exactly when `is_emissive`, carrying the variant's payload unchanged |
| Common.Clamp | crates/utils/src/common.rs:22-30 | the result is in `[min, max]` when `min <= max`; a value in range is returned unchanged; below `min` gives `min` first |
| Common.RandomRange | crates/utils/src/common.rs:16-19 | for a draw in `[0, 1)` the result lies in `[min, max)`; draw 0 gives `min` |
| Common.BalanceHeuristic | crates/utils/src/common.rs:32-36 | the weight lies in `[0, 1)` for any inputs and is zero when the first pdf is |
| Common.BalanceHeuristicPairBelowOne | crates/utils/src/common.rs:32-36 | the two weights of a pair of strategies sum to less than one |
| Common.Lerp | crates/utils/src/common.rs:46-50 | t = 0 gives a, t = 1 gives b, and t in `[0, 1]` stays between a and b |
| Vectors.LengthSquared | crates/utils/src/vec3.rs:44-46 | the length squared is the vector's dot product with itself, never negative |
| Vectors.DotSymmetric | crates/utils/src/vec3.rs:211-213 | `dot` is symmetric |
| Vectors.Cross | crates/utils/src/vec3.rs:215-221 | the cross product is orthogonal to both arguments |
| Vectors.CrossSelfZero | crates/utils/src/vec3.rs:215-221 | a vector crossed with itself is zero |
| Vectors.Reflect | crates/utils/src/vec3.rs:255-257 | for a unit normal the reflection negates the component along the normal |
| Vectors.LerpVec | crates/utils/src/vec3.rs:53-55 | the vector lerp is the scalar lerp per component: self at t = 0, other at t = 1 |
| Vectors.NearZero | crates/utils/src/vec3.rs:47-51 | a near-zero vector has length squared below `3e-16`, and the zero vector is near zero |
| Vectors.ClampVec | crates/utils/src/vec3.rs:56-62 | every component lands in `[min, max]`, and a vector already in range is unchanged |
| Matrices.Scale | crates/utils/src/mat4.rs:30-36 | `scale(s)` is diagonal, s on the first three diagonal entries and 1 last |
| Matrices.TransformPointIdentity | crates/utils/src/mat4.rs:38-52 | the identity leaves every point in place |
| Matrices.TransformPointTranslate | crates/utils/src/mat4.rs:22-28 | `translate(x, y, z)` moves a point by `(x, y, z)` |
| Matrices.TransformPointScale | crates/utils/src/mat4.rs:30-36 | `scale(s)` scales a point about the origin |
| Matrices.TransformDirection | crates/utils/src/mat4.rs:54-59 | transforming a direction equals transforming the point minus transforming the origin, so the translation column drops out |
| Matrices.TransformDirectionTranslate | crates/utils/src/mat4.rs:54-59 | a translation leaves every direction unchanged |
| Matrices.MulIdentity | crates/utils/src/mat4.rs:99-113 | `identity * m == m == m * identity` |
| Matrices.MulScale | crates/utils/src/mat4.rs:99-113 | scalings compose by multiplying their factors |
| Matrices.Inverse | crates/utils/src/mat4.rs:60-71 | an inverse exists exactly when the three diagonal scale entries are nonzero |
| Matrices.InverseTranslate | crates/utils/src/mat4.rs:60-71 | the inverse of `translate(x, y, z)` is `translate(-x, -y, -z)` |
| Matrices.InverseScale | crates/utils/src/mat4.rs:60-71 | for nonzero s, `inverse(scale(s))` is `scale(1 / s)` and composed with `scale(s)` gives the identity |
| Matrices.InverseIgnoresOffDiagonal | crates/utils/src/mat4.rs:60-71 | the inverse reads only the diagonal and the translation column, so matrices agreeing there have the same inverse |
| Matrices.InverseUndoesScaleTranslate | crates/utils/src/mat4.rs:60-71 | on scale-plus-translate matrices the inverse undoes the transform for every point |
| Buffers.New | crates/crust-render/src/buffer.rs:23-30 | the new buffer has the requested size and every pixel black |
| Buffers.Index | crates/crust-render/src/buffer.rs:42 | `y * width + x` of an in-bounds pixel is inside the data |
| Buffers.IndexInjective | crates/crust-render/src/buffer.rs:42 | distinct in-bounds pixels occupy distinct positions |
| Buffers.GetPixel | crates/crust-render/src/buffer.rs:70-76 | an out-of-bounds read returns black |
| Buffers.SetPixel | crates/crust-render/src/buffer.rs:40-44 | an in-bounds write is read back; an out-of-bounds write changes nothing; no other pixel changes |
| Buffers.AddPixel | crates/crust-render/src/buffer.rs:54-59 | `set_mut_pixel` adds to the pixel's old colour; out of bounds nothing changes; no other pixel changes |
| Buffers.FlipRow | crates/crust-render/src/buffer.rs:90 | the wrapping `height - 1 - y` is the mirrored row for `y < height` and lands outside the image otherwise |
| Buffers.GetRgb | crates/crust-render/src/buffer.rs:89-92 | `get_rgb(x, y)` is the colour of row `height - 1 - y`; a y past the last row reads black |
| Buffers.RgbOfFlippedWrite | crates/crust-render/src/buffer.rs:89-92 | writing at the mirrored row and reading through `get_rgb` returns the written colour |
| Tiles.GenerateTiles | crates/crust-render/src/tracer.rs:264-279 | `ceil(w / ts) * ceil(h / ts)` grid tiles in strictly increasing row-major order, and every pixel lies in one of them |
| Tiles.AppendRow | crates/crust-render/src/tracer.rs:267-276 | the inner loop adds one band of `ceil(w / ts)` grid tiles and extends the covered region by that band |
| Tiles.CoverExtends | crates/crust-render/src/tracer.rs:268-275 | appending the tile at the cursor covers one more stride of the band |
| Tiles.GridTileShape | crates/crust-render/src/tracer.rs:268-269 | every tile has width and height between 1 and the tile size and lies inside the image |
| Tiles.GridOwner | crates/crust-render/src/tracer.rs:266-267 | a grid tile holding a pixel has its corner at that pixel's grid point |
| Tiles.GridTilesDisjoint | crates/crust-render/src/tracer.rs:264-279 | no two tiles of the list share a pixel, so with the covering guarantee every pixel lies in exactly one tile |
| Sampler.GenerateCmj | crates/crust-core/src/sampler.rs:16-25 | `n * n` points, the point of cell (i, j) at position `j * n + i` with its jitters from the matching draws |
| Sampler.CmjStrata | crates/crust-core/src/sampler.rs:19-23 | every point lies in the unit square, in column stratum i and row stratum j, and in fine strata `i * n + j` and `j * n + i` |
| Sampler.CoordStrata | crates/crust-core/src/sampler.rs:20-21 | one coordinate `(a + (b + r) / n) / n` lies in coarse stratum a and fine stratum `a * n + b` |
| Sampler.FineStrataDistinct | crates/crust-core/src/sampler.rs:20 | distinct cells never share a fine stratum, so each column stratum holds n samples, one per sub-stratum |
| Render.CeilSqrt | crates/crust-render/src/tracer.rs:35 | the table side is the least n with `n * n >= spp` |
| Render.CeilOfSqrt | crates/crust-render/src/tracer.rs:35 | with an exact square root, `ceil(sqrt(spp))` is that least n |
| Render.SampleOffset | crates/crust-render/src/tracer.rs:52-56 | a sample reads the CMJ table while its index is below the table's length, and the fresh draws after |
| Render.TableCoversSamples | crates/crust-render/src/tracer.rs:35-36 | the table of side `ceil(sqrt(spp))` has an entry for every one of the spp samples |
| Render.AveragePixel | crates/crust-render/src/tracer.rs:49-69 | the pixel is the sum of exactly spp samples divided by spp; with no samples it is undefined (0/0) |
| Render.MeanOfConstant | crates/crust-render/src/tracer.rs:67-69 | averaging samples of one colour gives that colour |
| Render.PaintRow | crates/crust-render/src/tracer.rs:72-74 | the row's pixels get their colours and no other pixel changes |
| Render.RenderRows | crates/crust-render/src/tracer.rs:33-79 | every pixel of the frame ends up with its computed colour |
| Render.PaintTile | crates/crust-render/src/tracer.rs:100-126 | the tile's pixels get their colours and no other pixel changes |
| Render.RenderTiles | crates/crust-render/src/tracer.rs:81-140 | with 16-pixel tiles every pixel ends up with its colour, the same frame as `render` |
| Adaptive.MaxComponent | src/tracer.rs:53 | the largest of the three components |
| Adaptive.TakeSample | src/tracer.rs:39-62 | one pass adds the sample and its square to the running sums and stops exactly when the stopping rule holds at the new count, with the running mean |
| Adaptive.AdaptivePixel | src/tracer.rs:38-63 | at least one sample and at most spp (when spp >= 1); it stops at the first count where the rule holds (minimum reached and max variance component below the threshold, or spp reached) and returns the mean of the samples taken |
| Adaptive.UniformStopsAtMinimum | src/tracer.rs:48-57 | samples of one colour have zero variance, so the loop stops as soon as the minimum is reached, for any positive threshold |
| Shading.Sky | crates/crust-render/src/tracer.rs:252-254 | for a unit direction the background lies between white and `(0.5, 0.7, 1.0)` |
| Shading.RayColor | crates/crust-render/src/tracer.rs:178-255 | depth <= 0 gives black, a miss gives the sky colour |
| Shading.RayColorReadsDepth | crates/crust-render/src/tracer.rs:179-181 | the estimate reads at most `depth` bounces: paths agreeing on them give the same colour |
| Shading.RayColorEarly | src/tracer.rs:106-181 | depth <= 0 gives black, a miss gives the sky colour |
| Shading.RayColorEarlyReadsDepth | src/tracer.rs:107-109 | the early-return estimate also reads at most `depth` bounces |
| Shading.EarlyStopsAtEmitter | src/tracer.rs:153-166 | when the BRDF sample reaches an emitter the estimate returns right there: later bounces do not matter |
| Shading.VersionsAgreeWithoutEmitters | src/tracer.rs:150-171 | where no BRDF sample reaches an emitter the two renderers' estimates coincide |
| Generators.GridIndices | crates/crust-render/src/primitives/generator.rs:70-78 | `2 * rows * cols` triangles, every index below the vertex count, no triangle repeating a vertex, and triangle k is the k-th of the cell pattern |
| Generators.GridTriangleInRange | crates/crust-render/src/primitives/generator.rs:72-76 | every triangle of the pattern names three distinct vertices of the grid |
| Generators.GridValues | crates/crust-render/src/primitives/generator.rs:49-67 | `(rows + 1) * (cols + 1)` values, the one of vertex (i, j) at position `i * (cols + 1) + j` |
| Generators.Ratio | crates/crust-render/src/primitives/generator.rs:63-64 | `a / b` is undefined exactly for `b = 0`, and lies in `[0, 1]` for `a <= b` |
| Generators.SpherePointOnSphere | crates/crust-render/src/primitives/generator.rs:50-59 | with exact sines and cosines the sphere's vertex formula gives a point at distance `radius` from the centre |
| Generators.SphereVertexOnSphere | crates/crust-render/src/primitives/generator.rs:49-59 | with exact tables every grid vertex `(i, j)` of the sphere, `i <= stacks` and `j <= sectors`, is at distance `radius` from the centre |
| Generators.TorusPointOnTube | crates/crust-render/src/primitives/generator.rs:119-128 | with exact sines and cosines the torus's vertex formula gives a point at distance `minor_radius` from its segment's point of the centre circle |
| Generators.TorusVertexOnTube | crates/crust-render/src/primitives/generator.rs:109-128 | with exact tables every grid vertex `(i, j)` of the torus is at distance `minor_radius` from the centre circle point of segment `i` |
| Generators.UvSphere | crates/crust-render/src/primitives/generator.rs:43-81 | `(stacks + 1) * (sectors + 1)` vertices, vertex `(i, j)` at position `i * (sectors + 1) + j` placed by the sphere formula from stack angle i and sector angle j, all at distance `radius` from the centre when the trigonometry is exact; `2 * stacks * sectors` in-range triangles; uvs `(j / sectors, i / stacks)` in the unit square |
| Generators.UvTorus | crates/crust-render/src/primitives/generator.rs:103-148 | `(segments + 1) * (sides + 1)` vertices, vertex `(i, j)` placed by the torus formula from segment angle i and side angle j, all at distance `minor_radius` from the centre circle when the trigonometry is exact; `2 * segments * sides` in-range triangles; uvs `(i / segments, j / sides)` in the unit square |
| Generators.Triangulate | crates/crust-render/src/primitives/generator.rs:17-34 | one triangle object per index triple, in order, each with the shape's material |
| Generators.TriangulateIsMesh | crates/crust-render/src/primitives/generator.rs:17-34 | the triangulated shape is triangle for triangle the indexed mesh over the same vertices and the flattened triples |
| Lights.New | crates/crust-render/src/light.rs:65-67 | the new list is empty |
| Lights.Add | crates/crust-render/src/light.rs:73-75 | the light goes last and the earlier lights keep their places |
| Lights.ToUsize | crates/crust-render/src/light.rs:86 | the float-to-usize cast truncates toward zero and saturates |
| Lights.Sample | crates/crust-render/src/light.rs:82-89 | an empty list gives None; a returned light is one of the list's |
| Lights.SampleInRange | crates/crust-render/src/light.rs:82-89 | for a draw in `[0, 1)` sample returns None exactly for the empty list, otherwise the light at `floor(draw * len)`, whose slice of the unit interval holds the draw |
| Usda.TrimBy | crates/usd_oxidized/src/parser.rs:41 | the trimmed text neither starts nor ends with a stripped character |
| Usda.TrimByPart | crates/usd_oxidized/src/parser.rs:41 | trimming removes only stripped characters, and only around the part it keeps |
| Usda.TrimByBounds | crates/usd_oxidized/src/parser.rs:41 | trimming keeps exactly the span between the first and last characters not stripped |
| Usda.SplitOn | crates/usd_oxidized/src/parser.rs:5 | `split` always gives at least one piece |
| Usda.SplitJoin | crates/usd_oxidized/src/parser.rs:5 | joining the pieces with the separator gives back the text |
| Usda.SplitNoSeparator | crates/usd_oxidized/src/parser.rs:42 | split at a character, no piece contains it |
| Usda.Lines | crates/usd_oxidized/src/parser.rs:8 | no line contains a newline |
| Usda.FirstLine | crates/usd_oxidized/src/parser.rs:8-9 | a text's first line is everything before its first newline, less a `\r` ending |
| Usda.FirstMatch | crates/usd_oxidized/src/parser.rs:30 | finds the first line whose text after leading whitespace starts with the declaration, or None when no line does |
| Usda.Field | crates/usd_oxidized/src/parser.rs:31 | the n-th piece never contains the separator; a line without it has only piece 0 |
| Usda.ParseF32Attr | crates/usd_oxidized/src/parser.rs:27-33 | no `float <key>` line gives None; a value is one the float parser produced |
| Usda.Vec3OfPieces | crates/usd_oxidized/src/parser.rs:40-52 | a value whose delimiter-stripped text splits at commas into three pieces that each parse after trimming is read as those three numbers, in order |
| Usda.Vec3AsWritten | crates/usd_oxidized/src/parser.rs:40-52 | with the reader as written, the value ` (x, y, z)` after `=` is not read: the `(` survives the delimiter strip and the first piece fails to parse |
| Usda.NameOf | crates/usd_oxidized/src/parser.rs:7-12 | the name contains no quote, or it is "Unnamed", which it always is for a block without lines |
| Usda.NameOfQuoted | crates/usd_oxidized/src/parser.rs:7-12 | a block whose first line reads `a"n"b` is named `n`, the text between the line's first two quotes |
| Usda.NameOfUnquoted | crates/usd_oxidized/src/parser.rs:7-12 | a block whose first line has no quote is named "Unnamed" |
| Usda.SphereOf | crates/usd_oxidized/src/parser.rs:7-21 | the prim's name is the block's; radius 1.0 when missing or unparsable, else the parsed value; position (0, 0, 0) when the translation is unreadable, else the read triple |
| Usda.SelectSpheres | crates/usd_oxidized/src/parser.rs:5-23 | exactly as many prims as blocks mentioning Sphere; every prim comes from such a block, and every such block yields its prim |
| Usda.SelectSpheresAppend | crates/usd_oxidized/src/parser.rs:5-23 | the prims of two runs of blocks are those of the first run followed by those of the second, so block order is kept |
| Usda.SelectSpheresSingle | crates/usd_oxidized/src/parser.rs:6 | a single block yields its prim exactly when it mentions Sphere, and nothing otherwise |
| Usda.SplitFirstSep | crates/usd_oxidized/src/parser.rs:5 | the first occurrence of the separator ends the first piece, and the rest of the text is split on |
| Usda.SplitNoSep | crates/usd_oxidized/src/parser.rs:5 | a text in which the separator never occurs is a single piece |
| Usda.ParseUsda | crates/usd_oxidized/src/parser.rs:3-25 | one sphere prim per `def ` block containing "Sphere", and every prim from such a block |
| Usda.ParseUsdaFirstBlock | crates/usd_oxidized/src/parser.rs:3-25 | the block before the first `def ` yields its prim, if it mentions Sphere, ahead of everything the rest of the text yields: prims come one per sphere block, in order |
| Usda.ParseUsdaLastBlock | crates/usd_oxidized/src/parser.rs:3-25 | a text without `def ` yields one prim if it mentions Sphere and none otherwise |
| Usda.TranslateDroppedAsWritten | crates/usd_oxidized/src/parser.rs:40-41 | as written, a `double3 xformOp:translate = (x, y, z)` line with a space after `=` is never read |
| Usda.TranslateReadTrimmed | crates/usd_oxidized/src/parser.rs:40-41 | with the value trimmed of whitespace first, the same line is read as the three numbers |

## Left out

- Light transport is left out: BRDF bodies, light pdfs and the sampled directions. The materials' `scatter_importance`, `emitted`, `pdf` and `sample` are numeric and random. `Shading` takes what each bounce meets as an `Event` parameter and models only the recursion structure, the depth cutoff, the background and the early return.
- The camera, instances, scene loading and file I/O are left out, as are the OBJ path of `prim.rs`, SIMD types, rayon parallelism and progress bars. A sample's colour is a parameter. Rows and tiles are painted one after the other, which gives the same frame as the parallel collect followed by sequential writes.
- `f32` rounding, infinities and NaN are left out. Values are exact reals. The slab test keeps IEEE infinities and NaN explicitly, through the `Ext` datatype and `+0.0` for a zero direction component. A 0/0 pixel or uv is `None`.
- `f32::sqrt`, `sin`, `cos` and float parsing are parameters. Properties that need a true square root require it (`IsSqrt`). The sphere and torus positions assume exact `cos² + sin² = 1`.
- Random draws are parameters: the BVH axis (as a function of the build path), the CMJ jitters, sample offsets and the light draw.
- The shuffled `xs`/`ys` in `generate_cmj_2d` are never read by the source and are not modelled.
- Vertex normals of the generators and `DocObject` names are left out: neither affects geometry.
- `Mat4::rotate` and the rotation entries are not modelled beyond `Matrices.InverseIgnoresOffDiagonal`. A zero diagonal entry, which makes `inverse` produce infinities in `f32`, is `None`.
- `Mesh::bounding_box` returns `None`; a mesh object inside a BVH is therefore outside `build`'s precondition (every sorted object needs a box).
- Debug-build overflow panics on `usize` arithmetic are not modelled. `FlipRow` models the wrapping subtraction explicitly.
- Bvh.Build: requires at least one object. On an empty list the source takes the `_` arm with `mid = 0` and calls `build` on the empty list again, recursing without end; a terminating function cannot represent that.
- Primitives.SphereParam: a ray with zero direction misses. The source computes discriminant 0 and root `0 / 0 = NaN`, which passes both range checks, so it reports a hit at `t = NaN`.
- The generators' angle values are not computed: the cosine and sine of each stack, sector, segment and side angle come in as `TrigTable` parameters. With zero stacks or sectors the source's angles are NaN, which the tables do not model.
- Primitives.SphereBox: the render crate's sphere (crates/crust-render/src/primitives/sphere.rs) implements only `hit`, and `Hittable` declares no `bounding_box`. The sphere's box is taken from the core crate's `Sphere::bounding_box` (crates/crust-core/src/primitives/sphere.rs:24-29), the cube `center -+ radius`. `Scene.BoundingBox`, the BVH theorems over spheres and `Primitives.SphereHitInBox` rest on it.
- Primitives.SphereRecord: for radius 0 the normal is the zero vector, where the source divides by zero and gets infinities or NaN.
- Scene.MeshTriangles: requires every index of a complete triple to name a vertex (`Scene.MeshIndicesValid`). The source indexes `vertices` unchecked and panics on an out-of-range index, which the model does not represent.
- Lights.SampleInRange: requires the list to be no longer than `usize::MAX`, as any `Vec` is.
- Vectors.NearZero: states the consequence (small length, zero is near zero) rather than the per-component iff, which is its definition.
- Buffers.GetRgb: requires `height` and `y` to fit in a `usize`, as the source's types guarantee.
- Usda.SphereOf, Usda.ParseUsda: use the corrected translation reader `ParseVec3AttrTrimmed`; the reader as written is `ParseVec3Attr` (see Findings).
- Usda.ParseF32Attr: states where the value comes from but not the trimming of whitespace and `;` before parsing, since the parser is a parameter.
- Unicode is left out: strings are sequences of code points, and `char::is_whitespace` is an explicit character set.
- `HittableList::new` is the empty sequence and has no member of its own.

## Findings

| source | as written | input that shows it | evidently intended | confidence | as-written member | corrected member |
|---|---|---|---|---|---|---|
| crates/crust-render/src/aabb.rs:42-44 | the slab test rejects when `t_max <= t_min`, so a box of zero thickness (all its objects in one axis-aligned plane) is missed by every ray crossing it; the BVH over such objects misses hits the plain list finds | two floor triangles in the plane y = 0 and the ray from (0.25, 1, 0.25) straight down, `t` in `[0.001, 1000]`: the list hits at t = 1, the BVH reports no hit | reject only when `t_max < t_min`, so the BVH answers as the list does | not executed | Bvh.FloorCounterexample | Bvh.BvhMatchesList |
| crates/usd_oxidized/src/parser.rs:40-41 | `trim_matches` for `(`, `)` and `;` runs on the raw value after `=`, which starts with a space, so the `(` survives, the first component fails to parse and the translation falls back to (0, 0, 0) | `double3 xformOp:translate = (1, 2, 3)` | trim whitespace first, as `parse_f32_attr` does, and read (1, 2, 3) | not executed | Usda.TranslateDroppedAsWritten | Usda.TranslateReadTrimmed |
