# Sliced-optimization utilities: a Dafny model

This project models the deterministic core of `Tools/my_utility.h`, the utility
header of a slicing-based point-set optimizer:

- **`toroidal_minus`**: the periodic difference of two points. It is modelled
  component by component (`Toroidal.MinusComponent`) and as the imperative
  loop over a local vector (`Toroidal.ToroidalMinus`). On the unit domain
  [0,1)^d it is proved to be the difference taken modulo 1. That is not the
  minimum image.
- **`toroidal_norm`**: the per-axis choice among `raw`, `raw+1` and `raw-1`,
  keeping the smallest square. The model includes the strict-comparison
  tie rule. The chosen vector is proved to be a minimum image, and the proofs
  show exactly where it differs from `toroidal_minus`.
- **`chooseDirectionsND`** in two dimensions: the three-way branch on the
  draw `rnd`, the stratified angle `(k/m + u/m)·2π` and the in-place writes to
  `directions[0..m)`. The function-static `mt19937` is a small state machine,
  `Directions.DirectionChooser`. It is constructed with the seed of the first
  call only and then counts the draws taken from it. Random values are an
  input stream: `stream(s, n)` is the n-th uniform draw of a generator
  seeded with `s`.
- **`export_sampler`**: the table written by its nested loops, over
  (frame, row, column, sample, component). The model includes the index maps
  `(i*tile_size+j)*spp+k` and `(j*spp+k)*dim+d`. It also covers the emitted
  `sample` accessor, both with C++'s truncating `%` and with indices reduced
  into range.
- **`sgn`**, instantiated at `real`.

Reals stand for `double`/`float`. Integers are unbounded.

## Model

| member | source | states |
|---|---|---|
| Sign.Sgn | Tools/my_utility.h:45-47 | the result is 1, 0 or -1 exactly when the argument is positive, zero or negative |
| Sign.SgnMagnitude | Tools/my_utility.h:45-47 | sign times value is the magnitude; the sign of -x is minus the sign of x |
| Toroidal.MinusComponent | Tools/my_utility.h:53-59 | raw+1 when raw ∈ [-1,0), raw-1 when raw ∈ [1,2), raw otherwise; the result lies in [0,1) iff raw ∈ [-1,2) |
| Toroidal.ToroidalMinus | Tools/my_utility.h:49-62 | the loop returns a vector with v1's dimension whose components are the range-tested differences |
| Toroidal.MinusComponentIsFrac | Tools/my_utility.h:51-60 | for inputs in [0,1) a component equals the reference "x mod 1" of the raw difference |
| Toroidal.MinusOnTorus | Tools/my_utility.h:49-62 | for points of [0,1)^d the difference is a point of [0,1)^d, each axis the difference modulo 1 |
| Toroidal.NormComponent | Tools/my_utility.h:68-74 | the choice is raw, raw+1 or raw-1; its square is ≤ all three squares; it is raw exactly when raw's square is ≤ both others (ties keep the earlier candidate) |
| Toroidal.ToroidalNormSelect | Tools/my_utility.h:64-77 | the loop returns the vector of per-axis choices whose norm the source returns |
| Toroidal.MinimumImage | Tools/my_utility.h:64-77 | the measured vector is an image of the difference, and no image (each axis shifted by -1, 0 or +1) has a smaller sum of squares |
| Toroidal.NormComponentHalf | Tools/my_utility.h:67-75 | for inputs in [0,1) each chosen component lies in [-1/2, 1/2] |
| Toroidal.NormVersusMinus | Tools/my_utility.h:49-77 | for inputs in [0,1) toroidal_norm keeps the toroidal_minus component when it is below 1/2 or raw is exactly 1/2, and otherwise moves it down by one period |
| Toroidal.WorkedCases | Tools/my_utility.h:49-77 | 0.1 against 0.95 gives 0.15 under both rules; a raw 0.7 stays 0.7 in toroidal_minus but becomes -0.3 in toroidal_norm |
| Directions.Theta | Tools/my_utility.h:102 | the angle of direction k is k + u bin widths of 2π/m |
| Directions.StratumOfTheta | Tools/my_utility.h:102 | with a jitter in [0,1), the angle of direction k lies in [2πk/m, 2π(k+1)/m) |
| Directions.Step | Tools/my_utility.h:100-111 | rnd < 0.7 gives the stratified angle (using the next draw), 0.7 ≤ rnd < 0.85 gives (1,0), otherwise (0,1); two draws are consumed for an angle, one for an axis |
| Directions.Run | Tools/my_utility.h:98-111 | k iterations write k directions and consume between k and 2k draws |
| Directions.RunStratified | Tools/my_utility.h:98-111 | every direction written has unit length, and direction i, when it is an angle, lies in angular bin i |
| Directions.DirectionChooser.constructor | Tools/my_utility.h:92-94 | before the first call the static generator is not yet constructed and no draw has been taken |
| Directions.DirectionChooser.NextDirection | Tools/my_utility.h:100-111 | one iteration returns the direction of Step and advances the generator by the draws it used |
| Directions.DirectionChooser.WriteDirections | Tools/my_utility.h:98-118 | entries 0..m-1 become the directions of the run from the generator's current position, the generator advances past the draws used, and later entries are unchanged |
| Directions.DirectionChooser.ChooseDirections | Tools/my_utility.h:89-119 | the generator takes the seed of the first call only, and the first call draws from the start of that seed's stream; entries 0..m-1 become the directions of the run from the generator's current position, and later entries are unchanged |
| Directions.SeedAppliedOnce | Tools/my_utility.h:86-94 | after a first call with seed s0, a second call gives the directions drawn from seed s0, whatever seed it passes |
| TileExport.PointIndexInjective | Tools/my_utility.h:141-153 | for i, j < tile_size and k < spp the point index lies in [0, tile_size²·spp) and distinct (i, j, k) give distinct indices |
| TileExport.PointIndexOnto | Tools/my_utility.h:141-153 | every index in [0, tile_size²·spp) is emitted by some (i, j, k) |
| TileExport.RowAt | Tools/my_utility.h:146-154 | row i holds at offset (j*spp+k)*dim+d component d of point (i*tile_size+j)*spp+k |
| TileExport.TileAt | Tools/my_utility.h:137-160 | every frame has tile_size rows, and row i of frame f holds that same layout, so every frame repeats the same data |
| TileExport.EmitSample | Tools/my_utility.h:148-155 | the innermost loop extends the row emitted so far by the dim components of sample k of column j |
| TileExport.EmitRow | Tools/my_utility.h:141-158 | the inner loops emit exactly row i of the table |
| TileExport.ExportSampler | Tools/my_utility.h:129-169 | the frame and row loops emit exactly the table, nb_frames frames of tile_size rows |
| Arith.CRem | Tools/my_utility.h:164 | C++'s `%`: the remainder is smaller than the modulus in magnitude, has the sign of the dividend, and differs from the dividend by a multiple of the modulus, which fixes it uniquely |
| TileExport.SampleOffsetAsWritten | Tools/my_utility.h:164 | the emitted row offset `(j%T)*spp*dim+(s%spp)*dim+(d%dim)` is always smaller than a row's width in magnitude: it can fall before the row but never past its end |
| TileExport.SampleOffsetAsWrittenInRow | Tools/my_utility.h:164 | for non-negative j, s, d the emitted offset is the row-major offset of the reduced indices and lies in [0, tile_size·spp·dim) |
| TileExport.AsWrittenIndicesInRange | Tools/my_utility.h:164 | for non-negative arguments the frame, row and offset indices of the emitted code all lie inside the table |
| TileExport.AsWrittenNegativeIndex | Tools/my_utility.h:164 | column -1 gives the offset -spp·dim and frame -1 gives the frame index -1, both outside the table |
| TileExport.SampleAsWritten | Tools/my_utility.h:163-165 | the emitted accessor, wherever every index it computes lies in the table; for non-negative arguments it returns what the reduced accessor returns |
| TileExport.AsWrittenWrongEntry | Tools/my_utility.h:164 | `sample(0,0,1,0,-1)` with more than one column and component reads offset spp·dim-1, the last component of point spp-1, while the periodic reading is the last component of point spp |
| TileExport.Sample | Tools/my_utility.h:163-165 | the accessor with every index reduced into range; on in-range arguments it reads the row-major entry `(j*spp+s)*dim+d` of frame f, row i, without wrap-around |
| TileExport.SamplePeriodic | Tools/my_utility.h:163-165 | shifting f, i, j, s or d by nb_frames, tile_size, tile_size, spp or dim leaves the sample unchanged |
| TileExport.SampleRoundTrip | Tools/my_utility.h:137-165 | sampling the exported table at any integer arguments returns component d mod dim of point ((i mod T)·T + j mod T)·spp + s mod spp |

## Left out

- `randomVectorInBall` and `randomVectorInCube` (Tools/my_utility.h:14-39): their content is the distribution of the draws, plus `pow` and `normalize`, which are floating-point numerics.
- `clamp` and `inverseFunction` (Tools/my_utility.h:41, 43): the header declares them but does not define them. `inverseFunction`'s body is not part of this model.
- The `dim != 2` branch of `chooseDirectionsND` (Tools/my_utility.h:112-115): it is Gaussian draws followed by normalisation. So are the statistical claims: uniform directions, and the 70/15/15 branch frequencies.
- `std::mt19937` and the distributions: the uniform draws are an input stream, `stream(seed, n)`, with values in [0,1). How a real generator produces them is not modelled.
- `cos`, `sin` and the final `normalize()` of `chooseDirectionsND`: a stratified direction is recorded by its angle. `Directions.IsUnit` treats an angle as a unit vector because cos² + sin² = 1.
- `res.norm()` in `toroidal_norm`: the model stops at the chosen vector and its sum of squares (`Toroidal.SquaredNorm`), without the square root.
- Floating point: `double` and `float` are idealised as `real`. That covers the `float` result of `toroidal_norm` and the `float(k)/m` in the angle.
- `Toroidal.ToroidalMinus`, `Toroidal.ToroidalNormSelect`: require `v2` to have at least `v1.dim()` components. The source reads `v2[i]` for every `i < v1.dim()`, and any other input is undefined behaviour there.
- `Directions.DirectionChooser.ChooseDirections`: requires a non-empty `directions` (the source calls `front()`) and at least `m` entries. A non-positive `m` writes nothing, as in the source.
- The data race on the function-static generator under concurrent calls: the model is sequential.
- File I/O in `export_sampler` (Tools/my_utility.h:132-166): opening, writing and formatting the text are not modelled, and neither is the silent no-op when the file does not open. The model produces the table that the text denotes.
- `TileExport.ExportSampler`: `tile_size`, `spp` and `nb_frames` are natural numbers. The source converts these `int`s to `size_t` in its loop comparisons, so negative values are not modelled.
- `TileExport.SampleAsWritten`: defined only where every index the C++ code computes lies inside the table. Elsewhere the C++ read is out of bounds, which has no defined result. Some negative arguments stay in bounds and read a wrong entry; see Findings.
- `Math/VecX.h` is not part of this model. Vectors are `seq<real>`.

## Notes on the code

- `toroidal_minus` keeps the difference modulo 1 in [0,1), while `toroidal_norm` takes the minimum image. `Toroidal.NormVersusMinus` states where the two disagree.
- A non-positive `m` runs no iterations of `chooseDirectionsND`'s loop, but the first call still seeds the generator.

## Findings

| source | as written | input that shows it | evidently intended | confidence | as-written member | corrected member |
|---|---|---|---|---|---|---|
| Tools/my_utility.h:164 | the emitted `sample` reduces each argument with C++'s `%`, which keeps the sign of a negative argument | `sample(0, 0, -1, 0, 0)` with tile_size 4: the row offset is `(-1 % 4)*spp*dim = -spp*dim`, before the start of the row; likewise `f = -1` with more than one frame | every argument reduced into [0, extent), so that the tile repeats for all integer coordinates | medium; not executed | TileExport.AsWrittenNegativeIndex | TileExport.SamplePeriodic |
| Tools/my_utility.h:164 | a negative component index keeps its sign under C++'s `%` and is added to the offset of the next column, landing inside the row on a different point | `sample(0, 0, 1, 0, -1)` with tile_size and dim above 1: the offset is `spp*dim - 1`, the last component of point spp-1, where the periodic reading is the last component of point spp | every argument reduced into [0, extent) before the offset is formed | medium; not executed | TileExport.AsWrittenWrongEntry | TileExport.SampleRoundTrip |
