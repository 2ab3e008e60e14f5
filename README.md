# suraffication, modelled in Dafny

suraffication turns one image into another: it cuts both images into an R x R grid of
cells, matches every source cell to a target cell, and animates each source cell as a particle that
flies to its target. This project models four parts of it:

- the grid partitioner and feature extractor of `core.py` (`Grid`);
- the assignment engine of `assignment.py`, with its cost matrix and its four
  strategies `sort`, `optimal`, `greedy` and `approx` (`Assignment`, on top of the
  index sorts in `Sorting`);
- the frame scheduler and particle arithmetic of `animate.py` (`Animate`);
- the parameter policy of the two entry points, `cli.py` (`Cli`) and `app.py` (`App`):
  the presets, output size, cap on the exact solver, output path normalisation, upload
  filter and the fixed arguments the web entry point starts the pipeline with.

Support modules: `Wrappers` (Option, Result), `Permutations` (permutations of
0 .. n - 1, pigeonhole facts), `Pixels` (colours, positions, squared distances), `Arith`
(the nonlinear steps) and `Text` (ASCII lower-casing, prefix/suffix tests, text after
the last occurrence of a character).

Colours and positions are reals. Images are sequences of rows of colours. Randomness
and trigonometry are parameters: `greedy` takes the permutation `random.shuffle`
produced, jitter takes the uniform draws, and the renderer takes the function
t |-> sin(pi t). A frame is the list of particle draws in paste order, and
`Visible` gives which draw is seen at a pixel.

Frame counts are `int(seconds * fps)`, truncated toward zero (`Animate.FrameCount`). A
particle is drawn blended only once `t_smooth * color_mix` exceeds 0.01 (`Animate.SpriteAt`).

## Model

| member | source | states |
|---|---|---|
| Assignment.PairCost | sur/py_surrafication/assignment.py:21-31 | the cost is (1 - p) * squared colour distance + p * squared position distance, shown through its consequences: it is non-negative for p in [0, 1], at most 3 for unit-cube colours and unit-square positions, pure colour distance at p = 0, pure position distance at p = 1, and 0 for identical cells |
| Assignment.CostMatrix | sur/py_surrafication/assignment.py:6-32 | an N x M matrix whose entry (i, j) is the pair cost of source i and target j |
| Assignment.CostMatrixBounds | sur/py_surrafication/assignment.py:26-31 | every entry lies in [0, 3] when p is in [0, 1] and features and positions lie in the unit ranges, which the source's comment claims |
| Assignment.Optimal | sur/py_surrafication/assignment.py:90-94 | the exact solver returns a permutation of the targets |
| Assignment.TotalCost | sur/py_surrafication/assignment.py:90-94 | the objective of the exact solver: the sum over sources i of cost[i][a[i]] |
| Assignment.OptimalIsMinimal | sur/py_surrafication/assignment.py:90-94 | no permutation has a smaller total cost than the exact solver's assignment |
| Assignment.SortKeys | sur/py_surrafication/assignment.py:47-48 | each cell's key is (Rec. 601 luminance, y, x) |
| Assignment.Luminance | sur/py_surrafication/assignment.py:46-48 | 0.299 R + 0.587 G + 0.114 B; a grey colour is its own luminance, and a unit-cube colour has luminance in [0, 1] |
| Assignment.RankOrder | sur/py_surrafication/assignment.py:67-68 | the lexsort order is a permutation of the cells and ranks them by non-decreasing luminance |
| Assignment.RankOrderTieBreak | sur/py_surrafication/assignment.py:67-68 | cells of equal luminance are ranked top to bottom, then left to right |
| Assignment.Scatter | sur/py_surrafication/assignment.py:75-76 | `assignment[src_keys] = tgt_keys` sends the source of rank k to the target of rank k |
| Assignment.RankMatchingIsPermutation | sur/py_surrafication/assignment.py:75-78 | matching two rank orders yields a permutation of the targets |
| Assignment.RankMatchingUnique | sur/py_surrafication/assignment.py:75-76 | the rank matching is determined by the two orders |
| Assignment.FirstFree | sur/py_surrafication/assignment.py:105-109 | the inner scan stops at the first position whose target is not taken, and finds none exactly when all are taken |
| Assignment.FirstFreeNone | sur/py_surrafication/assignment.py:105-109 | over a full ranking of the targets, the scan finds nothing exactly when every target is taken |
| Assignment.FirstFreeIsCheapest | sur/py_surrafication/assignment.py:103-109 | the first free target in argsort order costs no more than any other free target |
| Assignment.RowOrders | sur/py_surrafication/assignment.py:103-104 | row i is ranked by `np.argsort(cost_matrix[i])` |
| Assignment.Claim | sur/py_surrafication/assignment.py:105-109 | the visited source takes the first target of its argsort ranking that is not taken and adds it to the taken set, or stays -1 when every target is taken; the assignment keeps its length |
| Assignment.ClaimsAfter | sur/py_surrafication/assignment.py:97-123 | the state of the greedy/approx loop after the first k visited sources: all -1 and nothing taken at the start, then one Claim per visited source, in visiting order |
| Assignment.ClaimStep | sur/py_surrafication/assignment.py:102-109 | one claim: the visited source takes a cheapest free target, the taken set grows by that target, and nothing else changes; when every target is taken, nothing changes at all |
| Assignment.ClaimTakesFree | sur/py_surrafication/assignment.py:105-108 | while fewer than n targets are taken, the visited source takes a free one and only its entry changes |
| Assignment.ClaimInvariant | sur/py_surrafication/assignment.py:97-109 | after k claims, the k visited sources hold k distinct targets, and those are exactly the taken set |
| Assignment.ClaimsArePermutation | sur/py_surrafication/assignment.py:96-123 | visiting all n sources in any permutation order leaves no -1 entry, and the result is a permutation |
| Assignment.ClaimsStable | sur/py_surrafication/assignment.py:102-109 | a later claim never changes what an earlier source holds |
| Assignment.TakenByVisited | sur/py_surrafication/assignment.py:106-108 | the taken set is exactly the set of targets held by the sources visited so far |
| Assignment.ClaimsCheapestFree | sur/py_surrafication/assignment.py:102-109 | in the final result, the k-th visited source holds a target that no earlier source holds, and no such target is cheaper for it |
| Assignment.FinalHeldWereTaken | sur/py_surrafication/assignment.py:102-109 | at the end, the first k visited sources hold exactly the targets taken after k claims |
| Assignment.ScanForFree | sur/py_surrafication/assignment.py:105-109 | the `for t in sorted_targets ... break` loop computes FirstFree |
| Assignment.ClaimTargets | sur/py_surrafication/assignment.py:97-110 | the greedy/approx loop computes the claims of its visiting order |
| Assignment.SolveAssignment | sur/py_surrafication/assignment.py:34-126 | fails with "Unknown algorithm: " + name exactly for an unknown name. Otherwise it returns a permutation. For `sort` that permutation is the rank matching, and for `optimal` it has minimal total cost. For `greedy` (shuffled order) and `approx` (row order) it follows the claiming rule under any tie-break, and it equals the claims made with the lowest-index tie-break |
| Assignment.ClaimsFollowRule | sur/py_surrafication/assignment.py:96-123 | the claims in any permutation order form a permutation. In it, the k-th visited source holds a target that no earlier source holds, and no other such target is cheaper for it |
| Assignment.ClaimsCheapest | sur/py_surrafication/assignment.py:102-109 | the claiming rule independent of tie-breaks: the result is a permutation, and the k-th visited source holds a target no earlier source holds and that costs it no more than any other such target |
| Sorting.LexSort | sur/py_surrafication/assignment.py:67-68 | `np.lexsort`: a permutation of the indices in stable ascending key order |
| Sorting.SortedUnique | sur/py_surrafication/assignment.py:67-68 | the stable order of a set of indices is unique |
| Sorting.BeforeOrder | sur/py_surrafication/assignment.py:67-68 | the stable key order is irreflexive, asymmetric, transitive and total |
| Sorting.ArgSort | sur/py_surrafication/assignment.py:104 | `np.argsort`: a permutation of the target indices with non-decreasing cost |
| Grid.GetCells | sur/py_surrafication/core.py:29-91 | fails exactly when the grid resolution is 0 or below, or exceeds the image's height or width. Otherwise the cells are (H // R) x (W // R) blocks of at least 1 x 1 pixel, cut from the kept top-left region in row-major grid order, each with its centre |
| Grid.GetCellsFeaturesDefined | sur/py_surrafication/core.py:75-100 | every cell of a successful partition has a pixel, so its mean colour is defined |
| Grid.CellsOf | sur/py_surrafication/core.py:78-80 | the two reshapes and the transpose: R * R cells, each a cell_h x cell_w block of the kept region, in row-major grid order |
| Grid.Linspace | sur/py_surrafication/core.py:84-85 | `np.linspace`: num values, the first being start and, for two or more, the last being stop |
| Grid.CentresOf | sur/py_surrafication/core.py:84-89 | R * R positions; position k pairs the linspace value of grid row k // R with that of grid column k % R (meshgrid with ij indexing, raveled) |
| Grid.CellCounts | sur/py_surrafication/core.py:71-80 | there are R * R cells of cell_h x cell_w pixels and R * R positions |
| Grid.CellPixelIsImagePixel | sur/py_surrafication/core.py:71-80 | pixel (y, x) of cell k is image pixel ((k // R) * cell_h + y, (k % R) * cell_w + x), which lies inside the kept region |
| Grid.KeptPixelInCell | sur/py_surrafication/core.py:71-80 | every pixel of the kept region appears in cell (row // cell_h) * R + col // cell_w at (row % cell_h, col % cell_w): the cells partition the region |
| Grid.GridIndex | sur/py_surrafication/core.py:78-80 | block index arithmetic of the reshape and transpose |
| Grid.LinspaceCentre | sur/py_surrafication/core.py:84-85 | the centre linspace's i-th value is (i + 0.5) / R |
| Grid.PositionIsCellCentre | sur/py_surrafication/core.py:84-89 | position k is ((k // R + 0.5) / R, (k % R + 0.5) / R), strictly inside the unit square |
| Grid.FourByFourGrid | sur/py_surrafication/core.py:29-91 | a 512 x 512 image on a 4 x 4 grid gives 16 cells of 128 x 128 centred at 0.125, 0.375, 0.625, 0.875 |
| Grid.ExtractFeatures | sur/py_surrafication/core.py:93-100 | one feature per cell whose every channel, times the cell's pixel count, is the channel's pixel sum: the mean |
| Grid.CellsNonEmpty | sur/py_surrafication/core.py:75-80 | cells of a grid with positive cell size have cell_h * cell_w > 0 pixels, so their means are defined |
| Grid.MeanWithinChannelBounds | sur/py_surrafication/core.py:100 | each channel of a cell's mean lies within that channel's range over the cell |
| Grid.MeanOfConstantCell | sur/py_surrafication/core.py:100 | a single-coloured cell has that colour as its mean |
| Animate.Ease | sur/py_surrafication/animate.py:6-7 | `ease_in_out` maps 0 to 0 and 1 to 1 |
| Animate.EaseInUnit | sur/py_surrafication/animate.py:6-7 | the easing maps [0, 1] into [0, 1] |
| Animate.EaseComplement | sur/py_surrafication/animate.py:6-7 | 1 - ease(t) == (1 - t)^2 (1 + 2t) |
| Animate.EaseSymmetric | sur/py_surrafication/animate.py:6-7 | ease(1 - t) == 1 - ease(t) |
| Animate.EaseMonotone | sur/py_surrafication/animate.py:6-7 | the easing is non-decreasing on [0, 1] |
| Animate.Trunc | sur/py_surrafication/animate.py:40-42 | `int()` truncates toward zero, for both signs |
| Animate.FrameCount | sur/py_surrafication/animate.py:40-42 | the frame count is the integer part of seconds * fps, and not positive below one frame |
| Animate.AnimTime | sur/py_surrafication/animate.py:133 | frame f of n animated frames sits at t = f / (n - 1) in [0, 1], or at 1 for a single frame |
| Animate.AnimTimeMonotone | sur/py_surrafication/animate.py:132-133 | animated frame times do not decrease |
| Animate.AnimTimeEnds | sur/py_surrafication/animate.py:132-133 | the last animated frame is at t = 1, and the first at t = 0 when there are several |
| Animate.Schedule | sur/py_surrafication/animate.py:125-140 | the frame count is start hold + animated frames + end hold, each counted only when positive |
| Animate.ScheduleParts | sur/py_surrafication/animate.py:125-140 | start-hold frames are at t = 0, animated frame f is at AnimTime(f), end-hold frames are at t = 1 |
| Animate.ScheduleInUnit | sur/py_surrafication/animate.py:125-140 | every scheduled time lies in [0, 1] |
| Animate.ScheduleMonotone | sur/py_surrafication/animate.py:125-140 | scheduled times never decrease |
| Animate.ParticleSide | sur/py_surrafication/animate.py:59-62 | the particle side is int(cell * scale), but at least 1 |
| Animate.FullScaleSide | sur/py_surrafication/animate.py:59-62 | at scale 1 a particle is exactly the cell size (1 for an empty cell) |
| Animate.SourceParticles | sur/py_surrafication/animate.py:82-83 | one source particle per source cell, in cell order |
| Animate.TargetParticles | sur/py_surrafication/animate.py:48-85 | target particles of the assigned target cells are made only when color_mix > 0 |
| Animate.PrepareParticles | sur/py_surrafication/animate.py:82-85 | the preparation loop builds both particle lists |
| Animate.JitterOffset | sur/py_surrafication/animate.py:52 | a draw in [0, 1) gives an offset within [-jitter, jitter], and zero jitter gives zero |
| Animate.JitterOffsets | sur/py_surrafication/animate.py:52 | one (dy, dx) offset pair per cell, from that cell's draws |
| Animate.Lerp | sur/py_surrafication/animate.py:94 | the interpolation starts at a, ends at b, and stays between them for e in [0, 1] |
| Animate.EndPos | sur/py_surrafication/animate.py:45 | `tgt_pos[assignment]`: cell i ends at the position of its assigned target, which is one of the target positions |
| Animate.Centre | sur/py_surrafication/animate.py:91-98 | the normalised centre of cell i at time t: the eased interpolation from its source position to its end position, plus its jitter offset times sin(pi t) |
| Animate.LerpForm | sur/py_surrafication/animate.py:94 | (1 - e) a + e b == a + e (b - a) |
| Animate.CentreAtEnds | sur/py_surrafication/animate.py:94-98 | with sin(pi 0) = sin(pi 1) = 0, a particle starts at its source centre and ends exactly at its assigned target's centre, jitter or not |
| Animate.CentreBetween | sur/py_surrafication/animate.py:94 | without jitter, a particle stays between its start and its end on both axes |
| Animate.MixFactor | sur/py_surrafication/animate.py:109 | `t_smooth * color_mix`: 0 at t = 0, the full mix at t = 1, and between 0 and the mix for t in [0, 1] and a non-negative mix |
| Animate.SpriteAt | sur/py_surrafication/animate.py:109-119 | a blend of the source and target particles by t_smooth * color_mix is drawn exactly when color_mix > 0 and that mix exceeds 0.01; otherwise the plain source particle is drawn |
| Animate.NoMixMeansPlain | sur/py_surrafication/animate.py:84-118 | without colour mixing every particle is drawn plain |
| Animate.MixAtEnds | sur/py_surrafication/animate.py:109-119 | at t = 0 the particle is plain, and at t = 1 it is blended by the full color_mix when that exceeds 0.01 |
| Animate.BlendPersists | sur/py_surrafication/animate.py:109-118 | once a particle is blended it stays blended, with a mix that does not decrease |
| Animate.DrawAt | sur/py_surrafication/animate.py:101-106 | the top-left corner is the centre times the output size minus half the particle side, truncated toward zero |
| Animate.FrameAt | sur/py_surrafication/animate.py:113-121 | a frame pastes one particle per cell, in cell order |
| Animate.RenderFrame | sur/py_surrafication/animate.py:90-123 | the paste loop produces FrameAt |
| Animate.Visible | sur/py_surrafication/animate.py:111-121 | a pixel shows no particle (the black background) exactly when no paste covers it |
| Animate.LastWriterWins | sur/py_surrafication/animate.py:121 | a pixel shows the last particle pasted over it |
| Animate.HigherIndexOnTop | sur/py_surrafication/animate.py:113-121 | where several particles overlap, the highest-indexed cell's sprite is seen |
| Animate.Repeat | sur/py_surrafication/animate.py:127-128 | a hold yields n copies of one frame, none for n <= 0 |
| Animate.Animation | sur/py_surrafication/animate.py:131-133 | the animation loop renders frame f at AnimTime(f, num_frames), one frame per iteration of `range(num_frames)` |
| Animate.PartsFollowSchedule | sur/py_surrafication/animate.py:124-139 | the start hold at t = 0, then the animation, then the end hold at t = 1, laid end to end, are one frame per entry of Schedule |
| Animate.GenerateFrames | sur/py_surrafication/animate.py:9-140 | the frames are exactly one render per scheduled time: the start hold at t = 0, the animation in time order, the end hold at t = 1 |
| Cli.Preset | sur/py_surrafication/cli.py:36-59 | the table gives a look for sand, blocks and bubbles and none for any other name |
| Cli.WithPreset | sur/py_surrafication/cli.py:36-59 | a named preset replaces the six settings, and any other name leaves them as they are |
| Cli.PresetOverridesAll | sur/py_surrafication/cli.py:36-59 | with a named preset, the arguments given before do not matter |
| Cli.PresetIdempotent | sur/py_surrafication/cli.py:36-59 | applying a preset twice is applying it once |
| Cli.PresetLooksValid | sur/py_surrafication/cli.py:36-59 | every preset has a known algorithm, a known shape, a positive grid, scales in range, and is not changed by the optimal cap |
| Cli.Capped | sur/py_surrafication/cli.py:112-115 | `optimal` above 80 cells a side becomes `sort`, and nothing else changes |
| Cli.CapIdempotent | sur/py_surrafication/cli.py:112-115 | capping twice is capping once |
| Cli.FloorDiv | sur/py_surrafication/cli.py:92 | `//` rounds toward negative infinity for either sign of the divisor |
| Cli.FloorDivNegative | sur/py_surrafication/cli.py:92 | 512 // -3 == -171 |
| Cli.OutputSize | sur/py_surrafication/cli.py:90-93 | fails with the division error exactly for resolution 0; otherwise the size is a multiple of the resolution, is positive for a positive resolution, is the largest multiple up to 512 for a resolution in 1 .. 512, and is the resolution itself above 512 |
| Cli.OutputSizeExamples | sur/py_surrafication/cli.py:90-93 | 64 gives 512, 100 gives 500, 600 gives 600 |
| Cli.Basename | sur/py_surrafication/cli.py:141 | the file name is everything after the last '/' of the path, or the whole path when it has no '/' |
| Cli.IntoOutputs | sur/py_surrafication/cli.py:140-141 | a path already under `outputs/` or `outputs\` is kept; any other becomes `outputs/` + its file name |
| Cli.WithVideoExtension | sur/py_surrafication/cli.py:143-144 | a path ending in .mp4 or .gif (in any case) is kept; any other gets `.mp4` appended |
| Cli.OutputPath | sur/py_surrafication/cli.py:137-144 | the final path is under outputs and has a video extension |
| Cli.OutputPathKeepsConforming | sur/py_surrafication/cli.py:137-144 | a path that already conforms is left as it is |
| Cli.OutputPathIdempotent | sur/py_surrafication/cli.py:137-144 | normalising twice is normalising once |
| Cli.OutputPathAppends | sur/py_surrafication/cli.py:137-144 | a wrong extension is kept with `.mp4` after it, and the file name survives the move into outputs |
| Cli.ConformingPathExample | sur/py_surrafication/cli.py:140-144 | `outputs/clip.MP4` is kept as it is |
| Cli.Args.constructor | sur/py_surrafication/cli.py:30 | the parsed arguments hold the given values |
| Cli.Args.ApplyPreset | sur/py_surrafication/cli.py:36-59 | the preset branches leave the settings WithPreset gives, and the preset name and output path unchanged |
| Cli.Args.ComputeOutputSize | sur/py_surrafication/cli.py:90-93 | the reassignments compute OutputSize |
| Cli.Args.CapOptimal | sur/py_surrafication/cli.py:112-115 | only the algorithm changes, to its capped value |
| Cli.Args.NormaliseOutputPath | sur/py_surrafication/cli.py:137-144 | the reassignments compute OutputPath |
| Cli.Args.Prepare | sur/py_surrafication/cli.py:36-144 | all the policy steps, in order: preset, then the cap on the preset look, with the output size of the final resolution and a conforming output path; the preset name and the `out` argument stay as they were |
| App.AllowedFileByExtension | sur/app.py:22-23 | a name is judged by its last extension alone, in any letter case (both directions) |
| App.AllowedFile | sur/app.py:22-23 | the name contains '.' and the lower-cased text after its last '.' is png, jpg, jpeg or gif; an accepted name therefore ends in a dot and three or four characters |
| App.AllowedFileIff | sur/app.py:20-23 | a name is accepted exactly when some dot with no dot after it is followed by an allowed extension |
| App.UpperCaseAccepted | sur/app.py:22-23 | `photo.PNG` is accepted |
| App.DoubleExtensionRejected | sur/app.py:22-23 | `a.png.exe` is rejected |
| App.NoDotRejected | sur/app.py:22-23 | `png` is rejected |
| App.CustomLook | sur/app.py:60-90 | a custom request takes each field from the form, or its default: 64, sort, 0.6, 0.0, circle, 0.05 |
| App.ResolveLook | sur/app.py:60-90 | a named preset decides the look; any other preset name takes the form's values |
| App.DefaultIsSand | sur/app.py:60-71 | without a preset field the look is sand's |
| App.Respond | sur/app.py:33-119 | the checks in order: no upload, empty name and bad extension give 400, a missing target gives 500; a job is started exactly when the upload is accepted, the target exists and the resolution is not 0 |
| App.StartedJob | sur/app.py:93-119 | a started job has the requested look with the optimal cap applied, the output size Cli.OutputSize gives for its grid (so one the grid divides), proximity 0.3, 6 seconds at 30 fps, and holds of 1 and 2 seconds |
| App.PresetIgnoresForm | sur/app.py:64-85 | with a named preset, the form's other fields do not change the reply |
| App.ZeroResolutionFails | sur/app.py:93-133 | a custom resolution of 0 fails with status 500 and Python's division message |
| App.Generate | sur/app.py:30-119 | the handler's checks and reassignments produce Respond's reply |

## Left out

- Image loading and resizing (`load_and_process_image`), particle resampling with
  LANCZOS, the ellipse mask, `Image.blend` pixel arithmetic, and video writing
  (`save_video`, imageio): the model keeps what is drawn where. The disc mask is a
  parameter of `Visible`.
- Assignment.Optimal: `linear_sum_assignment` is modelled by exhaustive search over all
  permutations. The model states what it returns (a minimum-cost permutation), not
  the Hungarian algorithm's steps. On ties it may pick a different minimum.
- Assignment.SolveAssignment: it requires as many targets as sources; both entry
  points always pass R * R of each. The N > 10000 warning print is left out.
- Assignment.ClaimTargets: keeps the assignment in a sequence, not a numpy array
  updated in place.
- Sorting.ArgSort: numpy's default argsort does not guarantee any order among equal
  costs. The model's order is stable, so the first cheapest free target is the
  lowest-indexed one. The equality clauses of `Assignment.ClaimTargets` and
  `Assignment.SolveAssignment` fix that tie-break, which numpy may not choose.
  `Assignment.ClaimsCheapest`, also in `SolveAssignment`'s contract, holds for any tie-break.
- Randomness: the `random.shuffle` order and `np.random.rand` draws are parameters, and
  seeding (`--seed`) is not modelled. `math.sin(math.pi * t)` is the `sinPi`
  parameter; the end-point lemmas assume it vanishes at 0 and 1.
- Floating point: every float is a real, so float32 rounding, linspace rounding and
  NaN are not modelled.
- Grid.ExtractFeatures: requires non-empty cells. For empty cells numpy yields NaN
  means with a warning, which the model does not represent.
- Grid.GetCells: a grid resolution of 0 fails with the message of Python's `//`
  ZeroDivisionError (core.py:40). A negative grid resolution fails in the first reshape
  (core.py:78) with numpy's full message, "can only specify one unknown dimension".
  A grid finer than the image fails in the last reshape (core.py:80). For that case the
  model gives only the start of numpy's message, "cannot reshape array of size 0"; the
  shape numpy prints after it is left out.
- Text.Lower: `str.lower` is modelled for ASCII letters only.
- Cli.Basename: `os.path.basename` is the POSIX rule (text after the last '/').
- Command-line parsing (argparse), the existence checks on the source and target
  paths (with the fallback target), the verbose and warning prints, the preview
  window (`gui.py`) and `os.makedirs`.
- App: form values arrive parsed. A non-numeric `int()`/`float()` field would raise and
  return status 500, which is not modelled. Not modelled either: the Flask routes,
  uuid session names, saving and deleting the upload, and the download route.
- App.Respond: `Started` describes the arguments the pipeline is started with. Errors
  raised later inside the pipeline are not modelled, for example a negative resolution
  failing in `get_cells` or an unreadable image. The target's absolute path is the
  `targetLocation` parameter.
- Printing the frame counts.
- Animate.GenerateFrames: returns the whole sequence of frames. `generate_frames` is a
  generator that yields them lazily. The model captures the order and content of the
  frames, but not that they are produced one by one on demand, nor that the hold
  frames are the same array object yielded repeatedly.
