# treenet sample generation, modelled in Dafny

This project models the pure logic of a synthetic-tree dataset pipeline and
proves properties of it. The pipeline has five parts:

- **The job planner** (`scripts/sample_generation.py`). It splits each
  model's sample count into renderer invocations of `JOB_CHUNK_SIZE` samples
  plus one remainder, and builds the argument list of each invocation. It
  also formats durations.
- **The parameter registry** (`scripts/treeconfigs.py`). This is an
  insertion-ordered map from parameter names to bounded integer or float
  descriptors, scalar or per-element lists. `jitter` and `shuffle` redraw
  every registered parameter of a tree model.
- **The per-sample configuration pipeline** of the renderer script
  (`scripts/sapling_tree_generator.py`, without its Blender scene work). It
  covers:
  - the fixed add-on defaults;
  - the linear complexity blend;
  - the silhouette override;
  - the seed;
  - the order of these steps in the sample loop;
  - the view angles;
  - the names of the files each sample yields.
- **The archive helpers** (`scripts/file_utils.py`):
  - batching of dataset names;
  - the preview grid layout;
  - shuffling of the dataset list;
  - zip and HDF5 entry names;
  - pixel binarisation and the train/test/valid split of the conversion.
- **The path helpers** (`scripts/utils.py`): `basename`, `splitext`,
  `dirname` and `join` semantics, and the file-name helpers built on them.

## How randomness is modelled

numpy's global random stream is passed in explicitly as a sequence of unit
draws, which are reals in [0, 1).

- Each call of `random()`, `uniform()` or `randint()` takes one draw.
- Each numpy shuffle takes one draw per position, except the first.
- `np.random.choice(range(360), views, replace=False)` is numpy's legacy
  algorithm: shuffle all 360 angles, then keep the first `views`.
- Every sampling function returns the draws it left over.
- Running out of draws gives the error `DrawsExhausted`. It stands for "the
  stream continues" and has no counterpart in the program.

## Modules

| file | module | models |
|---|---|---|
| results.dfy | Results | `Option`, `Result` and the failures the program raises |
| numbers.dfy | Numbers | Python `int()` on floats, linear interpolation, scaling a unit draw |
| decimal.dfy | Decimal | `str()` on integers and the `int()` reading it back |
| paths.dfy | Paths | `utils.py` path helpers |
| tree_model.dfy | TreeModel | the tree model dictionary and `read_tree_model` |
| tree_configs.dfy | TreeConfigs | parameter descriptors, the registry, `jitter` and `shuffle` |
| shuffling.dfy | Shuffling | numpy's legacy Fisher-Yates shuffle and fancy indexing |
| renders.dfy | Renders | extensions, output file names, the output prefix, the view angles |
| generator.dfy | Generator | defaults, the complexity blend, the silhouette, the sample loop |
| planner.dfy | Planner | the argument builders, chunking, `create_job_list`, `human_readable_time` |
| file_utils.dfy | FileUtils | batches, preview grid, shuffle, archive names, fuel conversion |

## Notes on the code's behaviour

The model follows what the code does, including these details:

- `FloatParameter.get_random` returns `lo + (hi - lo) * random()`. This lies
  in the half-open range [lo, hi), not the closed one.
- The complexity blend at the last sample yields the end value *after* the
  cast. For `branches` that cast is `int`, which truncates.
- An empty model file does not raise. `read_tree_model` prints a message and
  returns `None`. It is modelled as the failure `EmptyConfig`.
- In HDF5 mode the sweep always looks for `.png` files.
  `save_images_to_hdf5` is called without an image format, so the `.hd5`
  format the driver passes is ignored.

## Model

| member | source | states |
|---|---|---|
| Paths.Basename | scripts/utils.py:49-50 | The base name is a suffix of the path with no '/'. It is either the whole path or preceded by a '/'. |
| Paths.LastComponentUnique | scripts/utils.py:49-50 | Any suffix meeting the base-name rule is the base name, so the base name is determined by the path. |
| Paths.Splitext | scripts/utils.py:50 | Root and extension concatenate to the input. The extension is empty or starts with '.' and holds no further '.' or '/'. It is non-empty exactly when some position qualifies, and leading dots of a name never do. |
| Paths.SplitextAt | scripts/utils.py:50 | When a position qualifies as the extension start, `splitext` splits there. |
| Paths.GetFilename | scripts/utils.py:49-50 | The file name is a prefix of the base name and contains no '/'. It is shorter than the base name exactly when the base name has an extension, and then the rest of the base name is that extension. |
| Paths.GetFilenameWithExtension | scripts/utils.py:57-58 | Root and extension glued back together give the base name. |
| Paths.Dirname | scripts/utils.py:53-54 | The directory part is the path up to its last component with the trailing slashes dropped, except that a part made only of slashes is kept whole. |
| Paths.Join | scripts/utils.py:44-45 | An absolute second part replaces the first. Otherwise the result is the first part, one '/' unless the first part is empty or already ends in '/', then the second part. The base name is that of the second part. |
| Paths.BasenameAfterSeparator | scripts/utils.py:44-45 | A directory that is empty or ends in '/' does not change the base name of what follows it. |
| Paths.DirnameJoin | scripts/file_utils.py:186 | Joining a directory (all slashes, or not ending in '/') with a single component and taking the directory part gives the directory back. |
| TreeModel.ReadTreeModel | scripts/utils.py:11-22 | A model results exactly when the parsed dictionary is non-empty, and then it is that dictionary. Otherwise the result is the empty-config failure. |
| TreeConfigs.IntSample | scripts/treeconfigs.py:12-19 | Equal bounds give the lower bound without a draw. Otherwise one draw gives a value in [lo, hi). A lower bound above the upper is rejected. |
| TreeConfigs.IntSampleReachesEvery | scripts/treeconfigs.py:16 | Every integer of a non-empty range is produced by some draw. |
| TreeConfigs.Uniform | scripts/treeconfigs.py:53 | `uniform(lo, hi)` lies between the bounds, in [lo, hi) when lo < hi, and is lo when they coincide. |
| TreeConfigs.FloatRandom | scripts/treeconfigs.py:45-46 | One draw gives a value between the bounds, in [lo, hi) when lo < hi, equal to lo when they coincide. |
| TreeConfigs.FloatJitter | scripts/treeconfigs.py:48-55 | Bounds (0, 0) give exactly 0.0 without a draw. Any accepted value lies in [lo, hi]. A value results exactly when the bounds are (0, 0), or lo <= hi and a draw is available. |
| TreeConfigs.JitterLoopNeverExits | scripts/treeconfigs.py:52-55 | With lo > hi no draw passes the acceptance test, so the loop never returns. |
| TreeConfigs.SampleEach | scripts/treeconfigs.py:27-37 | A list parameter yields one value per sub-descriptor, in order, each obeying its own bounds. It consumes exactly the sub-descriptors' draws. |
| TreeConfigs.SampleParam | scripts/treeconfigs.py:12-73 | Sampling succeeds exactly when the bounds admit it and enough draws remain. The value conforms to the descriptor, and the draws consumed are exactly its draw count. |
| TreeConfigs.Register | scripts/treeconfigs.py:79-98 | Ordered-dict assignment: lookup yields the new descriptor. A new name goes last; a registered name keeps its position. Other entries are unchanged and names stay unique. |
| TreeConfigs.AddIntParameter | scripts/treeconfigs.py:82-83 | Registers an int descriptor with truncated bounds. |
| TreeConfigs.AddFloatParameter | scripts/treeconfigs.py:85-86 | Registers a float descriptor with the given bounds. |
| TreeConfigs.AddIntListParameter | scripts/treeconfigs.py:88-93 | The list has as many sub-descriptors as the shorter bound vector, each with truncated bounds. |
| TreeConfigs.AddFloatListParameter | scripts/treeconfigs.py:95-98 | The list has as many sub-descriptors as the shorter bound vector, with the zipped bounds. |
| TreeConfigs.Apply | scripts/treeconfigs.py:100-106 | `jitter` and `shuffle` set every registered name and leave every other key unchanged. Each registered value conforms to its descriptor, and the loop consumes exactly the total draw count. |
| TreeConfigs.ApplyVisitsInOrder | scripts/treeconfigs.py:100-106 | Parameter `i` is drawn from the stream left after parameters 0..i-1, so parameters are visited in registration order. |
| Generator.TreeModelDefaults | scripts/sapling_tree_generator.py:110-118 | The seven add-on settings take their fixed values and every other key is unchanged. |
| Generator.DefaultsIdempotent | scripts/sapling_tree_generator.py:110-118 | Applying the defaults a second time changes nothing. |
| Generator.CastMonotone | scripts/sapling_tree_generator.py:162-164 | Both casts (`int` and `float`) preserve order, so "lies between" survives casting. |
| Generator.BroadcastLength | scripts/sapling_tree_generator.py:162 | numpy broadcasting of start and end. Scalars and length-1 vectors stretch, equal lengths pass, and anything else clashes. Two scalars give no tuple. |
| Generator.Fraction | scripts/sapling_tree_generator.py:160 | The blend fraction is 0 at the first sample and 1 at the last. It lies in [0, 1] in between and exceeds 1 past the last sample. |
| Generator.BlendMeetsPromise | scripts/sapling_tree_generator.py:160-164 | A blended component is the cast start at sample 0 and the cast end at the last sample. In between it is the cast of a value between start and end, and past the last sample the cast of a value beyond the end. |
| Generator.BlendExtrapolates | scripts/sapling_tree_generator.py:160-164 | Past the last sample the blend goes beyond the end value, above it for a rising blend and below it for a falling one; nothing clamps it. |
| Generator.ComplexityVariation | scripts/sapling_tree_generator.py:155-164 | Errors: a zero total, a missing key, non-broadcastable tuple ends, non-numeric scalar ends. On success only the parameter changes. A tuple becomes a tuple of the broadcast length whose components each blend between start and end; a scalar blends between the ends. |
| Generator.TupleBlendKeepsLength | scripts/sapling_tree_generator.py:161-162 | Blending equally long start and end tuples keeps their length. |
| Generator.RenderSilhouette | scripts/sapling_tree_generator.py:357-361 | Sets `closeTip` to False, `minRadius` to 0.005 * `scale`, and `scale0` to 0.0, and changes nothing else. A missing or non-numeric `scale` fails. |
| Generator.ComplexityTargets | scripts/sapling_tree_generator.py:334-338 | The blend end points are the model's branches and splits, and its trunk radius at 1, 0.5 and 1.3 times. |
| Generator.BlendComplexity | scripts/sapling_tree_generator.py:348-352 | The four blends, in order. `branches` carries its `int` blend from (1, 3, 1, 1), `segSplits` its blend from zeros, `scale0` its blend from the trunk radius to 1.3 times it, and `scaleV0` its blend from 0 to half the trunk radius. Each keeps its kind, and no other key changes. A zero total fails. |
| Generator.JitterStep | scripts/sapling_tree_generator.py:344-345 | In pure random mode every registered name is set and, with unique names, holds a value its descriptor can produce; exactly the registered draws are used and nothing else changes. Otherwise nothing changes and no draw is used. |
| Generator.ComplexityStep | scripts/sapling_tree_generator.py:348-352 | Outside pure random mode the model is unchanged. Inside it each of the four keys carries its blend, keeps its kind, and no other key changes. |
| Generator.SilhouetteStep | scripts/sapling_tree_generator.py:357-361 | In silhouette mode the result is silhouetted; otherwise nothing changes. |
| Generator.Shape | scripts/sapling_tree_generator.py:343-361 | Jitter, then the blends, then the silhouette. In pure random mode the registered names are set, those not blended or silhouetted keep a jittered value, and the blended keys carry their blends; in silhouette mode the silhouette values win, so `scale0` is 0.0. Keys no step writes are unchanged. |
| Generator.ConfigureSample | scripts/sapling_tree_generator.py:343-365 | The sample's configuration: the seed is the sample number, the silhouette holds in silhouette mode, and in pure random mode the blends and the jittered values hold as for the shaping steps. Only the jitter's draws are consumed, and keys no step writes are unchanged. |
| Generator.Outputs | scripts/sapling_tree_generator.py:294-316 | An export names one `.obj` file. A render chooses `views` distinct angles in [0, 360) and names one `.png` per view when an image path is set. |
| Generator.Run | scripts/sapling_tree_generator.py:341-375 | The loop yields one sample per seed from start to stop, in order. Sample `i` is named for seed `start + i`, its configuration carries everything `ConfigureSample` promises for that seed, and keys no step writes keep the model's values. |
| Generator.Generate | scripts/sapling_tree_generator.py:333-375 | The blend targets are read once from the model, then `number` samples are made for seeds `start`, `start + 1`, and so on, each configured and named as in `Run` with those targets. |
| Generator.SampleFilesDistinct | scripts/sapling_tree_generator.py:309-316 | Files of samples with different seeds differ, and so do the files of two views of one sample. |
| Generator.RunFilesDistinct | scripts/sapling_tree_generator.py:341-375 | No two files written by one run coincide. |
| Renders.FileExtension | scripts/sapling_tree_generator.py:35-38 | `.obj` exactly when exporting and `.png` exactly otherwise. Either is a '.' and three characters without '.' or '/'. |
| Renders.RenderPath | scripts/sapling_tree_generator.py:309 | The image path, then '_' (seed and angle follow), then the extension. |
| Renders.ExportPath | scripts/sapling_tree_generator.py:316 | The image path, then '_' (the seed follows), then the extension. |
| Renders.RenderPathInjective | scripts/sapling_tree_generator.py:309 | Two views share a file name only if they have the same seed and the same angle. |
| Renders.ExportPathInjective | scripts/sapling_tree_generator.py:316 | Two exports share a file name only if they have the same seed. |
| Renders.OutputPrefix | scripts/sapling_tree_generator.py:416-418 | Without a non-empty `--filename` the prefix is exactly the model's file name. With one it is that name, then '_', then the model's file name, and nothing else: it starts with the name and '_', ends with the file name, and its length is the sum of the three. |
| Renders.ImagePath | scripts/sapling_tree_generator.py:425 | The image path is the render directory joined with the prefix: the prefix itself when absolute, otherwise the directory, a '/' when needed, and the prefix. It keeps the prefix's base name. |
| Renders.ExistingOutputProbe | scripts/utils.py:37 | The glob prefix `file_exists` uses is the render directory, then the prefix, with no separator. |
| Renders.ExistingOutputProbeMissesRender | scripts/sapling_tree_generator.py:421-425 | With render directory `out` and prefix `tree`, the file `out/tree_0_0.png` the run writes does not match the probe `outtree*`. |
| Renders.ExistingOutputProbeMisses | scripts/utils.py:37 | Whenever the render directory is non-empty and does not end in '/', and the prefix is non-empty and does not start with '/', no rendered view the run writes matches the probe. |
| Renders.OutputProbe | scripts/utils.py:37 | The intended probe is the image path itself. It agrees with the written probe when the directory is empty or ends in '/'. |
| Renders.OutputsMatchProbe | scripts/sapling_tree_generator.py:421-425 | Every render and export file of a run matches the intended probe. |
| Renders.DriverProbeIsIntended | scripts/sample_generation.py:166 | With the driver's normalised output directory, the written probe is the intended one. |
| Renders.ChooseAngles | scripts/sapling_tree_generator.py:294-295 | Exactly `views` distinct angles in [0, 360), using 359 draws. More than 360 views fail before drawing and a negative count fails. A full sweep is a permutation of 0..359. |
| Renders.ChooseAnglesPrefix | scripts/sapling_tree_generator.py:294 | Fewer views from the same draws see the first angles of the full sweep. |
| Shuffling.ShuffleDown | scripts/file_utils.py:145 | The shuffle loop keeps the length and the multiset and preserves distinctness. It uses one draw per step. |
| Shuffling.Shuffle | scripts/file_utils.py:145 | `np.random.shuffle` is a permutation of its input using n - 1 draws. |
| Shuffling.GatherShuffleDown | scripts/file_utils.py:144-146 | Shuffling indices and then indexing equals shuffling the items with the same draws. |
| Planner.OutputDirectory | scripts/sample_generation.py:166 | The normalised output directory ends in '/' or is empty and extends the given path by at most that '/'. It is `os.path.join(p, '')`. |
| Planner.JobArgumentsDefault | scripts/sample_generation.py:66-74 | The last element is the output path, the one before it is `--`, and no earlier element is `--`. |
| Planner.JobArgumentsModel | scripts/sample_generation.py:55-63 | A copy of the input followed by exactly the model, `-o`, `-size` with the size, and `-views` with the count. |
| Planner.JobArgumentsChunk | scripts/sample_generation.py:40-52 | A copy of the input followed by the chunk options. It ends with `-E` exactly when exporting. |
| Planner.ChunkRoundTrip | scripts/sample_generation.py:40-52 | The renderer reads back exactly the total, size, seed and export flag the planner wrote. |
| Planner.Clock | scripts/sample_generation.py:21-25 | Negative input clamps to zero. Otherwise hours * 3600 + minutes * 60 + seconds equals the input, with minutes and seconds below 60. |
| Planner.ClockUnique | scripts/sample_generation.py:24-25 | Any split into hours, minutes below 60 and seconds below 60 that adds up to the input is the one computed. |
| Planner.HumanReadableTimeRoundTrip | scripts/sample_generation.py:26 | The `%dh %2dm %2ds` text reads back as the hours, minutes and seconds it was printed from. |
| Planner.TruncDivIsQuotient | scripts/sample_generation.py:93 | `int(num / chunk)` is the floor quotient for non-negative counts. |
| Planner.ModelChunksForm | scripts/sample_generation.py:93-101 | A model's plan is `num // chunk` full chunks, then the remainder when positive. |
| Planner.ModelChunksCount | scripts/sample_generation.py:93-101 | The number of chunks is `num // chunk`, plus one exactly when the remainder is positive. Every size lies in (0, chunk], and chunk `k` starts at `k * chunk`. |
| Planner.ModelChunksContiguous | scripts/sample_generation.py:96-101 | Chunks lie back to back from seed 0. |
| Planner.ModelChunksSum | scripts/sample_generation.py:96-101 | The chunk sizes add up to the sample count. |
| Planner.ModelChunksCover | scripts/sample_generation.py:96-101 | Every seed below the sample count lies in exactly one chunk. |
| Planner.ModelChunksWithinTotal | scripts/sample_generation.py:96-101 | No chunk reaches past the sample count. |
| Planner.ModelJobs | scripts/sample_generation.py:90-101 | One job per chunk, in order. Each carries the model, the chunk's seed and size, the export flag, and `--total-samples` equal to the sample count. Its argument list is the model's arguments followed by chunk options that read back as the job's chunk. |
| Planner.ModelJobsSeedsIncrease | scripts/sample_generation.py:96-101 | Within a model a later job starts where an earlier one has ended or later. |
| Planner.PlanJobsGrouped | scripts/sample_generation.py:87-103 | Jobs are grouped model by model in the given order: job `i * L + k` is the `k`-th job of model `i`. |
| Planner.CreateModelJobs | scripts/sample_generation.py:90-101 | The inner loop builds exactly the model's planned jobs. |
| Planner.CreateJobList | scripts/sample_generation.py:87-103 | The outer loop builds exactly the planned job list. |
| Decimal.StrRoundTrip | scripts/sample_generation.py:43-47 | `int()` reads back what `str()` printed. |
| Decimal.StrInjective | scripts/sapling_tree_generator.py:309 | Distinct integers print differently. |
| FileUtils.NextBatch | scripts/file_utils.py:109-116 | Only full batches: `len // size` of them, and none when the size is 0 or less. Batch `b` is the `b`-th run of `size` names, and the batches laid end to end are the prefix they cover. |
| FileUtils.FlattenBatches | scripts/file_utils.py:112-116 | Consecutive runs laid end to end give the covered prefix in order. |
| FileUtils.CeilSqrt | scripts/file_utils.py:132 | The grid side N satisfies (N - 1)^2 < n <= N^2 for n >= 1, and is 0 for n = 0. |
| FileUtils.CeilSqrtUnique | scripts/file_utils.py:132 | No other side satisfies those bounds. |
| FileUtils.GridCell | scripts/file_utils.py:137-138 | Cell (i, j) holds image `i * N + j` exactly when that index is below n, and keeps the fill value otherwise. |
| FileUtils.PreviewGrid | scripts/file_utils.py:133-138 | The grid is N by N with every cell laid out as above. |
| FileUtils.PreviewGridPlacesEvery | scripts/file_utils.py:135-138 | Every image index below n appears, at row `x / N` and column `x % N`. |
| FileUtils.PreviewGridUnique | scripts/file_utils.py:135-138 | A cell holding image `x` is that one position, so no image appears twice. |
| FileUtils.ShuffleList | scripts/file_utils.py:143-146 | Indexing the list with shuffled positions equals shuffling the list itself. It is a permutation of the list. |
| FileUtils.ZipEntryName | scripts/file_utils.py:67-70 | The entry is the directory, '/', and the file's base name. |
| FileUtils.ZipEntryCollision | scripts/file_utils.py:70 | Two files share a zip entry exactly when their base names agree. |
| FileUtils.ImageDataset | scripts/file_utils.py:94-95 | The dataset carries the format tag, and its name is the image's file name without extension. |
| FileUtils.RenderDatasetName | scripts/file_utils.py:81-95 | A rendered view is stored as `<base name of the image path>_<seed>_<angle>`. |
| FileUtils.RenderDatasetsDistinct | scripts/file_utils.py:94 | Distinct views of a run get distinct dataset names, so `create_dataset` never meets an existing name. |
| FileUtils.Binarise | scripts/file_utils.py:179-183 | 255 becomes 0 and anything below becomes 1. Larger values are untouched because both masks are taken before either is applied. |
| FileUtils.BinariseByte | scripts/file_utils.py:180-183 | On 8-bit pixels the result is 0 or 1, and 0 exactly for white. |
| FileUtils.BinariseImage | scripts/file_utils.py:178-184 | Pixel by pixel. An 8-bit image becomes binary. |
| FileUtils.FuelSplit | scripts/file_utils.py:197-204 | Train, test and valid are [0, tr), [tr, tr + te) and [tr + te, n), with tr = 8n // 10 and te = n // 10. For n >= 0 they are ordered. |
| FileUtils.SplitSizes | scripts/file_utils.py:197-198 | `int(0.8 * n)` and `int(0.1 * n)` are the floor divisions, and their sum does not exceed n. |
| FileUtils.FuelSplitCovers | scripts/file_utils.py:200-204 | Every sample index lies in exactly one of the three ranges. |
| FileUtils.FuelPath | scripts/file_utils.py:174-186 | The converted file lies in the same directory as the original, and its base name is `fuel_` followed by the original's. |

## Left out

- Blender scene work (`bpy`) is left out, because it is foreign calls and floating-point geometry:
  - scene clearing, materials, lamps, camera placement;
  - `rotate_object`, whose rotations accumulate from view to view;
  - rendering and the `.obj` export call.

  Only the file names those calls receive are modelled.
- Process handling is left out: `run_subprocess` (process start, wall-clock timing) and the remaining-time estimate from the mean of float durations.
- File effects are left out, because they are I/O; the names and lists passed to them are modelled. They are:
  - h5py, `ZipFile`, `ndimage.imread`;
  - the `glob`, `os.remove` and `os.makedirs` calls;
  - `load_image_batch`, `load_dataset_list`;
  - `new_file`'s `.h5`/`.zip` suffixes.
- `glimpse`, `test_fuel_convert`, `test_save_images`, `test` and the matplotlib preview are left out, because they are interactive display with hard-coded paths.
- `TreeConfig.variation`, `random_variation` and `simple_random` are left out, because their numerics rest on NaN and infinity handling. So `Generator.Generate` starts from the model as it stands after line 331 of `scripts/sapling_tree_generator.py`.
- `np.random.seed(0)` is left out, because the generator itself cannot be verified. The draws are explicit inputs instead.
- The argument-parsing `main` functions, model-directory discovery and `ast.literal_eval` are left out. The parsed dictionary is an input of `TreeModel.ReadTreeModel`.
- Float rounding is left out, because Python floats are modelled as exact reals. This affects:
  - the complexity blend;
  - `0.8 * n` and `0.1 * n`;
  - `int(num / chunk)` on counts above 2^53;
  - `math.ceil(np.sqrt(n))` on very large batches.
- Glob semantics are modelled only as "the fixed part, then anything without '/'". The hidden-file rule and metacharacters inside the path are not modelled.
- Pixel copying into the preview canvas is left out. So is the canvas shape `N*H x N*H`, which is right only for square images. The model gives the grid layout of image indices.
- `scripts/tree_parameters.py` is a commented parameter listing, not code.
- Planner.CreateModelJobs: requires a non-zero chunk size. The program would raise `ZeroDivisionError`, and its only chunk size is 500.
- Planner.ModelJobs: requires a non-zero chunk size, for the same reason.
- Planner.PlanJobs: requires a non-zero chunk size only when some model is given. With no models the program returns an empty list for any chunk size, and so does the model.
- Planner.CreateJobList: the same requirement as `Planner.PlanJobs`.
- Planner.HumanReadableTimeRoundTrip: covers whole seconds only. The program passes a float estimate, which `%d` truncates.
- Generator.Generate: the model is the one after `read_tree_model`, `tree_model_defaults` and `random_variation`. The first two are `TreeModel.ReadTreeModel` and `Generator.TreeModelDefaults`.

## Findings

| source | as written | input that shows it | evidently intended | confidence | as-written member | corrected member |
|---|---|---|---|---|---|---|
| scripts/utils.py:37 | `file_exists` globs `path + filename + '*'`, concatenating the render directory and the prefix without a separator, while the run writes into `os.path.join(path, filename)` (scripts/sapling_tree_generator.py:425) | render path `out`, prefix `tree`: the run writes `out/tree_0_0.png`, the probe is `outtree*`, so an earlier run is not detected and its files are overwritten without `-o` | probe the joined image path, `out/tree*` | not executed; the driver adds a trailing '/' to its output path (scripts/sample_generation.py:166), so only direct invocations of the renderer script are affected | Renders.ExistingOutputProbeMisses, Renders.ExistingOutputProbeMissesRender | Renders.OutputsMatchProbe |
