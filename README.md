# Photo-mosaic engine, modelled in Dafny

This project models the core of a photo-mosaic generator, a desktop
application with a Rust back end. The model covers these parts:

- **Tile library.** A directory of images is walked. Files with a `jpg`,
  `jpeg` or `png` extension (any letter case) that decode become tiles. Each
  tile is resized to `tile_size` x `tile_size` and summarised by an average
  colour weighted with a Gaussian mask centred on the tile.
- **Mosaic generation.** The target image is padded up to whole tiles and
  cut into cells in row-major order. Each cell gets a tile. The colour index
  returns the `k` nearest tiles. Each is scored by colour distance plus a
  penalty for how often it has already been used. The first candidate with
  the least score wins. Chosen tiles are loaded through a per-tile image
  cache, and the canvas is cropped back to the target's size.
- **Adaptive settings.** A tile size and a penalty are suggested from the
  target's size and the number of supported files in the tile directory.
- **Library slot.** The application keeps one library. It reloads it only
  when the slot is empty or the request asks for another directory, tile
  size or sigma divisor.

Modules, in dependency order:

- `Wrappers`: `Option` and `Result`.
- `Errors`: the application's error enum.
- `Imaging`: pixels, row-major images, square views, colours as reals.
- `Geometry`: padding, cell origins, crop.
- `Mask`: `GaussianMask::new` and `avg_rgb_with_mask`.
- `Selection`: adaptive `k`, the scan of `find_best_tile`, usage counters.
- `Paths`: the extension filter.
- `Oracles`: the platform functions the engine calls.
- `Tiles`: `Tile` and `TileLibrary` as classes.
- `Advisor`: `get_adaptive_settings`.
- `App`: the application state and its `generate_mosaic` command.

Code outside the core is passed in as function-valued fields of
`Oracles.Platform`. This covers the directory walk, image decoding and
resizing, `exp` and the KD-tree's `nearest_n`. `Platform.Valid` lists what
the engine relies on from them, and the model assumes these facts:

- Decoded images are well formed.
- Resized images have the requested size.
- `exp` is positive.
- A query for `k` neighbours, with `1 <= k <=` the number of points, returns
  exactly `k` answers, each naming a point.

Floating-point values (`f64`) are modelled as exact reals. `f64::MAX` is
written out exactly.

## Model

| member | source | states |
|---|---|---|
| Imaging.Region | src-tauri/src/lib.rs:288 | The view `img.view(x, y, size, size)` holds `size * size` pixels. Its pixel at column `col` of row `row` is the image's pixel at column `x + col` of row `y + row`. |
| Imaging.RegionLocal | src-tauri/src/lib.rs:288 | Two images that agree on the square give the same view of it. |
| Geometry.PaddedExtentBounds | src-tauri/src/lib.rs:258-264 | The padded extent is a multiple of the tile size, at least the original and less than one tile more; it equals the original exactly when the original is already a multiple (the case where no resize happens). |
| Geometry.StepByMultiples | src-tauri/src/lib.rs:273-277 | `(0..n*ts).step_by(ts)` yields exactly `0, ts, 2ts, ...`, `n` values. |
| Geometry.GridCoordsShape | src-tauri/src/lib.rs:273-280 | The coordinate list has `cols * rows` entries; entry `k` is column `k % cols` of row `k / cols` (y outer, x inner); every origin is a multiple of the tile size; every cell lies inside the padded image. |
| Geometry.GridCoordsRowMajor | src-tauri/src/lib.rs:273-280 | Origins are strictly increasing in row-major order, so no cell is listed twice. |
| Geometry.EveryPixelInExactlyOneCell | src-tauri/src/lib.rs:300-309 | Every pixel of the cropped output lies in exactly one cell, the one `CellIndex` names. |
| Geometry.CropRestoresTargetSize | src-tauri/src/lib.rs:309 | Cropping the padded canvas to the target's width and height gives exactly those dimensions. |
| Mask.NewMask | src-tauri/src/lib.rs:60-91 | The nested loops push one weight per pixel, rows outer, so the weights equal `MaskWeights` (`size * size` of them) and `total_weight` is their sum. |
| Mask.UniformMask | src-tauri/src/lib.rs:66-82 | With `sigma_divisor <= 0` every weight is 1 and the total is `size * size`. |
| Mask.PositiveMask | src-tauri/src/lib.rs:66-86 | With a positive `exp` every weight is positive, and a non-empty mask has positive total, so the division in the average is defined. |
| Mask.MaskCentredOnCell | src-tauri/src/lib.rs:64-79 | The weight is symmetric about the cell's centre (size/2, size/2): mirroring a column, mirroring a row or swapping the two leaves it unchanged. |
| Mask.AvgRgbWithMask | src-tauri/src/lib.rs:158-174 | The accumulation loop returns, per channel, the sum of pixel times weight divided by the mask's total (`MaskedAverage`). |
| Mask.UniformAverageIsMean | src-tauri/src/lib.rs:158-174 | With `sigma_divisor <= 0` the masked average of a full cell is the plain per-channel mean. |
| Mask.AverageInRange | src-tauri/src/lib.rs:158-174 | For a mask of positive weights whose total is their sum, each channel of the average of a full cell lies in [0, 255]. |
| Selection.AdaptiveK | src-tauri/src/lib.rs:340-344 | `k >= 1`; for a non-empty library `k <= min(len, 100)`; `k == len` for `len <= 10`; `k == 10` for `10 <= len <= 100`; `k == len / 10` for `100 <= len <= 1000`; `k == 100` for `len >= 1000`. |
| Selection.Score | src-tauri/src/lib.rs:357-360 | An unused tile scores exactly its colour distance. With a non-negative penalty, a score is never below the distance. |
| Selection.ReusePenalised | src-tauri/src/lib.rs:357-360 | With a positive penalty, the same neighbour scores strictly worse when its tile has been used more often. |
| Selection.Pick | src-tauri/src/lib.rs:353-366 | For a non-empty library the kept index is a valid tile index, whether or not any candidate replaced the start pair `(0, f64::MAX)`. |
| Selection.PickSnoc | src-tauri/src/lib.rs:362-365 | One more neighbour scanned replaces the kept pair only when its score is strictly smaller. |
| Selection.Scan | src-tauri/src/lib.rs:353-368 | The loop over the neighbours returns `BestTile` of that list under the current counters. |
| Selection.PickIsFirstMinimum | src-tauri/src/lib.rs:353-366 | The kept score is at most every candidate's score and at most `f64::MAX`. If it is below `f64::MAX`, the kept tile is the candidate at the first position with that score. Otherwise no candidate replaced the start value and the result is 0. |
| Selection.BestTileIsCandidate | src-tauri/src/lib.rs:353-368 | For a non-empty list with scores below `f64::MAX`, the result is the item of a listed candidate whose score is minimal and strictly below every earlier one's (ties go to the earliest). |
| Selection.TallyAppend | src-tauri/src/lib.rs:292 | One more choice of tile `x` increments exactly counter `x`. |
| Selection.Record | src-tauri/src/lib.rs:292 | Incrementing the counter of the chosen tile in place leaves the array equal to the tally of the choices including it. |
| Selection.TallySum | src-tauri/src/lib.rs:284-295 | After `m` choices of valid tiles the counters sum to `m`. |
| Selection.Assign | src-tauri/src/lib.rs:284-295 | One choice per cell, each a valid tile index. |
| Selection.AssignStep | src-tauri/src/lib.rs:285-294 | Cell `i` gets the scan's pick from its own neighbours under the counters of cells `0..i`: each choice depends on earlier ones exactly through the counters. |
| Selection.UsageSumsToCells | src-tauri/src/lib.rs:284-295 | After all cells, the counters sum to the number of cells. |
| Selection.EveryChoiceIsACandidate | src-tauri/src/lib.rs:285-294 | When a cell has neighbours and scores cannot reach `f64::MAX`, its tile is one of its own neighbours. That neighbour has minimal penalised score and comes before any other with the same score. |
| Paths.SupportedFile | src-tauri/src/lib.rs:225-226 | A file `dir/stem.ext` with a non-empty stem is kept exactly when `ext`, lowercased, is `jpg`, `jpeg` or `png`. |
| Paths.UpperCaseKept | src-tauri/src/lib.rs:225 | `stem.JPG` is kept: the comparison is on the lowercased extension. |
| Paths.InnerExtensionIgnored | src-tauri/src/lib.rs:225 | `stem.jpg.gz` is dropped: only the text after the last dot counts. |
| Paths.NoExtensionNotSupported | src-tauri/src/lib.rs:225 | A file name without a dot, or whose only dot leads it, is never kept. |
| Paths.SupportedSuffix | src-tauri/src/lib.rs:225-226 | Every path `IsSupported` keeps ends with a dot followed by `jpg`, `jpeg` or `png` in some mix of letter cases. The same filter counts files at src-tauri/src/main.rs:57-58. |
| Tiles.Tile.constructor | src-tauri/src/lib.rs:125-132 | A new tile has the given path, colour and size, and an empty cache. |
| Tiles.TileLoadErrorText | src-tauri/src/lib.rs:141-147 | A tile that fails to load gives an `Image` error. Its message starts with "Failed to load tile " and the tile's path, and ends with the loader's own error text. |
| Tiles.Tile.GetImage | src-tauri/src/lib.rs:135-151 | A cached image is returned without loading and the cache is unchanged. Otherwise the result is the load's result, with a failure wrapped as "Failed to load tile ...". A successful load fills the cache and a failed one leaves it empty. A cache that held only loader output still does, and the result equals an uncached load. |
| Tiles.FilePaths | src-tauri/src/lib.rs:215-220 | A path is listed exactly when some walk entry is a regular file with that path; no more paths than entries. |
| Tiles.Surviving | src-tauri/src/lib.rs:222-236 | Every kept path passes the extension filter and decodes; at most as many as the input. |
| Tiles.SurvivingExactly | src-tauri/src/lib.rs:222-236 | A path is kept exactly when it is one of the input paths, has a supported extension and its resized image loads: the `filter_map` drops nothing else. |
| Tiles.MeasureTile | src-tauri/src/lib.rs:224-232 | A colour is produced exactly when the extension is supported and the resized image loads; it is the masked average of that image. |
| Tiles.MeasureTiles | src-tauri/src/lib.rs:222-236 | The kept paths are `Surviving` of the input, in order, each paired with its masked-average colour. |
| Tiles.NewTiles | src-tauri/src/lib.rs:234 | One fresh, uncached `Tile` per kept path with its colour and the library's size, all distinct objects. |
| Tiles.LoadLibrary | src-tauri/src/lib.rs:213-239 | One fresh, distinct, uncached tile per surviving path, in walk order, each with the masked-average colour of its resized image. |
| Tiles.TileLibrary.New | src-tauri/src/lib.rs:188-210 | Fails with `Config("No valid images found in directory")` exactly when no file survives. Otherwise the new library is valid and matches (dir, size, sigma). It holds one fresh, distinct, uncached tile per surviving file in walk order. Index `i` of the colour points is tile `i`'s colour. |
| Tiles.TileLibrary.constructor | src-tauri/src/lib.rs:202-209 | The new library holds exactly the given tiles, colour points, directory, tile size, sigma divisor and mask. |
| Tiles.TileLibrary.SigmaInKey | src-tauri/src/lib.rs:244-246 | For the same directory and size, a library matches at most one sigma divisor, so a request with another sigma needs a reload. |
| Tiles.TileLibrary.Candidates | src-tauri/src/lib.rs:340-350 | The colour index is asked for `AdaptiveK(len)` neighbours and every answer names a tile. |
| Tiles.TileLibrary.FindBestTile | src-tauri/src/lib.rs:333-369 | Returns `BestTile` of the `k` nearest neighbours under the current counters, a valid tile index. |
| Tiles.TileLibrary.CellCandidates | src-tauri/src/lib.rs:287-291 | One neighbour list per cell, each naming only tiles of the library. |
| Tiles.TileLibrary.CellColorLocal | src-tauri/src/lib.rs:288-289 | `CellColor`, the masked average of a cell's view, depends only on the target's pixels inside that cell. |
| Tiles.TileLibrary.MatchCell | src-tauri/src/lib.rs:287-291 | A cell's tile is `BestTile` of the neighbours of the masked average of its view. |
| Tiles.TileLibrary.MatchCells | src-tauri/src/lib.rs:284-295 | The matches are `Assign` of the cells' neighbour lists: one valid index per cell. The counters start at zero, end as the tally of the matches, and sum to the number of cells. |
| Tiles.TileLibrary.FetchChosen | src-tauri/src/lib.rs:299-306 | Succeeds exactly when every chosen tile was fetchable. A failure carries the wrapped error of the first chosen tile that was not. On success every chosen tile is cached. Caches that were filled stay as they were, and sound caches stay sound. Loading is lazy: a tile whose cache changes is one chosen for some cell. |
| Tiles.TileLibrary.PaddedTarget | src-tauri/src/lib.rs:258-270 | The padded target is well formed at the padded size; it is the target itself when no padding is needed. |
| Tiles.TileLibrary.GridInside | src-tauri/src/lib.rs:288 | Every cell's view lies inside the padded target, and there are `cols * rows` cells. |
| Tiles.TileLibrary.PlannedCells | src-tauri/src/lib.rs:254-295 | One valid tile index per cell of the padded grid. |
| Tiles.TileLibrary.Plan | src-tauri/src/lib.rs:254-295 | The padding, coordinate and matching code computes `PlannedCells`. |
| Tiles.TileLibrary.GenerateMosaic | src-tauri/src/lib.rs:249-328 | A target that fails to load returns the loader's error and leaves every cache unchanged. Otherwise it succeeds exactly when every planned tile was fetchable. On failure the error is the wrapped load error of the first planned tile that was not fetchable. The result has the target's width and height, the cell counts and the planned tiles in row-major order. Chosen tiles end up cached. Loading is lazy: a tile whose cache changes is one chosen for some cell. |
| Advisor.RoundHalfAway | src-tauri/src/main.rs:45 | The result is the nearest integer, with halves rounded away from zero. |
| Advisor.RoundedHundredth | src-tauri/src/main.rs:45 | `round(m / 100)` equals `(m + 50) / 100` for every natural `m`. |
| Advisor.AdaptiveTileSize | src-tauri/src/main.rs:39-48 | Always in [8, 128]. It is 8 below 750 px and 128 from 12850 px. In between it is `(min(w, h) + 50) / 100`, i.e. `round(min(w, h) / 100)`. |
| Advisor.TileSizeNearTarget | src-tauri/src/main.rs:42-48 | Inside the clamp, 100 tiles of the suggested size span the smaller dimension to within 50 pixels. |
| Advisor.TileSizeMonotone | src-tauri/src/main.rs:39-48 | A larger smaller-dimension never gives a smaller tile. |
| Advisor.AdaptivePenalty | src-tauri/src/main.rs:68-79 | It is 50 for no files. It lies in (10, 30) for 1..49 files, [30, 70) for 50..199 and [70, 100] from 200. It is exactly 100 from 1000. |
| Advisor.PenaltyMonotone | src-tauri/src/main.rs:66-79 | For one file or more, more files never lower the penalty. |
| Advisor.RoundedPenaltyRange | src-tauri/src/main.rs:83 | The rounded penalty is 50 for an empty directory and a whole number in [10, 100] otherwise. |
| Advisor.CountSupported | src-tauri/src/main.rs:52-64 | The count of regular files with a supported extension never exceeds the number of entries. |
| Advisor.CountBoundsLibrary | src-tauri/src/main.rs:52-64 | A library built from the same walk has at most `tile_count` tiles, and exactly that many when every supported file decodes. |
| Advisor.GetAdaptiveSettings | src-tauri/src/main.rs:32-88 | A target that fails to load gives the loader's error. Otherwise the settings carry the image's width and height, the count, the adaptive tile size (in [8, 128]) and the rounded adaptive penalty (50 with no files, else in [10, 100]). |
| App.AppState.constructor | src-tauri/src/main.rs:14-17 | The slot starts empty. |
| App.AppState.Refresh | src-tauri/src/main.rs:96-114 | With no reload needed, the slot is unchanged and no error is reported. No error is reported exactly when, afterwards, `NeedsReload` is false, so the next call with the same settings reuses the library. A needed reload that finds no tile reports `Config("No valid images found in directory")` and leaves the slot unchanged. A successful reload fills the slot with a fresh library that matches (dir, size, sigma) and holds one tile per surviving file in walk order. Its mask is the library mask for (size, sigma), each tile carries its path, the size and the masked-average colour of its resized image, and every cache is empty. Reload is needed exactly when the slot is empty or its library fails `matches_config` (src-tauri/src/lib.rs:244-246). |
| App.AppState.GenerateMosaic | src-tauri/src/main.rs:92-127 | It has the slot effects of `Refresh`; a reloaded library has the library mask for (size, sigma) and one tile per surviving file with its path, size and masked-average colour. Whenever a library is available, the result is that library's mosaic of the target: the loader's error for a target that fails to load; otherwise success exactly when every planned tile loads, with the planned tiles and the target's size, and on failure the wrapped load error of the first planned tile that does not load. A reload that finds no tile leaves the caches of the old library's tiles unchanged. Cache soundness is preserved. |
| App.AppState.Serve | src-tauri/src/main.rs:116-126 | The library in the slot, built for the request's settings, answers with the mosaic `Served` describes, and the slot and cache soundness are kept. |

## Left out

- Image decoding, EXIF orientation, Lanczos `resize_to_fill` / `resize_exact`, `to_rgba8`, PNG encoding and the base64 data URL (src-tauri/src/lib.rs:17-41, 262-270, 311-327): these are library calls. They are `Platform` functions, and the mosaic is returned as the grid of chosen tile indices with its size.
- Pixel compositing with `imageops::overlay` (src-tauri/src/lib.rs:305): a library call. Only the fetch of each chosen tile's image, with its error and cache effects, is modelled.
- KD-tree internals (src-tauri/src/lib.rs:200, 348-350): `nearest_n` is the `nearest` oracle. Only the count of answers and their indices are assumed, not that they are the nearest.
- Floating point: `f64` arithmetic, NaN and rounding are modelled as exact reals, and `exp` is an oracle assumed positive. `RoundHalfAway` on the penalty may differ from `f64::round` where the float result of the division lands beside a half.
- `WalkDir` traversal, the rayon parallel loading, the tokio `RwLock` and Tauri command registration (src-tauri/src/lib.rs:213-238, src-tauri/src/main.rs:96, 130-137): plumbing. The walk is a function from a directory to its readable entries, in walk order. The parallel `filter_map(...).collect()` keeps that order, which the model keeps. The filesystem is assumed not to change between calls.
- `u32` and `usize` overflow (`size * size`, `orig_w + tile_size - 1`, `as u32` casts): integers are unbounded.
- A tile size of 0: the source then divides by zero in `generate_mosaic` (src-tauri/src/lib.rs:258). `TileLibrary.New` and the `App` methods require a positive size.
- Paths are Unix paths: `/` is the only separator `FileName` knows. On Windows `Path::file_name` also splits at `\` and after a drive prefix such as `C:`, so there `C:\tiles\.png` has no extension and is dropped, while the model, reading the whole path as one file name, keeps it.
- `Path` equality in `matches_config` compares path components; the model compares the directory strings.
- `to_lowercase` is modelled on ASCII letters only. The only non-ASCII character that lowercases to an ASCII letter is the Kelvin sign, which lowercases to `k`, and `k` does not occur in `jpg`, `jpeg` or `png`.
- The `ok_or_else` error "Library failed to initialize" (src-tauri/src/main.rs:116-118) cannot occur: after the reload step the slot always holds a library. The model has no such branch.
- `MosaicConfig` carries only `penalty_factor` (src-tauri/src/lib.rs:105-108). The struct literal at src-tauri/src/main.rs:120-124 names two fields the struct does not declare; the model follows the struct.
- `src-tauri/src/errors.rs` is not part of this model beyond the error enum and its display prefixes.
- Tiles.TileLibrary.FindBestTile: the `NonZeroUsize::new(k).unwrap()` panic cannot happen because `k >= 1` (`AdaptiveK`), so no panic path is modelled.
- Tiles.TileLibrary.GenerateMosaic: an error from PNG encoding (src-tauri/src/lib.rs:322) is not modelled, because encoding is a library call.
