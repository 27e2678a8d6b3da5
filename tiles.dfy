/**
 * Tiles and the tile library (src-tauri/src/lib.rs:104-370): loading a
 * directory into tiles with their average colours, the configuration key,
 * the per-tile image cache, and mosaic generation as a grid of chosen tiles.
 */
module Tiles {
  import opened Wrappers
  import opened Errors
  import opened Imaging
  import opened Geometry
  import opened Mask
  import opened Selection
  import opened Paths
  import opened Oracles

  /** `MosaicConfig` (src-tauri/src/lib.rs:105-108). */
  datatype MosaicConfig = MosaicConfig(penaltyFactor: real)

  /**
   * A generated mosaic: the size of the cropped output, the grid it was cut
   * into, and the tile chosen for each cell in row-major order. Pixel
   * compositing and PNG/base64 encoding are not part of the model.
   */
  datatype Mosaic = Mosaic(width: nat, height: nat, tileSize: nat, columns: nat, rows: nat, cells: seq<nat>)

  /**
   * The error `get_image` wraps a failed load in (src-tauri/src/lib.rs:141-147).
   */
  function TileLoadError(path: string, e: AppError): AppError {
    AppError.Image("Failed to load tile " + path + ": " + Describe(e))
  }

  /**
   * A tile that fails to load is reported as an image-processing error whose
   * message names the tile's path and ends with the loader's own message.
   */
  lemma {:induction false} TileLoadErrorText(path: string, e: AppError)
    ensures TileLoadError(path, e).Image?
    ensures var m := TileLoadError(path, e).message;
      && "Failed to load tile " + path <= m
      && |Describe(e)| <= |m| && m[|m| - |Describe(e)|..] == Describe(e)
  {
    var head := "Failed to load tile " + path + ": ";
    var m := head + Describe(e);
    assert m[..|"Failed to load tile " + path|] == "Failed to load tile " + path;
    assert m[|head|..] == Describe(e);
  }

  const NoImagesMessage: string := "No valid images found in directory"

  /** A tile: its source path, its average colour and a lazily filled image cache. */
  class Tile {
    const path: string
    const color: Color
    const tileSize: nat
    var imageCache: Option<Image>

    /** `Tile::new` (src-tauri/src/lib.rs:125-132): nothing is loaded yet. */
    constructor (path: string, color: Color, tileSize: nat)
      ensures this.path == path && this.color == color && this.tileSize == tileSize
      ensures imageCache == None
    {
      this.path := path;
      this.color := color;
      this.tileSize := tileSize;
      imageCache := None;
    }

    /** What an uncached `get_image` would return: the resized image, or the wrapped error. */
    function FreshLoad(platform: Platform): Result<Image, AppError> {
      match platform.loadResized(path, tileSize)
      case Success(img) => Success(img)
      case Failure(e) => Failure(TileLoadError(path, e))
    }

    /** The cache only ever holds what the loader yields for this tile's path and size. */
    ghost predicate CacheSound(platform: Platform)
      reads this
    {
      imageCache.Some? ==> platform.loadResized(path, tileSize) == Success(imageCache.value)
    }

    /**
     * `get_image` (src-tauri/src/lib.rs:135-151): a cached image is returned
     * without loading; otherwise a successful load fills the cache and a
     * failed one leaves it empty. With a sound cache the result is exactly
     * what an uncached load would give.
     */
    method GetImage(platform: Platform) returns (r: Result<Image, AppError>)
      modifies this
      ensures old(imageCache).Some? ==> r == Success(old(imageCache).value) && imageCache == old(imageCache)
      ensures old(imageCache).None? ==> r == FreshLoad(platform)
      ensures old(imageCache).None? ==> imageCache == if r.Success? then Some(r.value) else None
      ensures old(CacheSound(platform)) ==> CacheSound(platform) && r == FreshLoad(platform)
    {
      if imageCache.Some? {
        return Success(imageCache.value);
      }
      var loaded := platform.loadResized(path, tileSize);
      if loaded.Failure? {
        return Failure(TileLoadError(path, loaded.error));
      }
      imageCache := Some(loaded.value);
      return Success(loaded.value);
    }
  }

  /** A tile whose image `get_image` can produce: already cached, or loadable. */
  ghost predicate Fetchable(t: Tile, platform: Platform)
    reads t
  {
    t.imageCache.Some? || platform.loadResized(t.path, t.tileSize).Success?
  }

  /** The regular files of a walk, in walk order (src-tauri/src/lib.rs:215-220). */
  function FilePaths(entries: seq<Entry>): (paths: seq<string>)
    ensures |paths| <= |entries|
    ensures forall p :: p in paths <==> exists e :: e in entries && e.isFile && e.path == p
  {
    if entries == [] then []
    else
      var last := entries[|entries| - 1];
      FilePaths(entries[..|entries| - 1]) + (if last.isFile then [last.path] else [])
  }

  /** A file becomes a tile when its extension is supported and it decodes (src-tauri/src/lib.rs:225-230). */
  predicate Loads(platform: Platform, path: string, size: nat) {
    IsSupported(path) && platform.loadResized(path, size).Success?
  }

  /** The paths that become tiles, in their original order. */
  function Surviving(paths: seq<string>, size: nat, platform: Platform): (kept: seq<string>)
    ensures |kept| <= |paths|
    ensures forall i :: 0 <= i < |kept| ==> Loads(platform, kept[i], size)
  {
    if paths == [] then []
    else
      var last := paths[|paths| - 1];
      Surviving(paths[..|paths| - 1], size, platform) + (if Loads(platform, last, size) then [last] else [])
  }

  /** A path survives exactly when it is one of the input paths and passes the filter and decodes. */
  lemma {:induction false} SurvivingExactly(paths: seq<string>, size: nat, platform: Platform)
    ensures forall p :: p in Surviving(paths, size, platform) <==> p in paths && Loads(platform, p, size)
  {
    if paths != [] {
      SurvivingExactly(paths[..|paths| - 1], size, platform);
      assert paths == paths[..|paths| - 1] + [paths[|paths| - 1]];
    }
  }

  lemma {:induction false} SurvivingStep(paths: seq<string>, n: nat, size: nat, platform: Platform)
    requires n < |paths|
    ensures Surviving(paths[..n + 1], size, platform)
         == Surviving(paths[..n], size, platform) + (if Loads(platform, paths[n], size) then [paths[n]] else [])
  {
    assert paths[..n + 1][..n] == paths[..n];
  }

  /** The tile paths a library built from `dir` holds. */
  function LibraryPaths(platform: Platform, dir: string, size: nat): seq<string> {
    Surviving(FilePaths(platform.walk(dir)), size, platform)
  }

  /** The mask `TileLibrary::new` builds. */
  function LibraryMask(size: nat, sigmaDivisor: real, exp: real -> real): (mask: GaussianMask)
    ensures |mask.weights| == size * size
  {
    GaussianMask(MaskWeights(size, sigmaDivisor, exp), Total(MaskWeights(size, sigmaDivisor, exp)))
  }

  /** Every resized tile image fits under the mask, which has non-zero total weight. */
  ghost predicate MaskFits(platform: Platform, size: nat, mask: GaussianMask) {
    && mask.totalWeight != 0.0
    && forall p :: platform.loadResized(p, size).Success? ==> |platform.loadResized(p, size).value.pixels| <= |mask.weights|
  }

  /** The resized image of `path` exists and the mask covers it. */
  predicate Decodes(platform: Platform, path: string, size: nat, mask: GaussianMask) {
    && platform.loadResized(path, size).Success?
    && |platform.loadResized(path, size).value.pixels| <= |mask.weights|
    && mask.totalWeight != 0.0
  }

  /** The colour of a tile: the masked average of its resized image (src-tauri/src/lib.rs:230-232). */
  function TileColor(platform: Platform, path: string, size: nat, mask: GaussianMask): Color
    requires Decodes(platform, path, size, mask)
  {
    MaskedAverage(platform.loadResized(path, size).value.pixels, mask)
  }

  /** `t` is the tile for `path`: right size, coloured by the masked average of its resized image. */
  predicate TileFor(t: Tile, path: string, size: nat, mask: GaussianMask, platform: Platform) {
    && Decodes(platform, path, size, mask)
    && t.path == path && t.tileSize == size
    && t.color == TileColor(platform, path, size, mask)
  }

  /**
   * The checks of the `filter_map` closure of `load_library`
   * (src-tauri/src/lib.rs:224-235): a colour exactly when the extension is
   * supported and the image decodes.
   */
  method MeasureTile(path: string, size: nat, mask: GaussianMask, platform: Platform) returns (color: Option<Color>)
    requires MaskFits(platform, size, mask)
    ensures color.Some? <==> Loads(platform, path, size)
    ensures color.Some? ==> Decodes(platform, path, size, mask) && color.value == TileColor(platform, path, size, mask)
  {
    if !IsSupported(path) {
      return None;
    }
    var loaded := platform.loadResized(path, size);
    if loaded.Failure? {
      return None;
    }
    var c := AvgRgbWithMask(loaded.value.pixels, mask);
    return Some(c);
  }

  /** The surviving paths of `load_library` with their colours, in the paths' order. */
  method MeasureTiles(paths: seq<string>, size: nat, mask: GaussianMask, platform: Platform)
    returns (kept: seq<string>, colors: seq<Color>)
    requires MaskFits(platform, size, mask)
    ensures kept == Surviving(paths, size, platform) && |colors| == |kept|
    ensures forall i :: 0 <= i < |kept| ==>
      Decodes(platform, kept[i], size, mask) && colors[i] == TileColor(platform, kept[i], size, mask)
  {
    kept, colors := [], [];
    for n := 0 to |paths|
      invariant kept == Surviving(paths[..n], size, platform) && |colors| == |kept|
      invariant forall i :: 0 <= i < |kept| ==>
        Decodes(platform, kept[i], size, mask) && colors[i] == TileColor(platform, kept[i], size, mask)
    {
      SurvivingStep(paths, n, size, platform);
      var color := MeasureTile(paths[n], size, mask, platform);
      if color.Some? {
        kept, colors := kept + [paths[n]], colors + [color.value];
      }
    }
    assert paths[..|paths|] == paths;
  }

  /**
   * `load_library` (src-tauri/src/lib.rs:213-239): one fresh, uncached tile
   * per surviving path, in the paths' order.
   */
  method LoadLibrary(paths: seq<string>, size: nat, mask: GaussianMask, platform: Platform) returns (tiles: seq<Tile>)
    requires MaskFits(platform, size, mask)
    ensures |tiles| == |Surviving(paths, size, platform)| && Distinct(tiles)
    ensures forall i :: 0 <= i < |tiles| ==>
      && fresh(tiles[i]) && tiles[i].imageCache == None
      && TileFor(tiles[i], Surviving(paths, size, platform)[i], size, mask, platform)
  {
    var kept, colors := MeasureTiles(paths, size, mask, platform);
    tiles := NewTiles(kept, colors, size);
  }

  /** No tile object appears twice: the library owns each of its tiles. */
  ghost predicate Distinct(tiles: seq<Tile>) {
    forall i, j :: 0 <= i < j < |tiles| ==> tiles[i] != tiles[j]
  }

  /** `Tile::new` for each surviving path and its colour (src-tauri/src/lib.rs:233). */
  method NewTiles(kept: seq<string>, colors: seq<Color>, size: nat) returns (tiles: seq<Tile>)
    requires |colors| == |kept|
    ensures |tiles| == |kept| && Distinct(tiles)
    ensures forall i :: 0 <= i < |tiles| ==>
      && fresh(tiles[i]) && tiles[i].imageCache == None
      && tiles[i].path == kept[i] && tiles[i].color == colors[i] && tiles[i].tileSize == size
  {
    tiles := [];
    for n := 0 to |kept|
      invariant |tiles| == n && Distinct(tiles)
      invariant forall i :: 0 <= i < n ==>
        && fresh(tiles[i]) && tiles[i].imageCache == None
        && tiles[i].path == kept[i] && tiles[i].color == colors[i] && tiles[i].tileSize == size
    {
      var t := new Tile(kept[n], colors[n], size);
      tiles := tiles + [t];
    }
  }

  /** The tile library (src-tauri/src/lib.rs:177-184), its colour index given by `colorPoints`. */
  class TileLibrary {
    const tiles: seq<Tile>
    const colorPoints: seq<Color>
    const srcDir: string
    const tileSize: nat
    const sigmaDivisor: real
    const mask: GaussianMask

    /**
     * Never empty; index `i` of the colour index is tile `i`; every tile has
     * the library's size; the mask covers one tile and has positive weight.
     */
    ghost predicate Valid() {
      && |tiles| > 0 && tileSize > 0
      && |colorPoints| == |tiles|
      && (forall i :: 0 <= i < |tiles| ==> colorPoints[i] == tiles[i].color && tiles[i].tileSize == tileSize)
      && |mask.weights| == tileSize * tileSize && mask.totalWeight > 0.0
    }

    constructor (tiles: seq<Tile>, colorPoints: seq<Color>, dir: string, size: nat, sigmaDivisor: real, mask: GaussianMask)
      ensures this.tiles == tiles && this.colorPoints == colorPoints && srcDir == dir
      ensures tileSize == size && this.sigmaDivisor == sigmaDivisor && this.mask == mask
    {
      this.tiles := tiles;
      this.colorPoints := colorPoints;
      srcDir := dir;
      tileSize := size;
      this.sigmaDivisor := sigmaDivisor;
      this.mask := mask;
    }

    /**
     * `TileLibrary::new` (src-tauri/src/lib.rs:188-210): fails with a
     * `Config` error exactly when no file survives the extension filter and
     * decoding; otherwise holds one uncached tile per surviving file, in
     * walk order, with the colour index in the same order.
     */
    static method New(dir: string, size: nat, sigmaDivisor: real, platform: Platform) returns (r: Result<TileLibrary, AppError>)
      requires platform.Valid() && size > 0
      ensures var paths := LibraryPaths(platform, dir, size);
        && (r.Failure? <==> paths == [])
        && (r.Failure? ==> r.error == Config(NoImagesMessage))
        && (r.Success? ==>
              var lib := r.value;
              && fresh(lib) && lib.Valid() && lib.MatchesConfig(dir, size, sigmaDivisor)
              && lib.mask == LibraryMask(size, sigmaDivisor, platform.exp)
              && |lib.tiles| == |paths| && Distinct(lib.tiles)
              && forall i :: 0 <= i < |paths| ==>
                   && fresh(lib.tiles[i]) && lib.tiles[i].imageCache == None
                   && TileFor(lib.tiles[i], paths[i], size, lib.mask, platform))
    {
      var mask := NewMask(size, sigmaDivisor, platform.exp);
      PositiveMask(size, sigmaDivisor, platform.exp);
      assert mask == LibraryMask(size, sigmaDivisor, platform.exp) && mask.totalWeight > 0.0;
      assert MaskFits(platform, size, mask) by {
        forall p | platform.loadResized(p, size).Success?
          ensures |platform.loadResized(p, size).value.pixels| <= |mask.weights|
        {
          var img := platform.loadResized(p, size).value;
          assert img.width == size && img.height == size && img.Valid();
        }
      }
      var tiles := LoadLibrary(FilePaths(platform.walk(dir)), size, mask, platform);
      if tiles == [] {
        return Failure(Config(NoImagesMessage));
      }
      var colorPoints := seq(|tiles|, i requires 0 <= i < |tiles| => tiles[i].color);
      var lib := new TileLibrary(tiles, colorPoints, dir, size, sigmaDivisor, mask);
      assert lib.Valid();
      return Success(lib);
    }

    /**
     * `matches_config` (src-tauri/src/lib.rs:244-246): the cache key is
     * (directory, size, sigma divisor).
     */
    predicate MatchesConfig(dir: string, size: nat, sigmaDivisor: real) {
      srcDir == dir && tileSize == size && this.sigmaDivisor == sigmaDivisor
    }

    /**
     * The sigma divisor is part of the key: a library matches at most one
     * sigma for the same directory and size, so a request with another sigma
     * reloads (the `matches_config_includes_sigma_divisor` test).
     */
    lemma SigmaInKey(dir: string, size: nat, sigma1: real, sigma2: real)
      requires sigma1 != sigma2
      ensures !(MatchesConfig(dir, size, sigma1) && MatchesConfig(dir, size, sigma2))
    {
    }

    /** The neighbours the colour index returns for `color` (src-tauri/src/lib.rs:340-350). */
    function Candidates(color: Color, platform: Platform): (ns: seq<Neighbor>)
      requires Valid() && platform.Valid()
      ensures |ns| == AdaptiveK(|tiles|) && ItemsIn(ns, |tiles|)
    {
      platform.nearest(colorPoints, color, AdaptiveK(|tiles|))
    }

    /**
     * `find_best_tile` (src-tauri/src/lib.rs:333-369): asks the index for the
     * adaptive number of neighbours and returns the one the scan keeps.
     */
    method FindBestTile(targetColor: Color, usage: array<nat>, penalty: real, platform: Platform) returns (best: nat)
      requires Valid() && platform.Valid() && usage.Length == |tiles|
      ensures best == BestTile(Candidates(targetColor, platform), usage[..], penalty)
      ensures best < |tiles|
    {
      var k := AdaptiveK(|tiles|);
      var nearest := platform.nearest(colorPoints, targetColor, k);
      best := Scan(nearest, usage, penalty);
    }

    /** The masked average colour of the cell whose origin is `c`. */
    function CellColor(target: Image, c: (nat, nat)): Color
      requires Valid() && target.Valid()
      requires c.0 + tileSize <= target.width && c.1 + tileSize <= target.height
    {
      MaskedAverage(Region(target, c.0, c.1, tileSize), mask)
    }

    /** A cell's colour depends only on the target pixels inside that cell. */
    lemma {:induction false} CellColorLocal(t1: Image, t2: Image, c: (nat, nat))
      requires Valid() && t1.Valid() && t2.Valid()
      requires c.0 + tileSize <= t1.width && c.1 + tileSize <= t1.height
      requires c.0 + tileSize <= t2.width && c.1 + tileSize <= t2.height
      requires forall x: nat, y: nat :: c.0 <= x < c.0 + tileSize && c.1 <= y < c.1 + tileSize ==>
        PixelAt(t1, x, y) == PixelAt(t2, x, y)
      ensures CellColor(t1, c) == CellColor(t2, c)
    {
      RegionLocal(t1, t2, c.0, c.1, tileSize);
    }

    /** Every cell origin lies a whole tile inside `target`. */
    predicate CellsInside(target: Image, coords: seq<(nat, nat)>) {
      forall i :: 0 <= i < |coords| ==> coords[i].0 + tileSize <= target.width && coords[i].1 + tileSize <= target.height
    }

    /** The neighbour list of each cell, in the order of `coords`. */
    function CellCandidates(target: Image, coords: seq<(nat, nat)>, platform: Platform): (cands: seq<seq<Neighbor>>)
      requires Valid() && platform.Valid() && target.Valid() && CellsInside(target, coords)
      ensures |cands| == |coords| && AllItemsIn(cands, |tiles|)
    {
      seq(|coords|, i requires 0 <= i < |coords| => Candidates(CellColor(target, coords[i]), platform))
    }

    /** The per-cell step of the matching pass (src-tauri/src/lib.rs:287-291). */
    method MatchCell(target: Image, c: (nat, nat), usage: array<nat>, penalty: real, platform: Platform) returns (best: nat)
      requires Valid() && platform.Valid() && target.Valid() && usage.Length == |tiles|
      requires c.0 + tileSize <= target.width && c.1 + tileSize <= target.height
      ensures best == BestTile(Candidates(CellColor(target, c), platform), usage[..], penalty)
      ensures best < |tiles|
    {
      var (x, y) := c;
      var region := Region(target, x, y, tileSize);
      var targetColor := AvgRgbWithMask(region, mask);
      best := FindBestTile(targetColor, usage, penalty, platform);
    }

    /**
     * The matching pass of `generate_mosaic` (src-tauri/src/lib.rs:284-295):
     * cells are matched in order against usage counters that start at zero
     * and count each choice once, so after the pass they sum to the number of
     * cells.
     */
    method MatchCells(target: Image, coords: seq<(nat, nat)>, penalty: real, platform: Platform)
      returns (matches: seq<nat>, usage: seq<nat>)
      requires Valid() && platform.Valid() && target.Valid() && CellsInside(target, coords)
      ensures matches == Assign(CellCandidates(target, coords, platform), |tiles|, penalty)
      ensures |matches| == |coords| && forall i :: 0 <= i < |matches| ==> matches[i] < |tiles|
      ensures usage == Tally(matches, |tiles|) && Sum(usage) == |coords|
    {
      var cands := CellCandidates(target, coords, platform);
      var counts := new nat[|tiles|](_ => 0);
      matches := [];
      for i := 0 to |coords|
        invariant matches == Assign(cands[..i], |tiles|, penalty)
        invariant counts[..] == Tally(matches, |tiles|)
      {
        AssignSnoc(cands, |tiles|, penalty, i);
        var best := MatchCell(target, coords[i], counts, penalty, platform);
        Record(counts, matches, best);
        matches := matches + [best];
      }
      assert cands[..|coords|] == cands;
      usage := counts[..];
      UsageSumsToCells(cands, |tiles|, penalty);
    }

    /**
     * The drawing pass of `generate_mosaic` (src-tauri/src/lib.rs:299-306),
     * reduced to what it does to the library: each chosen tile's image is
     * fetched in cell order and the first failure aborts with its error.
     */
    method FetchChosen(matches: seq<nat>, platform: Platform) returns (err: Option<AppError>)
      requires Valid() && forall i :: 0 <= i < |matches| ==> matches[i] < |tiles|
      modifies set t | t in tiles
      ensures err.None? <==> forall i :: 0 <= i < |matches| ==> old(Fetchable(tiles[matches[i]], platform))
      ensures err.Some? ==> exists i :: (0 <= i < |matches|
        && (forall j :: 0 <= j < i ==> old(Fetchable(tiles[matches[j]], platform)))
        && !old(Fetchable(tiles[matches[i]], platform))
        && err.value == TileLoadError(tiles[matches[i]].path, platform.loadResized(tiles[matches[i]].path, tileSize).error))
      ensures err.None? ==> forall i :: 0 <= i < |matches| ==> tiles[matches[i]].imageCache.Some?
      ensures forall t :: t in tiles && old(t.imageCache).Some? ==> t.imageCache == old(t.imageCache)
      ensures forall t :: t in tiles && old(t.CacheSound(platform)) ==> t.CacheSound(platform)
      ensures forall t :: t in tiles && t.imageCache != old(t.imageCache) ==>
        exists i :: 0 <= i < |matches| && t == tiles[matches[i]]
    {
      for i := 0 to |matches|
        invariant forall j :: 0 <= j < i ==> old(Fetchable(tiles[matches[j]], platform)) && tiles[matches[j]].imageCache.Some?
        invariant forall t :: t in tiles && old(t.imageCache).Some? ==> t.imageCache == old(t.imageCache)
        invariant forall t :: t in tiles && old(t.CacheSound(platform)) ==> t.CacheSound(platform)
        invariant forall t :: t in tiles ==> (Fetchable(t, platform) <==> old(Fetchable(t, platform)))
        invariant forall t :: t in tiles && t.imageCache != old(t.imageCache) ==>
          exists j :: 0 <= j < i && t == tiles[matches[j]]
      {
        var tile := tiles[matches[i]];
        var image := tile.GetImage(platform);
        if image.Failure? {
          return Some(image.error);
        }
      }
      return None;
    }

    /** The target as the grid is cut from it: padded by resizing only when not already aligned (src-tauri/src/lib.rs:258-270). */
    function PaddedTarget(img: Image, platform: Platform): (t: Image)
      requires Valid() && platform.Valid() && img.Valid()
      ensures t.Valid() && t.width == PaddedExtent(img.width, tileSize) && t.height == PaddedExtent(img.height, tileSize)
      ensures img.width % tileSize == 0 && img.height % tileSize == 0 ==> t == img
    {
      PaddedExtentBounds(img.width, tileSize);
      PaddedExtentBounds(img.height, tileSize);
      var padW := PaddedExtent(img.width, tileSize);
      var padH := PaddedExtent(img.height, tileSize);
      if padW == img.width && padH == img.height then img else platform.resizeExact(img, padW, padH)
    }

    /** The tile chosen for each cell of `img`'s grid. */
    function PlannedCells(img: Image, penalty: real, platform: Platform): (cells: seq<nat>)
      requires Valid() && platform.Valid() && img.Valid()
      ensures |cells| == CellCount(img.width, tileSize) * CellCount(img.height, tileSize)
      ensures forall i :: 0 <= i < |cells| ==> cells[i] < |tiles|
    {
      var target := PaddedTarget(img, platform);
      GridInside(img, target);
      Assign(CellCandidates(target, GridCoords(img.width, img.height, tileSize), platform), |tiles|, penalty)
    }

    lemma GridInside(img: Image, target: Image)
      requires Valid() && target.width == PaddedExtent(img.width, tileSize) && target.height == PaddedExtent(img.height, tileSize)
      ensures CellsInside(target, GridCoords(img.width, img.height, tileSize))
      ensures |GridCoords(img.width, img.height, tileSize)| == CellCount(img.width, tileSize) * CellCount(img.height, tileSize)
    {
      GridCoordsShape(img.width, img.height, tileSize);
    }

    /**
     * The planning half of `generate_mosaic` (src-tauri/src/lib.rs:254-295):
     * pad the target to whole tiles (resizing only when needed), cut it into
     * cells in row-major order and match every cell.
     */
    method Plan(img: Image, penalty: real, platform: Platform) returns (matches: seq<nat>)
      requires Valid() && platform.Valid() && img.Valid()
      ensures matches == PlannedCells(img, penalty, platform)
    {
      var origW, origH := img.width, img.height;
      var padW := ((origW + tileSize - 1) / tileSize) * tileSize;
      var padH := ((origH + tileSize - 1) / tileSize) * tileSize;
      var target := if padW == origW && padH == origH then img else platform.resizeExact(img, padW, padH);
      assert target == PaddedTarget(img, platform);
      var coords := Coords(padW, padH, tileSize);
      assert coords == GridCoords(origW, origH, tileSize);
      GridInside(img, target);
      var usage;
      matches, usage := MatchCells(target, coords, penalty, platform);
    }

    /**
     * `generate_mosaic` (src-tauri/src/lib.rs:249-328), up to encoding: a
     * target that fails to load is that error; otherwise every cell of the
     * grid gets its planned tile, the chosen tiles are fetched in cell order
     * (the first that cannot be fetched aborts with its error), and the
     * result has the target's own size.
     */
    method GenerateMosaic(targetPath: string, config: MosaicConfig, platform: Platform) returns (r: Result<Mosaic, AppError>)
      requires Valid() && platform.Valid()
      modifies set t | t in tiles
      ensures platform.load(targetPath).Failure? ==> r == Failure(platform.load(targetPath).error)
      ensures platform.load(targetPath).Failure? ==> forall t :: t in tiles ==> t.imageCache == old(t.imageCache)
      ensures platform.load(targetPath).Success? ==>
        var img := platform.load(targetPath).value;
        var cells := PlannedCells(img, config.penaltyFactor, platform);
        && (r.Success? <==> forall i :: 0 <= i < |cells| ==> old(Fetchable(tiles[cells[i]], platform)))
        && (r.Success? ==> r.value == Mosaic(img.width, img.height, tileSize,
                                             CellCount(img.width, tileSize), CellCount(img.height, tileSize), cells))
        && (r.Success? ==> forall i :: 0 <= i < |cells| ==> tiles[cells[i]].imageCache.Some?)
        && (forall t :: t in tiles && t.imageCache != old(t.imageCache) ==>
              exists i :: 0 <= i < |cells| && t == tiles[cells[i]])
        && (r.Failure? ==> exists i :: (0 <= i < |cells|
              && (forall j :: 0 <= j < i ==> old(Fetchable(tiles[cells[j]], platform)))
              && !old(Fetchable(tiles[cells[i]], platform))
              && r.error == TileLoadError(tiles[cells[i]].path, platform.loadResized(tiles[cells[i]].path, tileSize).error)))
      ensures forall t :: t in tiles && old(t.imageCache).Some? ==> t.imageCache == old(t.imageCache)
      ensures forall t :: t in tiles && old(t.CacheSound(platform)) ==> t.CacheSound(platform)
    {
      var loaded := platform.load(targetPath);
      if loaded.Failure? {
        return Failure(loaded.error);
      }
      var img := loaded.value;
      var matches := Plan(img, config.penaltyFactor, platform);
      var err := FetchChosen(matches, platform);
      if err.Some? {
        return Failure(err.value);
      }
      CropRestoresTargetSize(img.width, img.height, tileSize);
      var width := CroppedExtent(img.width, PaddedExtent(img.width, tileSize));
      var height := CroppedExtent(img.height, PaddedExtent(img.height, tileSize));
      return Success(Mosaic(width, height, tileSize, CellCount(img.width, tileSize), CellCount(img.height, tileSize), matches));
    }
  }
}
