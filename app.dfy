/**
 * The application state behind the `generate_mosaic` command
 * (src-tauri/src/main.rs:13-28, 90-127): one library slot, reloaded only
 * when it is empty or was built for another directory, tile size or sigma
 * divisor, and then asked for a mosaic.
 */
module App {
  import opened Wrappers
  import opened Errors
  import opened Imaging
  import opened Geometry
  import opened Oracles
  import opened Tiles

  /** `MosaicParams` (main.rs:22-28). */
  datatype MosaicParams = MosaicParams(
    targetImagePath: string,
    tileDirectory: string,
    tileSize: nat,
    penaltyFactor: real,
    sigmaDivisor: real)

  /** `AppState` (main.rs:15-17): the shared, lazily built tile library. */
  class AppState {
    var library: Option<TileLibrary>

    /** `AppState::default()`: no library yet. */
    constructor ()
      ensures library == None
    {
      library := None;
    }

    /** The tiles of the library in the slot, if any. */
    function SlotTiles(): seq<Tile>
      reads this
    {
      if library.Some? then library.value.tiles else []
    }

    /** The slot holds a well-formed library whose caches hold only what the loader yields. */
    ghost predicate Sound(platform: Platform)
      reads this, SlotTiles()
    {
      library.Some? ==>
        && library.value.Valid()
        && forall t :: t in library.value.tiles ==> t.CacheSound(platform)
    }

    /** main.rs:98-105: reload when the slot is empty or its library was built for other settings. */
    predicate NeedsReload(params: MosaicParams)
      reads this
    {
      library.None? || !library.value.MatchesConfig(params.tileDirectory, params.tileSize, params.sigmaDivisor)
    }

    /**
     * `generate_mosaic` (main.rs:92-127). A reload that finds no tile image
     * fails the command and leaves the slot as it was; a successful one
     * replaces the library. A library that matches is reused with its
     * caches. The mosaic is then the one the library in the slot plans for
     * the target, and it is produced exactly when the target and every
     * chosen tile load; otherwise the error is the target's, or that of the
     * first chosen tile that does not load.
     */
    method GenerateMosaic(params: MosaicParams, platform: Platform) returns (r: Result<Mosaic, AppError>)
      requires platform.Valid() && params.tileSize > 0 && Sound(platform)
      modifies this, SlotTiles()
      ensures Sound(platform)
      ensures !old(NeedsReload(params)) ==> library == old(library)
      ensures var paths := LibraryPaths(platform, params.tileDirectory, params.tileSize);
        && (old(NeedsReload(params)) && paths == [] ==>
              && r == Failure(Config(NoImagesMessage)) && library == old(library)
              && forall t :: t in old(SlotTiles()) ==> t.imageCache == old(t.imageCache))
        && (old(NeedsReload(params)) && paths != [] ==>
              && library.Some? && fresh(library.value)
              && |library.value.tiles| == |paths|
              && library.value.mask == LibraryMask(params.tileSize, params.sigmaDivisor, platform.exp)
              && forall i :: 0 <= i < |paths| ==>
                   TileFor(library.value.tiles[i], paths[i], params.tileSize, library.value.mask, platform))
      ensures old(NeedsReload(params)) ==> LibraryPaths(platform, params.tileDirectory, params.tileSize) != [] ==>
        Served(params, platform, r)
      ensures !old(NeedsReload(params)) ==> Served(params, platform, r)
    {
      var err := Refresh(params, platform);
      if err.Some? {
        return Failure(err.value);
      }
      var lib := library.value;
      assert forall t :: t in lib.tiles ==> t in old(SlotTiles()) || fresh(t);
      r := Serve(lib, params, platform);
    }

    /** main.rs:116-126: the library in the slot, built for `params`, generates the mosaic. */
    method Serve(lib: TileLibrary, params: MosaicParams, platform: Platform) returns (r: Result<Mosaic, AppError>)
      requires platform.Valid() && params.tileSize > 0 && Sound(platform) && library == Some(lib)
      requires lib.MatchesConfig(params.tileDirectory, params.tileSize, params.sigmaDivisor)
      modifies set t | t in lib.tiles
      ensures Sound(platform) && library == old(library)
      ensures Served(params, platform, r)
    {
      forall i | 0 <= i < |lib.tiles|
        ensures Fetchable(lib.tiles[i], platform) <==> platform.loadResized(lib.tiles[i].path, lib.tileSize).Success?
      {
        assert lib.tiles[i] in lib.tiles;
      }
      r := lib.GenerateMosaic(params.targetImagePath, MosaicConfig(params.penaltyFactor), platform);
    }

    /**
     * The slot handling of `generate_mosaic` (main.rs:96-114): a library
     * for `params` is in the slot afterwards, so the next call with the same
     * settings reuses it, unless a needed reload found no tile image, which
     * is reported and leaves the slot as it was.
     */
    method Refresh(params: MosaicParams, platform: Platform) returns (err: Option<AppError>)
      requires platform.Valid() && params.tileSize > 0 && Sound(platform)
      modifies this
      ensures Sound(platform)
      ensures !old(NeedsReload(params)) ==> library == old(library) && err.None?
      ensures err.None? <==> !NeedsReload(params)
      ensures var paths := LibraryPaths(platform, params.tileDirectory, params.tileSize);
        && (old(NeedsReload(params)) && paths == [] ==>
              err == Some(Config(NoImagesMessage)) && library == old(library))
        && (old(NeedsReload(params)) && paths != [] ==>
              && err.None? && library.Some? && fresh(library.value)
              && library.value.MatchesConfig(params.tileDirectory, params.tileSize, params.sigmaDivisor)
              && |library.value.tiles| == |paths|
              && library.value.mask == LibraryMask(params.tileSize, params.sigmaDivisor, platform.exp)
              && (forall i :: 0 <= i < |paths| ==>
                    && library.value.tiles[i].imageCache == None
                    && TileFor(library.value.tiles[i], paths[i], params.tileSize, library.value.mask, platform))
              && forall t :: t in library.value.tiles ==> fresh(t))
    {
      var needsReload := library.None? || !library.value.MatchesConfig(params.tileDirectory, params.tileSize, params.sigmaDivisor);
      if needsReload {
        var loaded := TileLibrary.New(params.tileDirectory, params.tileSize, params.sigmaDivisor, platform);
        if loaded.Failure? {
          return Some(loaded.error);
        }
        library := Some(loaded.value);
      }
      return None;
    }

    /**
     * The slot holds a library built for `params`, and `r` is its mosaic
     * of the target: the loader's error for a target that does not load,
     * otherwise success exactly when every chosen tile loads, and on
     * failure the wrapped error of the first chosen tile that does not.
     */
    ghost predicate Served(params: MosaicParams, platform: Platform, r: Result<Mosaic, AppError>)
      reads this
      requires platform.Valid()
    {
      && library.Some? && library.value.Valid()
      && library.value.MatchesConfig(params.tileDirectory, params.tileSize, params.sigmaDivisor)
      && var lib := library.value;
      && var load := platform.load(params.targetImagePath);
      && (load.Failure? ==> r == Failure(load.error))
      && (load.Success? ==>
            var cells := lib.PlannedCells(load.value, params.penaltyFactor, platform);
            && (r.Success? <==> forall i :: 0 <= i < |cells| ==>
                  platform.loadResized(lib.tiles[cells[i]].path, lib.tileSize).Success?)
            && (r.Success? ==>
                  r.value.cells == cells && r.value.width == load.value.width && r.value.height == load.value.height)
            && (r.Failure? ==> exists i :: (0 <= i < |cells|
                  && (forall j :: 0 <= j < i ==> platform.loadResized(lib.tiles[cells[j]].path, lib.tileSize).Success?)
                  && platform.loadResized(lib.tiles[cells[i]].path, lib.tileSize).Failure?
                  && r.error == TileLoadError(lib.tiles[cells[i]].path,
                                              platform.loadResized(lib.tiles[cells[i]].path, lib.tileSize).error))))
    }
  }
}
