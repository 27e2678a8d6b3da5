/**
 * `get_adaptive_settings` (src-tauri/src/main.rs:32-88): a tile size and a
 * repetition penalty suggested from the target image's size and the number
 * of supported files under the tile directory. The source computes in
 * `f64`; the model computes on exact reals.
 */
module Advisor {
  import opened Wrappers
  import opened Errors
  import opened Imaging
  import opened Selection
  import opened Paths
  import opened Oracles
  import Tiles

  const TargetTilesPerDimension: nat := 100
  const MinTileSize: nat := 8
  const MaxTileSize: nat := 128
  const DefaultPenalty: real := 50.0

  /** What the frontend receives: the JSON object of main.rs:81-87. */
  datatype Settings = Settings(tileSize: nat, penaltyFactor: int, tileCount: nat, imageWidth: nat, imageHeight: nat)

  /** `f64::round`: the nearest integer, halves rounded away from zero. */
  function RoundHalfAway(x: real): (r: int)
    ensures x >= 0.0 ==> r as real - 0.5 <= x < r as real + 0.5
    ensures x < 0.0 ==> r as real - 0.5 < x <= r as real + 0.5
  {
    if x >= 0.0 then (x + 0.5).Floor else -((-x + 0.5).Floor)
  }

  /**
   * The suggested tile size (main.rs:39-48): the smaller image dimension over
   * 100, rounded, then clamped to [8, 128]. Inside the clamp it is the
   * integer nearest to a hundredth of the dimension, halves rounded up.
   */
  function AdaptiveTileSize(width: nat, height: nat): (s: nat)
    ensures MinTileSize <= s <= MaxTileSize
    ensures Min(width, height) < 750 ==> s == MinTileSize
    ensures Min(width, height) >= 12850 ==> s == MaxTileSize
    ensures 750 <= Min(width, height) < 12850 ==> s == (Min(width, height) + 50) / 100
  {
    var minDimension := Min(width, height);
    RoundedHundredth(minDimension);
    var suggested := RoundHalfAway(minDimension as real / TargetTilesPerDimension as real);
    Min(Max(suggested as nat, MinTileSize), MaxTileSize)
  }

  /** Rounding a hundredth of a natural number is integer division after adding 50. */
  lemma {:induction false} RoundedHundredth(m: nat)
    ensures RoundHalfAway(m as real / 100.0) == (m + 50) / 100
  {
    var q := (m + 50) / 100;
    var r := RoundHalfAway(m as real / 100.0);
    assert 100 * q <= m + 50 < 100 * q + 100;
    assert (q as real - 0.5) * 100.0 <= m as real < (q as real + 0.5) * 100.0;
    assert r as real - 0.5 <= m as real / 100.0 < r as real + 0.5;
    assert (r as real - 0.5) * 100.0 <= m as real < (r as real + 0.5) * 100.0;
  }

  /** Inside the clamp, 100 tiles of the suggested size cover the smaller dimension to within half a tile's worth. */
  lemma {:induction false} TileSizeNearTarget(width: nat, height: nat)
    requires 750 <= Min(width, height) < 12850
    ensures Min(width, height) - 50 < TargetTilesPerDimension * AdaptiveTileSize(width, height) <= Min(width, height) + 50
  {
    var m := Min(width, height);
    assert AdaptiveTileSize(width, height) == (m + 50) / 100;
  }

  /** A larger image never gets a smaller suggested tile. */
  lemma {:induction false} TileSizeMonotone(w1: nat, h1: nat, w2: nat, h2: nat)
    requires Min(w1, h1) <= Min(w2, h2)
    ensures AdaptiveTileSize(w1, h1) <= AdaptiveTileSize(w2, h2)
  {
    var m1, m2 := Min(w1, h1), Min(w2, h2);
    assert (m1 + 50) / 100 <= (m2 + 50) / 100;
  }

  /**
   * The suggested penalty (main.rs:68-79), before rounding: 50 for an empty
   * directory, else piecewise linear in the file count, rising from 10
   * through 30 (at 50 files) and 70 (at 200 files) to 100 at 1000 files,
   * and constant above.
   */
  function AdaptivePenalty(count: nat): (p: real)
    ensures count == 0 ==> p == DefaultPenalty
    ensures 1 <= count < 50 ==> 10.0 < p < 30.0
    ensures 50 <= count < 200 ==> 30.0 <= p < 70.0
    ensures 200 <= count ==> 70.0 <= p <= 100.0
    ensures 1000 <= count ==> p == 100.0
  {
    if count == 0 then DefaultPenalty
    else if count < 50 then 10.0 + (count as real / 50.0) * 20.0
    else if count < 200 then 30.0 + ((count - 50) as real / 150.0) * 40.0
    else 70.0 + ((Min(count, 1000) - 200) as real / 800.0) * 30.0
  }

  /** With at least one file, more files never lower the penalty: the pieces meet at 50 and 200 files. */
  lemma {:induction false} PenaltyMonotone(c1: nat, c2: nat)
    requires 1 <= c1 <= c2
    ensures AdaptivePenalty(c1) <= AdaptivePenalty(c2)
  {
    if c1 < 50 && c2 < 50 {
      assert c1 as real / 50.0 <= c2 as real / 50.0;
    } else if 50 <= c1 < 200 && 50 <= c2 < 200 {
      assert (c1 - 50) as real / 150.0 <= (c2 - 50) as real / 150.0;
    } else if 200 <= c1 {
      assert (Min(c1, 1000) - 200) as real / 800.0 <= (Min(c2, 1000) - 200) as real / 800.0;
    }
  }

  /** The penalty the frontend is offered: 50 for an empty directory, otherwise a whole number from 10 to 100. */
  lemma {:induction false} RoundedPenaltyRange(count: nat)
    ensures count == 0 ==> RoundHalfAway(AdaptivePenalty(count)) == 50
    ensures count > 0 ==> 10 <= RoundHalfAway(AdaptivePenalty(count)) <= 100
  {
  }

  /** The number of regular files under the walk whose extension is supported (main.rs:52-64). */
  function CountSupported(entries: seq<Entry>): (n: nat)
    ensures n <= |entries|
  {
    if entries == [] then 0
    else
      var last := entries[|entries| - 1];
      CountSupported(entries[..|entries| - 1]) + (if last.isFile && IsSupported(last.path) then 1 else 0)
  }

  /**
   * The count never exceeds what it would count had every file decoded:
   * a library built from the same directory holds at most that many tiles,
   * and exactly that many when every supported file decodes.
   */
  lemma {:induction false} CountBoundsLibrary(entries: seq<Entry>, size: nat, platform: Platform)
    ensures |Tiles.Surviving(Tiles.FilePaths(entries), size, platform)| <= CountSupported(entries)
    ensures (forall i :: 0 <= i < |entries| && entries[i].isFile && IsSupported(entries[i].path) ==>
               platform.loadResized(entries[i].path, size).Success?)
            ==> |Tiles.Surviving(Tiles.FilePaths(entries), size, platform)| == CountSupported(entries)
  {
    if entries != [] {
      var init := entries[..|entries| - 1];
      var last := entries[|entries| - 1];
      CountBoundsLibrary(init, size, platform);
      var paths := Tiles.FilePaths(entries);
      if last.isFile {
        assert paths == Tiles.FilePaths(init) + [last.path];
        assert paths[..|paths| - 1] == Tiles.FilePaths(init);
      } else {
        assert paths == Tiles.FilePaths(init);
      }
    }
  }

  /**
   * `get_adaptive_settings`: a target that fails to load fails the command
   * with the loader's error; otherwise the settings combine the image's
   * size, the suggested tile size and the rounded suggested penalty.
   */
  function GetAdaptiveSettings(targetPath: string, tileDirectory: string, platform: Platform): (r: Result<Settings, AppError>)
    ensures platform.load(targetPath).Failure? ==> r == Failure(platform.load(targetPath).error)
    ensures platform.load(targetPath).Success? ==>
      && r.Success?
      && r.value.imageWidth == platform.load(targetPath).value.width
      && r.value.imageHeight == platform.load(targetPath).value.height
      && r.value.tileSize == AdaptiveTileSize(platform.load(targetPath).value.width, platform.load(targetPath).value.height)
      && MinTileSize <= r.value.tileSize <= MaxTileSize
      && r.value.tileCount == CountSupported(platform.walk(tileDirectory))
      && r.value.penaltyFactor == RoundHalfAway(AdaptivePenalty(r.value.tileCount))
      && (r.value.tileCount == 0 ==> r.value.penaltyFactor == 50)
      && (r.value.tileCount > 0 ==> 10 <= r.value.penaltyFactor <= 100)
  {
    var img :- platform.load(targetPath);
    var count := CountSupported(platform.walk(tileDirectory));
    RoundedPenaltyRange(count);
    Success(Settings(AdaptiveTileSize(img.width, img.height), RoundHalfAway(AdaptivePenalty(count)),
                     count, img.width, img.height))
  }
}
