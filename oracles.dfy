/**
 * Everything the engine asks of code outside the core: the directory walk,
 * image decoding and resizing, `exp`, and the KD-tree's nearest-neighbour
 * query. Each is a function value the model is given; `Valid` lists the
 * results the engine relies on, which the model assumes and does not prove.
 */
module Oracles {
  import opened Wrappers
  import opened Errors
  import opened Imaging
  import opened Selection

  /** A `walkdir` entry whose metadata could be read: its path and whether it is a regular file. */
  datatype Entry = Entry(path: string, isFile: bool)

  datatype Platform = Platform(
    /** `WalkDir::new(dir)`, with unreadable entries already dropped by `filter_map(|e| e.ok())`. */
    walk: string -> seq<Entry>,
    /** `load_image_with_orientation` (src-tauri/src/lib.rs:17-33). */
    load: string -> Result<Image, AppError>,
    /** `load_resized_image_with_orientation`: the same, then `resize_to_fill(size, size)`. */
    loadResized: (string, nat) -> Result<Image, AppError>,
    /** `resize_exact(w, h)`. */
    resizeExact: (Image, nat, nat) -> Image,
    /** `f64::exp`. */
    exp: real -> real,
    /** `nearest_n::<SquaredEuclidean>(&color, k)` over an index built from `points`. */
    nearest: (seq<Color>, Color, nat) -> seq<Neighbor>)
  {
    ghost predicate Valid() {
      && (forall p :: load(p).Success? ==> load(p).value.Valid())
      && (forall p, s :: loadResized(p, s).Success? ==>
            var img := loadResized(p, s).value; img.Valid() && img.width == s && img.height == s)
      && (forall img, w, h :: resizeExact(img, w, h).Valid()
            && resizeExact(img, w, h).width == w && resizeExact(img, w, h).height == h)
      && (forall v :: exp(v) > 0.0)
      && (forall points, c, k :: 1 <= k <= |points| ==>
            |nearest(points, c, k)| == k && ItemsIn(nearest(points, c, k), |points|))
    }
  }
}
