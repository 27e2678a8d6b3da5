/**
 * Grid geometry of `generate_mosaic` (src-tauri/src/lib.rs:257-280, 309): the
 * target is padded up to whole tiles, cut into tile-sized cells listed row by
 * row, and the finished canvas is cropped back to the target's size.
 */
module Geometry {

  lemma {:induction false} MulStrictMonotone(a: nat, b: nat, d: nat)
    requires a < b && d > 0
    ensures a * d + d <= b * d
  {
    var e := b - a - 1;
    assert e * d >= 0;
    assert b * d == (a + 1 + e) * d == a * d + d + e * d;
  }

  lemma {:induction false} UniqueQuotient(a: nat, ra: nat, b: nat, rb: nat, d: nat)
    requires d > 0 && ra < d && rb < d && a * d + ra == b * d + rb
    ensures a == b && ra == rb
  {
    if a < b {
      MulStrictMonotone(a, b, d);
    } else if b < a {
      MulStrictMonotone(b, a, d);
    }
  }

  /** Euclidean division is determined by any quotient/remainder pair. */
  lemma {:induction false} DivModUnique(n: nat, d: nat, q: nat, r: nat)
    requires d > 0 && r < d && n == q * d + r
    ensures n / d == q && n % d == r
  {
    var q0, r0 := n / d, n % d;
    assert n == q0 * d + r0;
    UniqueQuotient(q0, r0, q, r, d);
  }

  /** `ceil(orig / ts)`: how many cells cover `orig` pixels. */
  function CellCount(orig: nat, ts: nat): nat
    requires ts > 0
  {
    (orig + ts - 1) / ts
  }

  /** `((orig + ts - 1) / ts) * ts` (src-tauri/src/lib.rs:258-259). */
  function PaddedExtent(orig: nat, ts: nat): nat
    requires ts > 0
  {
    CellCount(orig, ts) * ts
  }

  /**
   * The padded extent is the least multiple of the tile size that is at
   * least the original extent; it is the original extent exactly when that is
   * already a multiple, which is when the source skips the resize (lib.rs:262).
   */
  lemma {:induction false} PaddedExtentBounds(orig: nat, ts: nat)
    requires ts > 0
    ensures PaddedExtent(orig, ts) % ts == 0
    ensures orig <= PaddedExtent(orig, ts) < orig + ts
    ensures PaddedExtent(orig, ts) == orig <==> orig % ts == 0
  {
    var n := orig + ts - 1;
    var q, r := n / ts, n % ts;
    var p := PaddedExtent(orig, ts);
    assert p == q * ts;
    DivModUnique(p, ts, q, 0);
    if p == orig {
      DivModUnique(orig, ts, q, 0);
    }
    if orig % ts == 0 {
      var m := orig / ts;
      DivModUnique(n, ts, m, ts - 1);
    }
  }

  /** `(from..to).step_by(step)`: from, from + step, ... while below `to`. */
  function StepBy(from: nat, to: nat, step: nat): seq<nat>
    requires step > 0
    decreases if from < to then to - from else 0
  {
    if from >= to then [] else [from] + StepBy(from + step, to, step)
  }

  lemma {:induction false} StepByMultiples(k: nat, n: nat, step: nat)
    requires step > 0 && k <= n
    ensures |StepBy(k * step, n * step, step)| == n - k
    ensures forall i :: 0 <= i < n - k ==> StepBy(k * step, n * step, step)[i] == (k + i) * step
    decreases n - k
  {
    if k < n {
      MulStrictMonotone(k, n, step);
      assert k * step + step == (k + 1) * step;
      StepByMultiples(k + 1, n, step);
      var s := StepBy(k * step, n * step, step);
      forall i | 0 <= i < n - k
        ensures s[i] == (k + i) * step
      {
        if i > 0 {
          assert s[i] == StepBy((k + 1) * step, n * step, step)[i - 1];
        }
      }
    }
  }

  /** The cell origins of one row: `(x, y)` for each `x` of `xs`. */
  function Row(y: nat, xs: seq<nat>): (r: seq<(nat, nat)>)
    ensures |r| == |xs|
    ensures forall i :: 0 <= i < |xs| ==> r[i] == (xs[i], y)
  {
    seq(|xs|, i requires 0 <= i < |xs| => (xs[i], y))
  }

  /** `ys.flat_map(|y| xs.map(|x| (x, y)))`. */
  function Rows(ys: seq<nat>, xs: seq<nat>): seq<(nat, nat)> {
    if ys == [] then [] else Row(ys[0], xs) + Rows(ys[1..], xs)
  }

  lemma {:induction false} RowsLength(ys: seq<nat>, xs: seq<nat>)
    ensures |Rows(ys, xs)| == |ys| * |xs|
  {
    if ys != [] {
      RowsLength(ys[1..], xs);
      assert |ys| * |xs| == |xs| + (|ys| - 1) * |xs|;
    }
  }

  lemma {:induction false} RowsAt(ys: seq<nat>, xs: seq<nat>, j: nat, i: nat)
    requires j < |ys| && i < |xs|
    ensures j * |xs| + i < |Rows(ys, xs)|
    ensures Rows(ys, xs)[j * |xs| + i] == (xs[i], ys[j])
    decreases j
  {
    RowsLength(ys, xs);
    MulStrictMonotone(j, |ys|, |xs|);
    if j > 0 {
      RowsAt(ys[1..], xs, j - 1, i);
      assert j * |xs| + i == |xs| + ((j - 1) * |xs| + i);
    }
  }

  /** The cell origins of `generate_mosaic` (src-tauri/src/lib.rs:273-280). */
  function Coords(padW: nat, padH: nat, ts: nat): seq<(nat, nat)>
    requires ts > 0
  {
    Rows(StepBy(0, padH, ts), StepBy(0, padW, ts))
  }

  /** The cell origins for a target of `origW` x `origH` pixels. */
  function GridCoords(origW: nat, origH: nat, ts: nat): seq<(nat, nat)>
    requires ts > 0
  {
    Coords(PaddedExtent(origW, ts), PaddedExtent(origH, ts), ts)
  }

  lemma {:induction false} GridCell(cols: nat, rows: nat, ts: nat, xs: seq<nat>, ys: seq<nat>, k: nat)
    requires ts > 0 && k < rows * cols
    requires |xs| == cols && forall i :: 0 <= i < cols ==> xs[i] == i * ts
    requires |ys| == rows && forall j :: 0 <= j < rows ==> ys[j] == j * ts
    ensures k < |Rows(ys, xs)|
    ensures Rows(ys, xs)[k] == ((k % cols) * ts, (k / cols) * ts)
    ensures (k % cols) * ts + ts <= cols * ts && (k / cols) * ts + ts <= rows * ts
  {
    var j, i := k / cols, k % cols;
    assert k == j * cols + i;
    RowsAt(ys, xs, j, i);
    MulStrictMonotone(i, cols, ts);
    MulStrictMonotone(j, rows, ts);
  }

  /**
   * The coordinate list has one entry per cell of the padded grid, cell `k`
   * being column `k % cols` of row `k / cols`: row-major, `y` outer, `x` inner,
   * each origin a multiple of the tile size and the whole cell inside the
   * padded image.
   */
  lemma {:induction false} GridCoordsShape(origW: nat, origH: nat, ts: nat)
    requires ts > 0
    ensures var cols, rows := CellCount(origW, ts), CellCount(origH, ts);
      var c := GridCoords(origW, origH, ts);
      && |c| == cols * rows
      && (forall k :: 0 <= k < |c| ==> c[k] == ((k % cols) * ts, (k / cols) * ts))
      && (forall k :: 0 <= k < |c| ==>
            c[k].0 + ts <= PaddedExtent(origW, ts) && c[k].1 + ts <= PaddedExtent(origH, ts))
  {
    var cols, rows := CellCount(origW, ts), CellCount(origH, ts);
    var xs, ys := StepBy(0, cols * ts, ts), StepBy(0, rows * ts, ts);
    StepByMultiples(0, cols, ts);
    StepByMultiples(0, rows, ts);
    RowsLength(ys, xs);
    var c := GridCoords(origW, origH, ts);
    assert c == Rows(ys, xs);
    forall k | 0 <= k < |c|
      ensures c[k] == ((k % cols) * ts, (k / cols) * ts)
      ensures c[k].0 + ts <= cols * ts && c[k].1 + ts <= rows * ts
    {
      GridCell(cols, rows, ts, xs, ys, k);
    }
  }

  lemma {:induction false} RowMajorOrder(cols: nat, ts: nat, k1: nat, k2: nat)
    requires cols > 0 && ts > 0 && k1 < k2
    ensures (k1 / cols) * ts < (k2 / cols) * ts
         || (k1 / cols == k2 / cols && (k1 % cols) * ts < (k2 % cols) * ts)
  {
    var j1, i1, j2, i2 := k1 / cols, k1 % cols, k2 / cols, k2 % cols;
    assert k1 == j1 * cols + i1 && k2 == j2 * cols + i2;
    if j1 > j2 {
      MulStrictMonotone(j2, j1, cols);
    } else if j1 < j2 {
      MulStrictMonotone(j1, j2, ts);
    } else {
      MulStrictMonotone(i1, i2, ts);
    }
  }

  /**
   * The origins are listed in strictly increasing row-major order, so no cell
   * appears twice.
   */
  lemma {:induction false} GridCoordsRowMajor(origW: nat, origH: nat, ts: nat, k1: nat, k2: nat)
    requires ts > 0
    requires k1 < k2 < |GridCoords(origW, origH, ts)|
    ensures var c := GridCoords(origW, origH, ts);
      c[k1].1 < c[k2].1 || (c[k1].1 == c[k2].1 && c[k1].0 < c[k2].0)
  {
    GridCoordsShape(origW, origH, ts);
    var cols := CellCount(origW, ts);
    assert cols > 0;
    RowMajorOrder(cols, ts, k1, k2);
  }

  /** The row-major index of the cell covering output pixel (px, py). */
  function CellIndex(px: nat, py: nat, cols: nat, ts: nat): nat
    requires ts > 0
  {
    (py / ts) * cols + px / ts
  }

  /** The cell column (or row) of a pixel inside the target lies inside the grid. */
  lemma {:induction false} PixelCell(p: nat, extent: nat, ts: nat)
    requires ts > 0 && p < extent
    ensures p / ts < CellCount(extent, ts)
    ensures (p / ts) * ts <= p < (p / ts) * ts + ts
  {
    PaddedExtentBounds(extent, ts);
    var a := p / ts;
    assert p == a * ts + p % ts;
    if a >= CellCount(extent, ts) {
      MulStrictMonotone(CellCount(extent, ts), a + 1, ts);
    }
  }

  /** Only one multiple of `ts` starts a cell containing `p`. */
  lemma {:induction false} CellStartUnique(p: nat, a: nat, ts: nat)
    requires ts > 0 && a * ts <= p < a * ts + ts
    ensures a == p / ts
  {
    DivModUnique(p, ts, a, p - a * ts);
  }

  /** A cell index determines its column and row. */
  lemma {:induction false} CellIndexSplit(a: nat, b: nat, cols: nat, rows: nat)
    requires a < cols && b < rows
    ensures b * cols + a < cols * rows
    ensures (b * cols + a) % cols == a && (b * cols + a) / cols == b
  {
    DivModUnique(b * cols + a, cols, b, a);
    MulStrictMonotone(b, rows, cols);
  }

  /** The cell holding a pixel is the one at its column and row. */
  lemma {:induction false} CellHoldingPixel(c: seq<(nat, nat)>, cols: nat, ts: nat, px: nat, py: nat, k: nat)
    requires ts > 0 && cols > 0 && k < |c|
    requires c[k] == ((k % cols) * ts, (k / cols) * ts)
    requires c[k].0 <= px < c[k].0 + ts && c[k].1 <= py < c[k].1 + ts
    ensures k == CellIndex(px, py, cols, ts)
  {
    CellStartUnique(px, k % cols, ts);
    CellStartUnique(py, k / cols, ts);
    assert k == (k / cols) * cols + k % cols;
  }

  /**
   * Every pixel of the cropped output lies in exactly one cell of the grid,
   * the one `CellIndex` names: the padded grid covers the target without
   * overlap.
   */
  lemma {:induction false} EveryPixelInExactlyOneCell(origW: nat, origH: nat, ts: nat, px: nat, py: nat)
    requires ts > 0 && px < origW && py < origH
    ensures var c := GridCoords(origW, origH, ts);
      var k := CellIndex(px, py, CellCount(origW, ts), ts);
      && k < |c|
      && c[k].0 <= px < c[k].0 + ts && c[k].1 <= py < c[k].1 + ts
      && forall k' :: 0 <= k' < |c| && c[k'].0 <= px < c[k'].0 + ts && c[k'].1 <= py < c[k'].1 + ts ==> k' == k
  {
    var cols, rows := CellCount(origW, ts), CellCount(origH, ts);
    var c := GridCoords(origW, origH, ts);
    GridCoordsShape(origW, origH, ts);
    PixelCell(px, origW, ts);
    PixelCell(py, origH, ts);
    var k := CellIndex(px, py, cols, ts);
    CellIndexSplit(px / ts, py / ts, cols, rows);
    forall k' | 0 <= k' < |c| && c[k'].0 <= px < c[k'].0 + ts && c[k'].1 <= py < c[k'].1 + ts
      ensures k' == k
    {
      CellHoldingPixel(c, cols, ts, px, py, k');
    }
  }

  /** `crop_imm(canvas, 0, 0, w, h)` keeps `min(w, full)` of a `full`-wide canvas. */
  function CroppedExtent(orig: nat, full: nat): nat {
    if orig <= full then orig else full
  }

  /** Cropping the padded canvas gives back exactly the target's size (lib.rs:309). */
  lemma {:induction false} CropRestoresTargetSize(origW: nat, origH: nat, ts: nat)
    requires ts > 0
    ensures CroppedExtent(origW, PaddedExtent(origW, ts)) == origW
    ensures CroppedExtent(origH, PaddedExtent(origH, ts)) == origH
  {
    PaddedExtentBounds(origW, ts);
    PaddedExtentBounds(origH, ts);
  }
}
