/**
 * The tile-selection policy of the engine: how many neighbours to ask the
 * colour index for, how a candidate is scored, which candidate the scan in
 * `find_best_tile` keeps (src-tauri/src/lib.rs:330-369), and the usage
 * counters threaded through the cells in row-major order (lib.rs:282-295).
 */
module Selection {

  const PenaltyMultiplier: real := 50.0
  const KdTreeKMin: nat := 10
  const KdTreeKMax: nat := 100
  const KdTreeKDivisor: nat := 10

  /** `f64::MAX`, which is 2^1024 - 2^971, written out exactly. */
  const F64Max: real := 179769313486231570814527423731704356798070567525844996598917476803157260780028538760589558632766878171540458953514382464234321326889464182768467546703537516986049910576551282076245490090389328944075868508455133942304583236903222948165808559332123348274797826204144723168738177180919299881250404026184124858368.0

  /** One answer of the colour index: a tile index and its squared colour distance. */
  datatype Neighbor = Neighbor(item: nat, distance: real)

  function Min(a: nat, b: nat): nat {
    if a <= b then a else b
  }

  function Max(a: nat, b: nat): nat {
    if a >= b then a else b
  }

  /**
   * The adaptive neighbour count `k` (src-tauri/src/lib.rs:340-344):
   * `len / 10` clamped to [10, 100], then to the library size, then to at least 1.
   */
  function AdaptiveK(len: nat): (k: nat)
    ensures 1 <= k
    ensures len >= 1 ==> k <= len && k <= KdTreeKMax
    ensures 1 <= len <= KdTreeKMin ==> k == len
    ensures KdTreeKMin <= len <= KdTreeKMax ==> k == KdTreeKMin
    ensures KdTreeKMax <= len <= 1000 ==> k == len / KdTreeKDivisor
    ensures len >= 1000 ==> k == KdTreeKMax
  {
    Max(Min(Min(Max(len / KdTreeKDivisor, KdTreeKMin), KdTreeKMax), len), 1)
  }

  /** Every neighbour names a tile below `bound`. */
  predicate ItemsIn(ns: seq<Neighbor>, bound: nat) {
    forall i :: 0 <= i < |ns| ==> ns[i].item < bound
  }

  /**
   * `color_dist + usage_counts[idx] * penalty * PENALTY_MULTIPLIER` (lib.rs:357-360):
   * an unused tile scores its colour distance, and with a non-negative
   * penalty every earlier use only adds to it.
   */
  function Score(n: Neighbor, usage: seq<nat>, penalty: real): (s: real)
    requires n.item < |usage|
    ensures usage[n.item] == 0 ==> s == n.distance
    ensures penalty >= 0.0 ==> s >= n.distance
  {
    n.distance + (usage[n.item] as real) * penalty * PenaltyMultiplier
  }

  /**
   * The `(best_idx, min_score)` pair the scan of `find_best_tile` holds after
   * visiting `ns`, starting from `(0, f64::MAX)` and replacing only on a
   * strictly smaller score (src-tauri/src/lib.rs:353-366).
   */
  function Pick(ns: seq<Neighbor>, usage: seq<nat>, penalty: real): (best: (nat, real))
    requires ItemsIn(ns, |usage|)
    ensures |usage| > 0 ==> best.0 < |usage|
  {
    if ns == [] then (0, F64Max)
    else
      var last := ns[|ns| - 1];
      var (idx, minScore) := Pick(ns[..|ns| - 1], usage, penalty);
      var score := Score(last, usage, penalty);
      if score < minScore then (last.item, score) else (idx, minScore)
  }

  /**
   * The scan of `find_best_tile` (src-tauri/src/lib.rs:353-368) over the
   * neighbours the index returned, against the current usage counters.
   */
  method Scan(nearest: seq<Neighbor>, usage: array<nat>, penalty: real) returns (best: nat)
    requires ItemsIn(nearest, usage.Length)
    ensures best == BestTile(nearest, usage[..], penalty)
  {
    var bestIdx, minScore := 0, F64Max;
    for i := 0 to |nearest|
      invariant (bestIdx, minScore) == Pick(nearest[..i], usage[..], penalty)
    {
      PickSnoc(nearest, usage[..], penalty, i);
      var neighbor := nearest[i];
      var totalScore := neighbor.distance + (usage[neighbor.item] as real) * penalty * PenaltyMultiplier;
      assert totalScore == Score(nearest[i], usage[..], penalty);
      if totalScore < minScore {
        minScore := totalScore;
        bestIdx := neighbor.item;
      }
    }
    assert nearest[..|nearest|] == nearest;
    return bestIdx;
  }

  /** The tile `find_best_tile` returns for the neighbour list `ns`. */
  function BestTile(ns: seq<Neighbor>, usage: seq<nat>, penalty: real): nat
    requires ItemsIn(ns, |usage|)
  {
    Pick(ns, usage, penalty).0
  }

  /**
   * What the scan computes: the kept score is at most every candidate's score
   * and at most f64::MAX; when it is below f64::MAX the kept tile is the
   * candidate at the FIRST position reaching that minimum (ties go to the
   * earlier neighbour), otherwise no candidate was taken and the result is 0.
   */
  lemma {:induction false} PickIsFirstMinimum(ns: seq<Neighbor>, usage: seq<nat>, penalty: real)
    requires ItemsIn(ns, |usage|)
    ensures var (idx, m) := Pick(ns, usage, penalty);
      && m <= F64Max
      && (forall i :: 0 <= i < |ns| ==> m <= Score(ns[i], usage, penalty))
      && (m == F64Max ==> idx == 0)
      && (m < F64Max ==> exists j :: 0 <= j < |ns| && idx == ns[j].item && m == Score(ns[j], usage, penalty)
                                 && forall i :: 0 <= i < j ==> m < Score(ns[i], usage, penalty))
  {
    if ns != [] {
      var init := ns[..|ns| - 1];
      PickIsFirstMinimum(init, usage, penalty);
      var (idx0, m0) := Pick(init, usage, penalty);
      var last := |ns| - 1;
      var score := Score(ns[last], usage, penalty);
      assert forall i :: 0 <= i < last ==> ns[i] == init[i];
      if score < m0 {
        assert forall i :: 0 <= i < last ==> score < Score(ns[i], usage, penalty);
      } else if m0 < F64Max {
        var j :| 0 <= j < |init| && idx0 == init[j].item && m0 == Score(init[j], usage, penalty)
          && forall i :: 0 <= i < j ==> m0 < Score(init[i], usage, penalty);
        assert ns[j] == init[j];
      }
    }
  }

  /**
   * With at least one candidate and every candidate's score below f64::MAX,
   * the chosen tile is one the index returned, at the first position of
   * least score.
   */
  lemma {:induction false} BestTileIsCandidate(ns: seq<Neighbor>, usage: seq<nat>, penalty: real)
    requires ItemsIn(ns, |usage|) && |ns| > 0
    requires forall i :: 0 <= i < |ns| ==> Score(ns[i], usage, penalty) < F64Max
    ensures exists j :: (0 <= j < |ns| && BestTile(ns, usage, penalty) == ns[j].item
                         && (forall i :: 0 <= i < |ns| ==> Score(ns[j], usage, penalty) <= Score(ns[i], usage, penalty))
                         && (forall i :: 0 <= i < j ==> Score(ns[j], usage, penalty) < Score(ns[i], usage, penalty)))
  {
    PickIsFirstMinimum(ns, usage, penalty);
    var (idx, m) := Pick(ns, usage, penalty);
    assert m <= Score(ns[0], usage, penalty);
    var j :| 0 <= j < |ns| && idx == ns[j].item && m == Score(ns[j], usage, penalty)
      && forall i :: 0 <= i < j ==> m < Score(ns[i], usage, penalty);
  }

  /** How many times `t` occurs in `ms`. */
  function Occurrences(ms: seq<nat>, t: nat): nat {
    if ms == [] then 0
    else Occurrences(ms[..|ms| - 1], t) + (if ms[|ms| - 1] == t then 1 else 0)
  }

  /**
   * The usage counters after the choices `ms`: entry `t` is how often tile
   * `t` was chosen. `Tally([], n)` is the all-zero `vec![0usize; n]`.
   */
  function Tally(ms: seq<nat>, n: nat): (counts: seq<nat>)
    ensures |counts| == n
  {
    seq(n, t requires 0 <= t < n => Occurrences(ms, t))
  }

  function Sum(s: seq<nat>): nat {
    if s == [] then 0 else Sum(s[..|s| - 1]) + s[|s| - 1]
  }

  /** Choosing tile `x` once more increments exactly its counter: `usage_counts[best_idx] += 1`. */
  lemma {:induction false} TallyAppend(ms: seq<nat>, x: nat, n: nat)
    requires x < n
    ensures Tally(ms + [x], n) == Tally(ms, n)[x := Tally(ms, n)[x] + 1]
  {
    assert (ms + [x])[..|ms|] == ms;
  }

  /** `usage_counts[best_idx] += 1` (src-tauri/src/lib.rs:293): the counters now tally one more choice of `best`. */
  method Record(counts: array<nat>, ghost chosen: seq<nat>, best: nat)
    requires best < counts.Length && counts[..] == Tally(chosen, counts.Length)
    modifies counts
    ensures counts[..] == Tally(chosen + [best], counts.Length)
  {
    ghost var before := counts[..];
    counts[best] := counts[best] + 1;
    assert counts[..] == before[best := before[best] + 1];
    TallyAppend(chosen, best, counts.Length);
  }

  lemma {:induction false} SumIncrement(s: seq<nat>, x: nat)
    requires x < |s|
    ensures Sum(s[x := s[x] + 1]) == Sum(s) + 1
    decreases |s|
  {
    var s' := s[x := s[x] + 1];
    var n := |s| - 1;
    assert s'[..n] == if x < n then s[..n][x := s[x] + 1] else s[..n];
    if x < n {
      SumIncrement(s[..n], x);
    }
  }

  /** After `m` choices of tiles below `n` the counters sum to `m`. */
  lemma {:induction false} TallySum(ms: seq<nat>, n: nat)
    requires forall i :: 0 <= i < |ms| ==> ms[i] < n
    ensures Sum(Tally(ms, n)) == |ms|
  {
    if ms == [] {
      ZeroSum(Tally(ms, n));
    } else {
      var init, x := ms[..|ms| - 1], ms[|ms| - 1];
      assert ms == init + [x];
      TallySum(init, n);
      TallyAppend(init, x, n);
      SumIncrement(Tally(init, n), x);
    }
  }

  lemma {:induction false} ZeroSum(s: seq<nat>)
    requires forall i :: 0 <= i < |s| ==> s[i] == 0
    ensures Sum(s) == 0
  {
    if s != [] {
      ZeroSum(s[..|s| - 1]);
    }
  }

  /** No counter exceeds the number of choices made. */
  lemma {:induction false} OccurrencesBound(ms: seq<nat>, t: nat)
    ensures Occurrences(ms, t) <= |ms|
  {
    if ms != [] {
      OccurrencesBound(ms[..|ms| - 1], t);
    }
  }

  /** Every neighbour list names tiles below `n`. */
  predicate AllItemsIn(cands: seq<seq<Neighbor>>, n: nat) {
    forall c :: 0 <= c < |cands| ==> ItemsIn(cands[c], n)
  }

  /**
   * The choices of `generate_mosaic` for cells whose neighbour lists are
   * `cands`, in row-major order: cell `i` is scored against the counters left
   * by cells `0..i` (src-tauri/src/lib.rs:284-295).
   */
  function Assign(cands: seq<seq<Neighbor>>, n: nat, penalty: real): (ms: seq<nat>)
    requires n > 0 && AllItemsIn(cands, n)
    ensures |ms| == |cands|
    ensures forall i :: 0 <= i < |ms| ==> ms[i] < n
  {
    if cands == [] then []
    else
      var prev := Assign(cands[..|cands| - 1], n, penalty);
      prev + [BestTile(cands[|cands| - 1], Tally(prev, n), penalty)]
  }

  /** Matching one more cell appends its choice, made against the counters so far. */
  lemma {:induction false} AssignSnoc(cands: seq<seq<Neighbor>>, n: nat, penalty: real, i: nat)
    requires n > 0 && AllItemsIn(cands, n) && i < |cands|
    ensures Assign(cands[..i + 1], n, penalty)
         == Assign(cands[..i], n, penalty) + [BestTile(cands[i], Tally(Assign(cands[..i], n, penalty), n), penalty)]
  {
    assert cands[..i + 1][..i] == cands[..i];
  }

  lemma {:induction false} AssignPrefix(cands: seq<seq<Neighbor>>, n: nat, penalty: real, j: nat)
    requires n > 0 && AllItemsIn(cands, n) && j <= |cands|
    ensures Assign(cands[..j], n, penalty) == Assign(cands, n, penalty)[..j]
    decreases |cands|
  {
    if j < |cands| {
      var init := cands[..|cands| - 1];
      assert init[..j] == cands[..j];
      AssignPrefix(init, n, penalty, j);
    } else {
      assert cands[..j] == cands;
    }
  }

  /**
   * Cell `i` gets the tile the scan picks from its own neighbour list, scored
   * against the counters of the choices made for cells `0..i`: the selection
   * depends on earlier choices exactly through those counters.
   */
  lemma {:induction false} AssignStep(cands: seq<seq<Neighbor>>, n: nat, penalty: real, i: nat)
    requires n > 0 && AllItemsIn(cands, n) && i < |cands|
    ensures var ms := Assign(cands, n, penalty);
      ms[i] == BestTile(cands[i], Tally(ms[..i], n), penalty)
  {
    var ms := Assign(cands, n, penalty);
    AssignPrefix(cands, n, penalty, i + 1);
    AssignPrefix(cands, n, penalty, i);
    var pre := cands[..i + 1];
    assert pre[..|pre| - 1] == cands[..i];
    assert ms[..i + 1][..i] == ms[..i];
  }

  /** After all cells are processed the usage counters sum to the number of cells. */
  lemma {:induction false} UsageSumsToCells(cands: seq<seq<Neighbor>>, n: nat, penalty: real)
    requires n > 0 && AllItemsIn(cands, n)
    ensures Sum(Tally(Assign(cands, n, penalty), n)) == |cands|
  {
    TallySum(Assign(cands, n, penalty), n);
  }

  /**
   * Candidate scores stay below f64::MAX whatever the counters, as long as no
   * counter exceeds `cells`.
   */
  ghost predicate ScoresFinite(cands: seq<seq<Neighbor>>, penalty: real) {
    var bound := (|cands| as real) * (if penalty >= 0.0 then penalty else -penalty) * PenaltyMultiplier;
    forall c, j :: 0 <= c < |cands| && 0 <= j < |cands[c]| ==> cands[c][j].distance + bound < F64Max
  }

  lemma {:induction false} ScoreBelow(nb: Neighbor, usage: seq<nat>, penalty: real, cells: nat)
    requires nb.item < |usage| && usage[nb.item] <= cells
    requires nb.distance + (cells as real) * (if penalty >= 0.0 then penalty else -penalty) * PenaltyMultiplier < F64Max
    ensures Score(nb, usage, penalty) < F64Max
  {
    var u := usage[nb.item] as real;
    if penalty >= 0.0 {
      assert (cells as real - u) * penalty >= 0.0;
    } else {
      assert u * (-penalty) >= 0.0;
    }
  }

  /**
   * Selection never picks a tile the index did not surface: when every cell
   * has at least one neighbour and scores cannot reach f64::MAX, each cell's
   * tile is one of its own neighbours, the first of least penalised score.
   */
  lemma {:induction false} EveryChoiceIsACandidate(cands: seq<seq<Neighbor>>, n: nat, penalty: real, i: nat)
    requires n > 0 && AllItemsIn(cands, n) && i < |cands|
    requires |cands[i]| > 0 && ScoresFinite(cands, penalty)
    ensures var ms := Assign(cands, n, penalty);
      var usage := Tally(ms[..i], n);
      exists j :: 0 <= j < |cands[i]| && ms[i] == cands[i][j].item
        && (forall l :: 0 <= l < |cands[i]| ==> Score(cands[i][j], usage, penalty) <= Score(cands[i][l], usage, penalty))
        && (forall l :: 0 <= l < j ==> Score(cands[i][j], usage, penalty) < Score(cands[i][l], usage, penalty))
  {
    var ms := Assign(cands, n, penalty);
    var usage := Tally(ms[..i], n);
    AssignStep(cands, n, penalty, i);
    TallyBound(ms[..i], n);
    ScoresFiniteUnder(cands, penalty, i, usage);
    BestTileIsCandidate(cands[i], usage, penalty);
  }

  /** No counter exceeds the number of choices made. */
  lemma {:induction false} TallyBound(ms: seq<nat>, n: nat)
    ensures forall t :: 0 <= t < n ==> Tally(ms, n)[t] <= |ms|
  {
    forall t | 0 <= t < n
      ensures Tally(ms, n)[t] <= |ms|
    {
      OccurrencesBound(ms, t);
    }
  }

  /** Under counters no larger than the number of cells, every score of cell `i` is below f64::MAX. */
  lemma {:induction false} ScoresFiniteUnder(cands: seq<seq<Neighbor>>, penalty: real, i: nat, usage: seq<nat>)
    requires i < |cands| && ItemsIn(cands[i], |usage|) && ScoresFinite(cands, penalty)
    requires forall t :: 0 <= t < |usage| ==> usage[t] <= |cands|
    ensures forall l :: 0 <= l < |cands[i]| ==> Score(cands[i][l], usage, penalty) < F64Max
  {
    forall l | 0 <= l < |cands[i]|
      ensures Score(cands[i][l], usage, penalty) < F64Max
    {
      ScoreBelow(cands[i][l], usage, penalty, |cands|);
    }
  }

  /** With a positive penalty, a tile used more often scores strictly worse at the same distance. */
  lemma {:induction false} ReusePenalised(n: Neighbor, fewer: seq<nat>, more: seq<nat>, penalty: real)
    requires n.item < |fewer| && n.item < |more| && fewer[n.item] < more[n.item] && penalty > 0.0
    ensures Score(n, fewer, penalty) < Score(n, more, penalty)
  {
    var d := (more[n.item] - fewer[n.item]) as real;
    var step := d * penalty * PenaltyMultiplier;
    assert (more[n.item] as real) * penalty * PenaltyMultiplier
        == (fewer[n.item] as real) * penalty * PenaltyMultiplier + step;
    assert d * penalty > 0.0;
    assert step > 0.0;
  }

  /** One more neighbour scanned: the pair changes only on a strictly smaller score. */
  lemma {:induction false} PickSnoc(ns: seq<Neighbor>, usage: seq<nat>, penalty: real, i: nat)
    requires ItemsIn(ns, |usage|) && i < |ns|
    ensures var prev := Pick(ns[..i], usage, penalty);
      var score := Score(ns[i], usage, penalty);
      Pick(ns[..i + 1], usage, penalty) == if score < prev.1 then (ns[i].item, score) else prev
  {
    assert ns[..i + 1][..i] == ns[..i];
  }
}
