/**
 * The index `TileHandler.__init__` of decloud/core/tile_io.py builds over one
 * Sentinel-2 tile: per-image validity and cloud-coverage grids over the patch
 * grid, the closest valid Sentinel-1 image of every Sentinel-2 image at every
 * cell, and one 4-D box tree per cell, queried by `find_s2`.
 *
 * Images are given by their timestamps, in seconds and in the ascending order
 * the source sorts them into, and by their statistics rasters read as 2-D
 * integer arrays. The rtree and the scipy KDTree are given by their query
 * contracts: box intersection, and a nearest point in |dt|.
 */
module TileIndex {
  import opened Wrappers
  import opened Raster

  /** `constants.PATCHSIZE_REF`: the patch size the statistics rasters were computed with. */
  const PatchSizeRef: nat := 64
  /** `max_distance`: 10 * 12 * 31 * 24 * 3600 seconds. */
  const MaxDistance: real := 32140800.0
  const ZeroDivisionError: string := "ZeroDivisionError"
  /** What rtree raises for a box whose minimum exceeds its maximum in some dimension. */
  const RTreeError: string := "RTreeError"

  /** A statistics raster as a 2-D array, by rows. */
  type Stats = seq<seq<int>>

  /** A cloud coverage; None is the NaN `np.mean` gives for an empty footprint. */
  type Coverage = Option<real>

  /** A cell of the patch grid, `(pos_x, pos_y)`. */
  type Pos = (nat, nat)

  /** The Sentinel-1 images of the tile: acquisition times and edge statistics. */
  datatype S1Images = S1Images(times: seq<real>, edgeStats: seq<Stats>)

  /**
   * What the index is built from: the 10 m patch size, the S1 images (None
   * without an S1 directory) and the S2 images' times, edge statistics and
   * cloud statistics.
   */
  datatype TileData = TileData(
    patchSize: nat,
    s1: Option<S1Images>,
    s2Times: seq<real>,
    s2EdgeStats: seq<Stats>,
    s2CloudStats: seq<Stats>)

  /** One list entry per image. */
  predicate WellFormed(d: TileData) {
    |d.s2EdgeStats| == |d.s2Times| && |d.s2CloudStats| == |d.s2Times| &&
    (d.s1.Some? ==> |d.s1.value.edgeStats| == |d.s1.value.times|)
  }

  // ----- for_each_pos -----

  function Column(x: nat, gy: nat): seq<Pos> {
    seq(gy, y requires 0 <= y < gy => (x, y))
  }

  /** The cells in the order `for_each_pos` visits them: `pos_x` outer, `pos_y` inner. */
  function Positions(gx: nat, gy: nat): seq<Pos> {
    if gx == 0 then [] else Positions(gx - 1, gy) + Column(gx - 1, gy)
  }

  /** `a` comes before `b` when the outer loop is on x and the inner one on y. */
  predicate Before(a: Pos, b: Pos) {
    a.0 < b.0 || (a.0 == b.0 && a.1 < b.1)
  }

  /**
   * `for_each_pos` visits every cell of [0, gx) x [0, gy) exactly once, with x
   * in the outer loop and y in the inner loop.
   */
  lemma {:induction false} ForEachPos(gx: nat, gy: nat)
    ensures |Positions(gx, gy)| == gx * gy
    ensures forall p: Pos :: p in Positions(gx, gy) <==> p.0 < gx && p.1 < gy
    ensures forall i, j :: 0 <= i < j < |Positions(gx, gy)| ==> Before(Positions(gx, gy)[i], Positions(gx, gy)[j])
  {
    if gx > 0 {
      ForEachPos(gx - 1, gy);
      var front, col := Positions(gx - 1, gy), Column(gx - 1, gy);
      var ps := front + col;
      assert |ps| == (gx - 1) * gy + gy == gx * gy;
      forall p: Pos
        ensures p in ps <==> p.0 < gx && p.1 < gy
      {
        if p.0 == gx - 1 && p.1 < gy {
          assert col[p.1] == p;
        }
      }
      forall i, j | 0 <= i < j < |ps|
        ensures Before(ps[i], ps[j])
      {
        if j < |front| {
          assert ps[i] == front[i] && ps[j] == front[j];
        } else if i >= |front| {
          assert ps[i] == col[i - |front|] && ps[j] == col[j - |front|];
        } else {
          assert ps[i] == front[i] && front[i] in front;
          assert ps[j] == col[j - |front|];
        }
      }
    }
  }

  // ----- footprint statistics -----

  /** The values of a 2-D array, row by row. */
  function Elements(a: Stats): seq<int> {
    if |a| == 0 then [] else Elements(a[..|a| - 1]) + a[|a| - 1]
  }

  lemma {:induction false} ElementsOf(a: Stats)
    ensures |Elements(a)| == 0 <==> forall i :: 0 <= i < |a| ==> |a[i]| == 0
    ensures forall i, j :: 0 <= i < |a| && 0 <= j < |a[i]| ==> a[i][j] in Elements(a)
    ensures forall v :: v in Elements(a) ==> exists i, j :: 0 <= i < |a| && 0 <= j < |a[i]| && a[i][j] == v
  {
    if |a| > 0 {
      var front, last := a[..|a| - 1], a[|a| - 1];
      ElementsOf(front);
      assert Elements(a) == Elements(front) + last;
      assert forall i :: 0 <= i < |front| ==> front[i] == a[i];
      forall i, j | 0 <= i < |a| && 0 <= j < |a[i]|
        ensures a[i][j] in Elements(a)
      {
        if i < |a| - 1 {
          assert front[i][j] == a[i][j];
        } else {
          assert last[j] == a[i][j];
        }
      }
      forall v | v in Elements(a)
        ensures exists i, j :: 0 <= i < |a| && 0 <= j < |a[i]| && a[i][j] == v
      {
        if v in Elements(front) {
          var i, j :| 0 <= i < |front| && 0 <= j < |front[i]| && front[i][j] == v;
          assert a[i][j] == v;
        } else {
          assert v in last;
          var j :| 0 <= j < |last| && last[j] == v;
          assert a[|a| - 1][j] == v;
        }
      }
    }
  }

  /** `np.amax` of a non-empty array. */
  function MaxOf(e: seq<int>): (r: int)
    requires |e| > 0
    ensures r in e && forall v :: v in e ==> v <= r
  {
    if |e| == 1 then e[0]
    else
      var m := MaxOf(e[1..]);
      assert e == [e[0]] + e[1..];
      if e[0] >= m then e[0] else m
  }

  /** `np.amin` of a non-empty array. */
  function MinOf(e: seq<int>): (r: int)
    requires |e| > 0
    ensures r in e && forall v :: v in e ==> r <= v
  {
    if |e| == 1 then e[0]
    else
      var m := MinOf(e[1..]);
      assert e == [e[0]] + e[1..];
      if e[0] <= m then e[0] else m
  }

  /**
   * `_reject_no_data`: 1 where the largest edge statistic of the footprint is
   * 0, else 0; None where `np.amax` raises on an empty footprint.
   */
  function Validity(sub: Stats): Option<int> {
    var e := Elements(sub);
    if |e| == 0 then None else Some(if MaxOf(e) == 0 then 1 else 0)
  }

  /**
   * A footprint is valid exactly when it holds a 0 and nothing above 0; it
   * has no validity exactly when it is empty.
   */
  lemma ValidityMeaning(sub: Stats)
    ensures Validity(sub).None? <==> forall i :: 0 <= i < |sub| ==> |sub[i]| == 0
    ensures Validity(sub).Some? ==> Validity(sub).value in {0, 1}
    ensures Validity(sub) == Some(1) <==>
              (exists i, j :: 0 <= i < |sub| && 0 <= j < |sub[i]| && sub[i][j] == 0) &&
              (forall i, j :: 0 <= i < |sub| && 0 <= j < |sub[i]| ==> sub[i][j] <= 0)
  {
    var e := Elements(sub);
    ElementsOf(sub);
    if |e| > 0 {
      assert e[0] in e;
      var m := MaxOf(e);
      var i0, j0 :| 0 <= i0 < |sub| && 0 <= j0 < |sub[i0]| && sub[i0][j0] == m;
      assert |sub[i0]| != 0;
      if m == 0 {
        forall i, j | 0 <= i < |sub| && 0 <= j < |sub[i]|
          ensures sub[i][j] <= 0
        {
          assert sub[i][j] in e;
        }
      } else if m > 0 {
        assert !(sub[i0][j0] <= 0);
      } else {
        forall i, j | 0 <= i < |sub| && 0 <= j < |sub[i]|
          ensures sub[i][j] != 0
        {
          assert sub[i][j] in e;
        }
      }
    }
  }

  /** One cloud count as a percentage of a reference patch. */
  function Percent(v: int): real {
    100.0 * (v as real) / ((PatchSizeRef * PatchSizeRef) as real)
  }

  function PercentSum(e: seq<int>): real {
    if |e| == 0 then 0.0 else PercentSum(e[..|e| - 1]) + Percent(e[|e| - 1])
  }

  /** `_average_cloud_coverage_values`: the mean percentage over the footprint, NaN (None) when it is empty. */
  function CloudCoverage(sub: Stats): Coverage {
    var e := Elements(sub);
    if |e| == 0 then None else Some(PercentSum(e) / (|e| as real))
  }

  /** The processing of a cloud footprint never fails. */
  function CloudOf(sub: Stats): Option<Coverage> {
    Some(CloudCoverage(sub))
  }

  lemma {:induction false} PercentSumBounds(e: seq<int>)
    requires forall k :: 0 <= k < |e| ==> 0 <= e[k] <= PatchSizeRef * PatchSizeRef
    ensures 0.0 <= PercentSum(e) <= 100.0 * (|e| as real)
  {
    if |e| > 0 {
      PercentSumBounds(e[..|e| - 1]);
    }
  }

  /**
   * A footprint whose cloud counts lie between 0 and a full reference patch
   * has a coverage between 0 and 100, and has one exactly when it is not empty.
   */
  lemma CloudBounds(sub: Stats)
    requires forall i, j :: 0 <= i < |sub| && 0 <= j < |sub[i]| ==> 0 <= sub[i][j] <= PatchSizeRef * PatchSizeRef
    ensures CloudCoverage(sub).None? <==> forall i :: 0 <= i < |sub| ==> |sub[i]| == 0
    ensures CloudCoverage(sub).Some? ==> 0.0 <= CloudCoverage(sub).value <= 100.0
  {
    var e := Elements(sub);
    ValidityMeaning(sub);
    ElementsOf(sub);
    forall k | 0 <= k < |e|
      ensures 0 <= e[k] <= PatchSizeRef * PatchSizeRef
    {
      assert e[k] in e;
    }
    PercentSumBounds(e);
    if |e| > 0 {
      MeanBounds(PercentSum(e), |e| as real);
    }
  }

  lemma MeanBounds(total: real, n: real)
    requires n > 0.0 && 0.0 <= total <= 100.0 * n
    ensures 0.0 <= total / n <= 100.0
  {
    assert total / n * n == total;
  }

  // ----- the validity and cloud-coverage grids (`_index`) -----

  /** The footprint of cell (x, y) at the 10 m patch size. */
  function Footprint(arr: Stats, x: nat, y: nat, patchSize: nat): Stats {
    GetSubArr(arr, x, y, patchSize, PatchSizeRef)
  }

  /** `process_fn` gives a value for every footprint of the grid in every raster. */
  predicate Processable<T>(rasters: seq<Stats>, gx: nat, gy: nat, patchSize: nat, process: Stats -> Option<T>) {
    forall i: nat, x: nat, y: nat :: i < |rasters| && x < gx && y < gy ==>
      process(Footprint(rasters[i], x, y, patchSize)).Some?
  }

  /** `output[i, x, y]` is the processed footprint of cell (x, y) in raster i. */
  ghost predicate Indexed<T>(output: array3<T>, rasters: seq<Stats>, gx: nat, gy: nat, patchSize: nat,
                             process: Stats -> Option<T>)
    reads output
  {
    output.Length0 == |rasters| && output.Length1 == gx && output.Length2 == gy &&
    forall i: nat, x: nat, y: nat :: i < |rasters| && x < gx && y < gy ==>
      process(Footprint(rasters[i], x, y, patchSize)) == Some(output[i, x, y])
  }

  /**
   * `_index`: an array of shape (N, gx, gy) holding the processed footprint of
   * every cell of every image; `ok` is false where `process_fn` raised.
   */
  method Index<T(0)>(rasters: seq<Stats>, gx: nat, gy: nat, patchSize: nat, process: Stats -> Option<T>)
    returns (output: array3<T>, ok: bool)
    ensures fresh(output)
    ensures ok <==> Processable(rasters, gx, gy, patchSize, process)
    ensures ok ==> Indexed(output, rasters, gx, gy, patchSize, process)
  {
    output := new T[|rasters|, gx, gy];
    var i := 0;
    while i < |rasters|
      invariant 0 <= i <= |rasters|
      invariant forall i': nat, x: nat, y: nat :: i' < i && x < gx && y < gy ==>
                  process(Footprint(rasters[i'], x, y, patchSize)) == Some(output[i', x, y])
    {
      ok := IndexImage(output, i, rasters[i], patchSize, process);
      if !ok {
        return;
      }
      i := i + 1;
    }
    ok := true;
  }

  /** The `compute_value` pass of `_index` over image `idx`: `for_each_pos` writes `output[idx, x, y]`. */
  method IndexImage<T>(output: array3<T>, idx: nat, raster: Stats, patchSize: nat, process: Stats -> Option<T>)
    returns (ok: bool)
    requires idx < output.Length0
    modifies output
    ensures ok <==> forall x: nat, y: nat :: x < output.Length1 && y < output.Length2 ==>
                      process(Footprint(raster, x, y, patchSize)).Some?
    ensures ok ==> forall x: nat, y: nat :: x < output.Length1 && y < output.Length2 ==>
                     process(Footprint(raster, x, y, patchSize)) == Some(output[idx, x, y])
    ensures forall i, x, y :: 0 <= i < output.Length0 && i != idx && 0 <= x < output.Length1 && 0 <= y < output.Length2 ==>
              output[i, x, y] == old(output[i, x, y])
  {
    var x := 0;
    while x < output.Length1
      invariant 0 <= x <= output.Length1
      invariant forall x': nat, y: nat :: x' < x && y < output.Length2 ==>
                  process(Footprint(raster, x', y, patchSize)) == Some(output[idx, x', y])
      invariant forall i, x', y :: 0 <= i < output.Length0 && i != idx && 0 <= x' < output.Length1 && 0 <= y < output.Length2 ==>
                  output[i, x', y] == old(output[i, x', y])
    {
      var y := 0;
      while y < output.Length2
        invariant 0 <= y <= output.Length2
        invariant forall x': nat, y': nat :: x' < x && y' < output.Length2 ==>
                    process(Footprint(raster, x', y', patchSize)) == Some(output[idx, x', y'])
        invariant forall y': nat :: y' < y ==> process(Footprint(raster, x, y', patchSize)) == Some(output[idx, x, y'])
        invariant forall i, x', y' :: 0 <= i < output.Length0 && i != idx && 0 <= x' < output.Length1 && 0 <= y' < output.Length2 ==>
                    output[i, x', y'] == old(output[i, x', y'])
      {
        var v := process(Footprint(raster, x, y, patchSize));
        if v.None? {
          return false;
        }
        output[idx, x, y] := v.value;
        y := y + 1;
      }
      x := x + 1;
    }
    return true;
  }

  /** `grid_size_x`: `int(RasterXSize * PATCHSIZE_REF / patchsize_10m)` of the first S2 edge statistics. */
  function GridX(d: TileData): nat
    requires |d.s2EdgeStats| > 0 && d.patchSize > 0
  {
    Width(d.s2EdgeStats[0]) * PatchSizeRef / d.patchSize
  }

  /** `grid_size_y`, from the raster's row count. */
  function GridY(d: TileData): nat
    requires |d.s2EdgeStats| > 0 && d.patchSize > 0
  {
    |d.s2EdgeStats[0]| * PatchSizeRef / d.patchSize
  }

  /** The grid can be computed and every validity footprint is non-empty. */
  predicate Loadable(d: TileData) {
    WellFormed(d) && |d.s2Times| > 0 && d.patchSize > 0 &&
    (d.s1.Some? ==> Processable(d.s1.value.edgeStats, GridX(d), GridY(d), d.patchSize, Validity)) &&
    Processable(d.s2EdgeStats, GridX(d), GridY(d), d.patchSize, Validity)
  }

  // ----- the closest S1 image (`build_kdtree`, `find_closest_s1_image`) -----

  /** `dist`: the distance of two timestamps. */
  function Dist(a: real, b: real): real {
    if a <= b then b - a else a - b
  }

  /** The validity of S1 image i at cell (x, y). */
  function S1Validity(d: TileData, i: nat, x: nat, y: nat): Option<int>
    requires d.s1.Some? && i < |d.s1.value.edgeStats|
  {
    Validity(Footprint(d.s1.value.edgeStats[i], x, y, d.patchSize))
  }

  /**
   * The points `build_kdtree` collects at cell (x, y) from the first n S1
   * images: the timestamps and indices of those whose validity is 1, in image
   * order.
   */
  function KdUpTo(d: TileData, x: nat, y: nat, n: nat): (r: (seq<real>, seq<nat>))
    requires d.s1.Some? && WellFormed(d) && n <= |d.s1.value.times|
    ensures |r.0| == |r.1|
  {
    if n == 0 then ([], [])
    else
      var prev := KdUpTo(d, x, y, n - 1);
      if S1Validity(d, n - 1, x, y) == Some(1) then (prev.0 + [d.s1.value.times[n - 1]], prev.1 + [n - 1])
      else prev
  }

  /** The points and indices of the KDTree of cell (x, y). */
  function KdPoints(d: TileData, x: nat, y: nat): (seq<real>, seq<nat>)
    requires d.s1.Some? && WellFormed(d)
  {
    KdUpTo(d, x, y, |d.s1.value.times|)
  }

  /** The timestamps and indices of the first n entries whose flag is set, in order. */
  function Kept(times: seq<real>, keep: seq<bool>, n: nat): (r: (seq<real>, seq<nat>))
    requires n <= |times| == |keep|
    ensures |r.0| == |r.1|
  {
    if n == 0 then ([], [])
    else
      var prev := Kept(times, keep, n - 1);
      if keep[n - 1] then (prev.0 + [times[n - 1]], prev.1 + [n - 1]) else prev
  }

  /** Every index kept is below n, has its flag set and comes with its own timestamp. */
  lemma {:induction false} KeptSound(times: seq<real>, keep: seq<bool>, n: nat)
    requires n <= |times| == |keep|
    ensures forall k :: 0 <= k < |Kept(times, keep, n).1| ==>
              var i := Kept(times, keep, n).1[k];
              i < n && keep[i] && Kept(times, keep, n).0[k] == times[i]
  {
    if n > 0 {
      KeptSound(times, keep, n - 1);
      var prev, r := Kept(times, keep, n - 1), Kept(times, keep, n);
      forall k | 0 <= k < |r.1|
        ensures r.1[k] < n && keep[r.1[k]] && r.0[k] == times[r.1[k]]
      {
        if k < |prev.1| {
          assert r.1[k] == prev.1[k] && r.0[k] == prev.0[k];
        } else {
          assert keep[n - 1] && r.1[k] == n - 1 && r.0[k] == times[n - 1];
        }
      }
    }
  }

  /** Every index below n whose flag is set is kept. */
  lemma {:induction false} KeptComplete(times: seq<real>, keep: seq<bool>, n: nat)
    requires n <= |times| == |keep|
    ensures forall j :: 0 <= j < n && keep[j] ==> j in Kept(times, keep, n).1
  {
    if n > 0 {
      KeptComplete(times, keep, n - 1);
      var prev, r := Kept(times, keep, n - 1), Kept(times, keep, n);
      forall j | 0 <= j < n && keep[j]
        ensures j in r.1
      {
        if j < n - 1 {
          var i :| 0 <= i < |prev.1| && prev.1[i] == j;
          assert r.1[i] == j;
        } else {
          assert r.1[|prev.1|] == n - 1;
        }
      }
    }
  }

  /** Which S1 images are valid at cell (x, y). */
  function S1Keeps(d: TileData, x: nat, y: nat): (r: seq<bool>)
    requires d.s1.Some? && WellFormed(d)
    ensures |r| == |d.s1.value.times|
    ensures forall j :: 0 <= j < |r| ==> (r[j] <==> S1Validity(d, j, x, y) == Some(1))
  {
    seq(|d.s1.value.times|, j requires 0 <= j < |d.s1.value.times| => S1Validity(d, j, x, y) == Some(1))
  }

  /** `build_kdtree`'s loop keeps the S1 images valid at the cell. */
  lemma {:induction false} KdUpToKept(d: TileData, x: nat, y: nat, n: nat)
    requires d.s1.Some? && WellFormed(d) && n <= |d.s1.value.times|
    ensures KdUpTo(d, x, y, n) == Kept(d.s1.value.times, S1Keeps(d, x, y), n)
  {
    if n > 0 {
      KdUpToKept(d, x, y, n - 1);
      assert S1Keeps(d, x, y)[n - 1] <==> S1Validity(d, n - 1, x, y) == Some(1);
    }
  }

  /** The points collected are exactly the S1 images valid at the cell, with their own timestamps. */
  lemma KdMembers(d: TileData, x: nat, y: nat, n: nat)
    requires d.s1.Some? && WellFormed(d) && n <= |d.s1.value.times|
    ensures var r := KdUpTo(d, x, y, n);
            var times := d.s1.value.times;
            (forall k :: 0 <= k < |r.1| ==>
               r.1[k] < n && S1Validity(d, r.1[k], x, y) == Some(1) && r.0[k] == times[r.1[k]]) &&
            (forall j :: 0 <= j < n && S1Validity(d, j, x, y) == Some(1) ==> j in r.1)
  {
    var times, keep := d.s1.value.times, S1Keeps(d, x, y);
    KdUpToKept(d, x, y, n);
    KeptSound(times, keep, n);
    KeptComplete(times, keep, n);
  }

  /** Every cell has a valid S1 image, so that scipy can build its KDTree. */
  predicate KdNonEmpty(d: TileData)
    requires Loadable(d)
  {
    d.s1.Some? ==> forall x: nat, y: nat :: x < GridX(d) && y < GridY(d) ==> |KdPoints(d, x, y).0| > 0
  }

  /** Everything `__init__` needs to build the index without raising. */
  predicate Indexable(d: TileData) {
    Loadable(d) && KdNonEmpty(d)
  }

  /** What the index needs at one cell: S2 validities and, with S1 images, a valid S1 image. */
  predicate CellReady(d: TileData, x: nat, y: nat) {
    WellFormed(d) &&
    (forall i :: 0 <= i < |d.s2Times| ==> Validity(Footprint(d.s2EdgeStats[i], x, y, d.patchSize)).Some?) &&
    (d.s1.Some? ==> |KdPoints(d, x, y).0| > 0)
  }

  /** Every cell of the grid of an indexable tile is ready. */
  lemma IndexableCells(d: TileData)
    requires Indexable(d)
    ensures forall x: nat, y: nat :: x < GridX(d) && y < GridY(d) ==> CellReady(d, x, y)
  {
  }

  /** The KDTree query: the first of the nearest points to `t`. */
  function Nearest(ts: seq<real>, t: real): (k: nat)
    requires |ts| > 0
    ensures k < |ts| && forall j :: 0 <= j < |ts| ==> Dist(t, ts[k]) <= Dist(t, ts[j])
  {
    if |ts| == 1 then 0
    else
      var k := Nearest(ts[..|ts| - 1], t);
      assert forall j :: 0 <= j < |ts| - 1 ==> ts[..|ts| - 1][j] == ts[j];
      if Dist(t, ts[|ts| - 1]) < Dist(t, ts[k]) then |ts| - 1 else k
  }

  /** An entry of `closest_s1[pos]`: an S1 index and its distance in time. */
  datatype Closest = Closest(index: int, distance: real)

  /**
   * The table `find_closest_s1_image` fills for the first n S2 images: the
   * KDTree's nearest point, kept when it is closer than `max_distance`.
   */
  function ClosestTable(s2Times: seq<real>, ts: seq<real>, ids: seq<nat>, n: nat): map<nat, Closest>
    requires n <= |s2Times| && |ts| == |ids| && |ts| > 0
  {
    if n == 0 then map[]
    else
      var c := Candidate(s2Times, ts, ids, n - 1);
      var prev := ClosestTable(s2Times, ts, ids, n - 1);
      if c.distance < MaxDistance then prev[n - 1 := c] else prev
  }

  /** The entry the KDTree query gives S2 image i, whether or not it is kept. */
  function Candidate(s2Times: seq<real>, ts: seq<real>, ids: seq<nat>, i: nat): Closest
    requires i < |s2Times| && |ts| == |ids| && |ts| > 0
  {
    var k := Nearest(ts, s2Times[i]);
    Closest(ids[k], Dist(s2Times[i], ts[k]))
  }

  lemma {:induction false} ClosestTableEntries(s2Times: seq<real>, ts: seq<real>, ids: seq<nat>, n: nat)
    requires n <= |s2Times| && |ts| == |ids| && |ts| > 0
    ensures forall i: nat :: i in ClosestTable(s2Times, ts, ids, n) <==>
              i < n && Candidate(s2Times, ts, ids, i).distance < MaxDistance
    ensures forall i: nat :: i in ClosestTable(s2Times, ts, ids, n) ==>
              ClosestTable(s2Times, ts, ids, n)[i] == Candidate(s2Times, ts, ids, i)
  {
    if n > 0 {
      ClosestTableEntries(s2Times, ts, ids, n - 1);
      var prev := ClosestTable(s2Times, ts, ids, n - 1);
      var c := Candidate(s2Times, ts, ids, n - 1);
      assert ClosestTable(s2Times, ts, ids, n) == if c.distance < MaxDistance then prev[n - 1 := c] else prev;
    }
  }

  /** The table `set_virtual_closest_s1_image` gives a cell without S1 images. */
  function VirtualTable(n: nat): map<nat, Closest> {
    if n == 0 then map[] else VirtualTable(n - 1)[n - 1 := Closest(-1, 0.0)]
  }

  /**
   * `closest_s1[(x, y)]` as `__init__` leaves it. At a cell without a valid S1
   * image scipy cannot build the KDTree and `__init__` raises, so the empty
   * table there is never stored.
   */
  function ClosestAt(d: TileData, x: nat, y: nat): map<nat, Closest>
    requires WellFormed(d)
  {
    if d.s1.None? then VirtualTable(|d.s2Times|)
    else
      var pts := KdPoints(d, x, y);
      if |pts.0| == 0 then map[] else ClosestTable(d.s2Times, pts.0, pts.1, |d.s2Times|)
  }

  /**
   * With S1 images, S2 image i has an entry at a cell exactly when some S1
   * image valid there is closer than `max_distance`; the entry names an S1
   * image valid at the cell that minimises |dt| over all of them, and its
   * distance.
   */
  lemma ClosestIsNearest(d: TileData, x: nat, y: nat, i: nat)
    requires CellReady(d, x, y) && d.s1.Some? && i < |d.s2Times|
    ensures var c := ClosestAt(d, x, y);
            var times := d.s1.value.times;
            (i in c ==>
               0 <= c[i].index < |times| && S1Validity(d, c[i].index, x, y) == Some(1) &&
               c[i].distance == Dist(d.s2Times[i], times[c[i].index]) && c[i].distance < MaxDistance &&
               forall j :: 0 <= j < |times| && S1Validity(d, j, x, y) == Some(1) ==>
                 c[i].distance <= Dist(d.s2Times[i], times[j])) &&
            (i !in c ==>
               forall j :: 0 <= j < |times| && S1Validity(d, j, x, y) == Some(1) ==>
                 MaxDistance <= Dist(d.s2Times[i], times[j]))
  {
    var times := d.s1.value.times;
    var pts := KdPoints(d, x, y);
    var (ts, ids) := (pts.0, pts.1);
    KdMembers(d, x, y, |times|);
    ClosestTableEntries(d.s2Times, ts, ids, |d.s2Times|);
    var t := d.s2Times[i];
    var k := Nearest(ts, t);
    forall j | 0 <= j < |times| && S1Validity(d, j, x, y) == Some(1)
      ensures Dist(t, ts[k]) <= Dist(t, times[j])
    {
      var m :| 0 <= m < |ids| && ids[m] == j;
      assert ts[m] == times[j];
    }
  }

  /** Without S1 images every S2 image has the virtual entry (-1, 0) at every cell. */
  lemma VirtualClosest(d: TileData, x: nat, y: nat)
    requires CellReady(d, x, y) && d.s1.None?
    ensures forall i: nat :: i in ClosestAt(d, x, y) <==> i < |d.s2Times|
    ensures forall i: nat :: i in ClosestAt(d, x, y) ==> ClosestAt(d, x, y)[i] == Closest(-1, 0.0)
  {
    VirtualTableEntries(|d.s2Times|);
  }

  lemma {:induction false} VirtualTableEntries(n: nat)
    ensures forall i: nat :: i in VirtualTable(n) <==> i < n
    ensures forall i: nat :: i in VirtualTable(n) ==> VirtualTable(n)[i] == Closest(-1, 0.0)
  {
    if n > 0 {
      VirtualTableEntries(n - 1);
    }
  }

  // ----- the 4-D boxes (`new_bbox`, the rtree, `find_s2`) -----

  /** A box over (time, cloud coverage, validity, closest-S1 gap): four minimums, then four maximums. */
  datatype Box = Box(
    timeLow: real, cloudLow: Coverage, validityLow: real, gapLow: real,
    timeHigh: real, cloudHigh: Coverage, validityHigh: real, gapHigh: real)

  /** `new_bbox` */
  function NewBbox(timeLow: real, timeHigh: real, cloudMin: Coverage, cloudMax: Coverage, validity: real,
                   gapMin: real, gapMax: real): Box
  {
    Box(timeLow, cloudMin, validity, gapMin, timeHigh, cloudMax, validity, gapMax)
  }

  /** `a <= b` on coordinates; false when either is NaN. */
  predicate CoordLe(a: Coverage, b: Coverage) {
    a.Some? && b.Some? && a.value <= b.value
  }

  /** Box intersection: the two intervals overlap in each of the four dimensions. */
  predicate Intersects(a: Box, b: Box) {
    a.timeLow <= b.timeHigh && b.timeLow <= a.timeHigh &&
    CoordLe(a.cloudLow, b.cloudHigh) && CoordLe(b.cloudLow, a.cloudHigh) &&
    a.validityLow <= b.validityHigh && b.validityLow <= a.validityHigh &&
    a.gapLow <= b.gapHigh && b.gapLow <= a.gapHigh
  }

  /** rtree refuses a box whose minimum exceeds its maximum in some dimension. */
  predicate Inverted(b: Box) {
    b.timeLow > b.timeHigh || (b.cloudLow.Some? && b.cloudHigh.Some? && b.cloudLow.value > b.cloudHigh.value) ||
    b.validityLow > b.validityHigh || b.gapLow > b.gapHigh
  }

  /** `index.intersection(q)`: the ids of the inserted boxes that meet `q`, in insertion order. */
  function Intersection(tree: seq<(nat, Box)>, q: Box): (r: seq<nat>)
    ensures forall id :: id in r <==> exists k :: 0 <= k < |tree| && tree[k].0 == id && Intersects(tree[k].1, q)
  {
    if |tree| == 0 then []
    else
      var front, last := tree[..|tree| - 1], tree[|tree| - 1];
      var prev := Intersection(front, q);
      assert forall k :: 0 <= k < |front| ==> front[k] == tree[k];
      prev + (if Intersects(last.1, q) then [last.0] else [])
  }

  /** Ids inserted in increasing order come out in increasing order. */
  lemma {:induction false} IntersectionSorted(tree: seq<(nat, Box)>, q: Box)
    requires forall i, j :: 0 <= i < j < |tree| ==> tree[i].0 < tree[j].0
    ensures forall i, j :: 0 <= i < j < |Intersection(tree, q)| ==> Intersection(tree, q)[i] < Intersection(tree, q)[j]
  {
    if |tree| > 0 {
      var front := tree[..|tree| - 1];
      IntersectionSorted(front, q);
      var prev := Intersection(front, q);
      forall k | 0 <= k < |prev|
        ensures prev[k] < tree[|tree| - 1].0
      {
        assert prev[k] in prev;
      }
    }
  }

  /**
   * `find_s2` on one cell's tree: the query box spans [0, gap_max] in the gap
   * dimension, `max_distance` when the slot sets no gap.
   */
  function Search(tree: seq<(nat, Box)>, timeLow: real, timeHigh: real, cloudMin: real, cloudMax: real,
                  validity: real, gapMax: Option<real>): Result<seq<nat>>
  {
    var gm := if gapMax.None? then MaxDistance else gapMax.value;
    var q := NewBbox(timeLow, timeHigh, Some(cloudMin), Some(cloudMax), validity, 0.0, gm);
    if Inverted(q) then Err(RTreeError) else Ok(Intersection(tree, q))
  }

  /**
   * The validity of S2 image i at a cell. An empty footprint has none and
   * `_index` raises on it, so the 0 given there is never stored.
   */
  function S2Validity(d: TileData, i: nat, x: nat, y: nat): int
    requires WellFormed(d) && i < |d.s2Times|
  {
    match Validity(Footprint(d.s2EdgeStats[i], x, y, d.patchSize))
    case Some(v) => v
    case None => 0
  }

  function S2Cloud(d: TileData, i: nat, x: nat, y: nat): Coverage
    requires WellFormed(d) && i < |d.s2Times|
  {
    CloudCoverage(Footprint(d.s2CloudStats[i], x, y, d.patchSize))
  }

  /** The stored closest-S1 gap of S2 image i: its entry's distance, `max_distance` without one. */
  function Gap(d: TileData, x: nat, y: nat, i: nat): real
    requires WellFormed(d)
  {
    var c := ClosestAt(d, x, y);
    if i in c then c[i].distance else MaxDistance
  }

  /** The box `build_rtree` inserts for S2 image i at cell (x, y). */
  function BoxAt(d: TileData, x: nat, y: nat, i: nat): Box
    requires WellFormed(d) && i < |d.s2Times|
  {
    var t := d.s2Times[i];
    var cloud := S2Cloud(d, i, x, y);
    NewBbox(t, t, cloud, cloud, S2Validity(d, i, x, y) as real, Gap(d, x, y, i), MaxDistance)
  }

  /** The tree of cell (x, y): one box per S2 image, inserted with the image's index. */
  function TreeAt(d: TileData, x: nat, y: nat): seq<(nat, Box)>
    requires WellFormed(d)
  {
    seq(|d.s2Times|, i requires 0 <= i < |d.s2Times| => (i, BoxAt(d, x, y, i)))
  }

  /** One more element of a prefix. */
  lemma PrefixSnoc<T>(s: seq<T>, i: nat)
    requires i < |s|
    ensures s[..i + 1] == s[..i] + [s[i]]
  {
  }

  /** Entry i of the tree of a cell is S2 image i with its box. */
  lemma TreeEntry(d: TileData, x: nat, y: nat, i: nat)
    requires WellFormed(d) && i < |d.s2Times|
    ensures |TreeAt(d, x, y)| == |d.s2Times| && TreeAt(d, x, y)[i] == (i, BoxAt(d, x, y, i))
  {
  }

  /** Every stored gap lies in [0, max_distance]. */
  lemma GapBounds(d: TileData, x: nat, y: nat, i: nat)
    requires CellReady(d, x, y) && i < |d.s2Times|
    ensures 0.0 <= Gap(d, x, y, i) <= MaxDistance
  {
    var c := ClosestAt(d, x, y);
    if d.s1.Some? {
      ClosestIsNearest(d, x, y, i);
    } else {
      VirtualClosest(d, x, y);
    }
    if i in c {
      assert 0.0 <= c[i].distance < MaxDistance;
    }
  }

  /** S2 image i passes the filters of a `find_s2` query. */
  predicate Matches(d: TileData, x: nat, y: nat, i: nat, timeLow: real, timeHigh: real, cloudMin: real,
                    cloudMax: real, validity: real, gapMax: real)
    requires WellFormed(d) && i < |d.s2Times|
  {
    timeLow <= d.s2Times[i] <= timeHigh &&
    S2Cloud(d, i, x, y).Some? && cloudMin <= S2Cloud(d, i, x, y).value <= cloudMax &&
    S2Validity(d, i, x, y) as real == validity &&
    Gap(d, x, y, i) <= gapMax
  }

  /**
   * `find_s2` raises exactly for an inverted query; otherwise it returns, in
   * increasing order, exactly the S2 images whose time lies in the window,
   * whose cloud coverage lies in [min, max], whose validity is the one asked
   * for and whose stored closest-S1 gap is at most `gap_max` (`max_distance`
   * when None).
   */
  lemma FindS2Exactly(d: TileData, x: nat, y: nat, timeLow: real, timeHigh: real, cloudMin: real,
                      cloudMax: real, validity: real, gapMax: Option<real>)
    requires CellReady(d, x, y)
    ensures var gm := if gapMax.None? then MaxDistance else gapMax.value;
            var r := Search(TreeAt(d, x, y), timeLow, timeHigh, cloudMin, cloudMax, validity, gapMax);
            (r.Ok? <==> timeLow <= timeHigh && cloudMin <= cloudMax && 0.0 <= gm) &&
            (r.Ok? ==>
               (forall i: nat :: i in r.value <==>
                  i < |d.s2Times| && Matches(d, x, y, i, timeLow, timeHigh, cloudMin, cloudMax, validity, gm)) &&
               (forall i, j :: 0 <= i < j < |r.value| ==> r.value[i] < r.value[j]))
  {
    var gm := if gapMax.None? then MaxDistance else gapMax.value;
    var tree := TreeAt(d, x, y);
    var q := NewBbox(timeLow, timeHigh, Some(cloudMin), Some(cloudMax), validity, 0.0, gm);
    IntersectionSorted(tree, q);
    forall i: nat | i < |d.s2Times|
      ensures Intersects(tree[i].1, q) <==> Matches(d, x, y, i, timeLow, timeHigh, cloudMin, cloudMax, validity, gm)
    {
      GapBounds(d, x, y, i);
    }
  }

  // ----- the dicts `for_each_pos` fills -----

  /** The cells `for_each_pos` has visited before (x, y): earlier columns, then the top of column x. */
  predicate Visited(gy: nat, x: nat, y: nat, i: nat, j: nat) {
    (i < x || (i == x && j < y)) && j < gy
  }

  /** The grid of the tile can be computed: there is an S2 image and the patch size is positive. */
  predicate Gridded(d: TileData) {
    WellFormed(d) && |d.s2Times| > 0 && d.patchSize > 0
  }

  /** `closest_s1` once `for_each_pos` has filled the cells before (x, y). */
  function ClosestUpTo(d: TileData, x: nat, y: nat): map<Pos, map<nat, Closest>>
    requires Gridded(d) && y <= GridY(d) && (x < GridX(d) || (x == GridX(d) && y == 0))
    decreases x, y
  {
    if y == 0 then (if x == 0 then map[] else ClosestUpTo(d, x - 1, GridY(d)))
    else ClosestUpTo(d, x, y - 1)[(x, y - 1) := ClosestAt(d, x, y - 1)]
  }

  /** `s2_trees` once `for_each_pos` has filled the cells before (x, y). */
  function TreesUpTo(d: TileData, x: nat, y: nat): map<Pos, seq<(nat, Box)>>
    requires Gridded(d) && y <= GridY(d) && (x < GridX(d) || (x == GridX(d) && y == 0))
    decreases x, y
  {
    if y == 0 then (if x == 0 then map[] else TreesUpTo(d, x - 1, GridY(d)))
    else TreesUpTo(d, x, y - 1)[(x, y - 1) := TreeAt(d, x, y - 1)]
  }

  /** The closest-S1 dict holds the table of exactly the visited cells. */
  lemma {:induction false} ClosestUpToCells(d: TileData, x: nat, y: nat)
    requires Gridded(d) && y <= GridY(d) && (x < GridX(d) || (x == GridX(d) && y == 0))
    ensures forall i: nat, j: nat :: (i, j) in ClosestUpTo(d, x, y) <==> Visited(GridY(d), x, y, i, j)
    ensures forall i: nat, j: nat :: (i, j) in ClosestUpTo(d, x, y) ==> ClosestUpTo(d, x, y)[(i, j)] == ClosestAt(d, i, j)
    decreases x, y
  {
    if y == 0 {
      if x > 0 { ClosestUpToCells(d, x - 1, GridY(d)); }
    } else {
      ClosestUpToCells(d, x, y - 1);
    }
  }

  /** The tree dict holds the tree of exactly the visited cells. */
  lemma {:induction false} TreesUpToCells(d: TileData, x: nat, y: nat)
    requires Gridded(d) && y <= GridY(d) && (x < GridX(d) || (x == GridX(d) && y == 0))
    ensures forall i: nat, j: nat :: (i, j) in TreesUpTo(d, x, y) <==> Visited(GridY(d), x, y, i, j)
    ensures forall i: nat, j: nat :: (i, j) in TreesUpTo(d, x, y) ==> TreesUpTo(d, x, y)[(i, j)] == TreeAt(d, i, j)
    decreases x, y
  {
    if y == 0 {
      if x > 0 { TreesUpToCells(d, x - 1, GridY(d)); }
    } else {
      TreesUpToCells(d, x, y - 1);
    }
  }

  // ----- the handler -----

  /**
   * The indexing state of `TileHandler`: the grids `__init__` fills, and the
   * `closest_s1` and `s2_trees` dicts it fills cell by cell.
   */
  class TileHandler {
    const data: TileData
    const gridSizeX: nat
    const gridSizeY: nat
    /** `s1_images_validity`; it holds no image when the tile has no S1 directory. */
    const s1ImagesValidity: array3<int>
    const s2ImagesValidity: array3<int>
    const s2ImagesCloudCoverage: array3<Coverage>
    var closestS1: map<Pos, map<nat, Closest>>
    var s2Trees: map<Pos, seq<(nat, Box)>>

    /** The grids hold the statistics of the tile's images. */
    ghost predicate Grids()
      reads s1ImagesValidity, s2ImagesValidity, s2ImagesCloudCoverage
    {
      Indexable(data) && S2Grids() &&
      (data.s1.Some? ==>
         Indexed(s1ImagesValidity, data.s1.value.edgeStats, gridSizeX, gridSizeY, data.patchSize, Validity))
    }

    /** The S2 validity and cloud grids, which `build_rtree` reads. */
    ghost predicate S2Grids()
      reads s2ImagesValidity, s2ImagesCloudCoverage
    {
      Gridded(data) && gridSizeX == GridX(data) && gridSizeY == GridY(data) &&
      Indexed(s2ImagesValidity, data.s2EdgeStats, gridSizeX, gridSizeY, data.patchSize, Validity) &&
      Indexed(s2ImagesCloudCoverage, data.s2CloudStats, gridSizeX, gridSizeY, data.patchSize, CloudOf)
    }

    /** `closest_s1` has one table per cell, as `__init__` computes it. */
    ghost predicate ClosestReady()
      reads this`closestS1
    {
      Gridded(data) && gridSizeX == GridX(data) && gridSizeY == GridY(data) &&
      (forall i: nat, j: nat :: (i, j) in closestS1 <==> i < gridSizeX && j < gridSizeY) &&
      (forall i: nat, j: nat :: (i, j) in closestS1 ==> closestS1[(i, j)] == ClosestAt(data, i, j))
    }

    /** `s2_trees` has one tree per cell, as `__init__` computes it. */
    ghost predicate TreesReady()
      reads this`s2Trees
    {
      Gridded(data) && gridSizeX == GridX(data) && gridSizeY == GridY(data) &&
      (forall i: nat, j: nat :: (i, j) in s2Trees <==> i < gridSizeX && j < gridSizeY) &&
      (forall i: nat, j: nat :: (i, j) in s2Trees ==> s2Trees[(i, j)] == TreeAt(data, i, j))
    }

    ghost predicate Valid()
      reads this`closestS1, this`s2Trees, s1ImagesValidity, s2ImagesValidity, s2ImagesCloudCoverage
    {
      Grids() && ClosestReady() && TreesReady()
    }

    /**
     * The part of `__init__` after the grids and KDTrees: the closest-S1
     * tables (virtual ones without S1 images), then the box trees.
     */
    constructor (d: TileData, gx: nat, gy: nat, s1v: array3<int>, s2v: array3<int>, cloud: array3<Coverage>,
                 kd: map<Pos, (seq<real>, seq<nat>)>)
      requires Indexable(d) && gx == GridX(d) && gy == GridY(d)
      requires d.s1.Some? ==> Indexed(s1v, d.s1.value.edgeStats, gx, gy, d.patchSize, Validity)
      requires Indexed(s2v, d.s2EdgeStats, gx, gy, d.patchSize, Validity)
      requires Indexed(cloud, d.s2CloudStats, gx, gy, d.patchSize, CloudOf)
      requires d.s1.Some? ==> KdReady(d, kd)
      ensures Valid() && data == d
    {
      data := d;
      gridSizeX := gx;
      gridSizeY := gy;
      s1ImagesValidity := s1v;
      s2ImagesValidity := s2v;
      s2ImagesCloudCoverage := cloud;
      closestS1 := map[];
      s2Trees := map[];
      new;
      if d.s1.Some? {
        FindClosestS1(kd);
      } else {
        SetVirtualClosestS1();
      }
      BuildRTrees();
    }

    /** `for_each_pos(find_closest_s1_image)` */
    method FindClosestS1(kd: map<Pos, (seq<real>, seq<nat>)>)
      requires Gridded(data) && gridSizeX == GridX(data) && gridSizeY == GridY(data)
      requires data.s1.Some? && KdReady(data, kd)
      modifies this`closestS1
      ensures ClosestReady()
    {
      KdReadyShaped(data, kd);
      FillClosestS1(kd);
      KdTablesAre(data, kd, gridSizeX, 0);
      ClosestUpToCells(data, gridSizeX, 0);
    }

    /** The loops of `for_each_pos(find_closest_s1_image)`, over any KDTrees of the right shape. */
    method FillClosestS1(kd: map<Pos, (seq<real>, seq<nat>)>)
      requires KdShaped(kd, gridSizeX, gridSizeY)
      modifies this`closestS1
      ensures closestS1 == KdTablesUpTo(data.s2Times, kd, gridSizeX, gridSizeY, gridSizeX, 0)
    {
      closestS1 := map[];
      var x: nat := 0;
      while x < gridSizeX
        invariant x <= gridSizeX
        invariant closestS1 == KdTablesUpTo(data.s2Times, kd, gridSizeX, gridSizeY, x, 0)
      {
        var y: nat := 0;
        while y < gridSizeY
          invariant y <= gridSizeY
          invariant closestS1 == KdTablesUpTo(data.s2Times, kd, gridSizeX, gridSizeY, x, y)
        {
          var pts := kd[(x, y)];
          var table := FindClosestS1Image(data.s2Times, pts.0, pts.1);
          closestS1 := closestS1[(x, y) := table];
          y := y + 1;
        }
        x := x + 1;
      }
    }

    /** `for_each_pos(set_virtual_closest_s1_image)` */
    method SetVirtualClosestS1()
      requires Gridded(data) && gridSizeX == GridX(data) && gridSizeY == GridY(data) && data.s1.None?
      modifies this`closestS1
      ensures ClosestReady()
    {
      closestS1 := map[];
      var x := 0;
      while x < gridSizeX
        invariant 0 <= x <= gridSizeX
        invariant closestS1 == ClosestUpTo(data, x, 0)
      {
        var y := 0;
        while y < gridSizeY
          invariant 0 <= y <= gridSizeY
          invariant closestS1 == ClosestUpTo(data, x, y)
        {
          closestS1 := closestS1[(x, y) := VirtualTable(|data.s2Times|)];
          y := y + 1;
        }
        x := x + 1;
      }
      ClosestUpToCells(data, gridSizeX, 0);
    }

    /** `for_each_pos(build_rtree)` */
    method BuildRTrees()
      requires S2Grids() && ClosestReady()
      modifies this`s2Trees
      ensures TreesReady()
    {
      s2Trees := map[];
      var x := 0;
      while x < gridSizeX
        invariant 0 <= x <= gridSizeX
        invariant s2Trees == TreesUpTo(data, x, 0)
      {
        var y := 0;
        while y < gridSizeY
          invariant 0 <= y <= gridSizeY
          invariant s2Trees == TreesUpTo(data, x, y)
        {
          var tree := BuildRTree(x, y);
          s2Trees := s2Trees[(x, y) := tree];
          y := y + 1;
        }
        x := x + 1;
      }
      TreesUpToCells(data, gridSizeX, 0);
    }

    /** `build_rtree` at one cell: one box per S2 image, from the grids and the closest-S1 table. */
    method BuildRTree(x: nat, y: nat) returns (tree: seq<(nat, Box)>)
      requires S2Grids() && ClosestReady() && x < gridSizeX && y < gridSizeY
      ensures tree == TreeAt(data, x, y)
    {
      var closest := closestS1[(x, y)];
      ghost var boxes := TreeAt(data, x, y);
      tree := [];
      var i: nat := 0;
      while i < |data.s2Times|
        invariant i <= |data.s2Times|
        invariant tree == boxes[..i]
      {
        var timestamp := data.s2Times[i];
        var cldCovValue := s2ImagesCloudCoverage[i, x, y];
        var validityValue := s2ImagesValidity[i, x, y];
        var closestS1Gap := if i in closest then closest[i].distance else MaxDistance;
        var bbox := NewBbox(timestamp, timestamp, cldCovValue, cldCovValue, validityValue as real,
                            closestS1Gap, MaxDistance);
        BoxFromGrids(x, y, i);
        TreeEntry(data, x, y, i);
        PrefixSnoc(boxes, i);
        tree := tree + [(i, bbox)];
        i := i + 1;
      }
    }

    /** The values `build_rtree` reads from the grids for S2 image i make the box of the specification. */
    lemma BoxFromGrids(x: nat, y: nat, i: nat)
      requires S2Grids() && ClosestReady() && x < gridSizeX && y < gridSizeY && i < |data.s2Times|
      ensures (x, y) in closestS1
      ensures var closest := closestS1[(x, y)];
              var t := data.s2Times[i];
              var cloud := s2ImagesCloudCoverage[i, x, y];
              var gap := if i in closest then closest[i].distance else MaxDistance;
              NewBbox(t, t, cloud, cloud, s2ImagesValidity[i, x, y] as real, gap, MaxDistance) == BoxAt(data, x, y, i)
    {
      assert (x, y) in closestS1;
      assert CloudOf(Footprint(data.s2CloudStats[i], x, y, data.patchSize)) == Some(s2ImagesCloudCoverage[i, x, y]);
      assert Validity(Footprint(data.s2EdgeStats[i], x, y, data.patchSize)) == Some(s2ImagesValidity[i, x, y]);
    }

    /** `find_s2` at a cell of the grid. */
    function FindS2(pos: Pos, timeLow: real, timeHigh: real, cloudMin: real, cloudMax: real, validity: real,
                    gapMax: Option<real>): (r: Result<seq<nat>>)
      reads this`s2Trees
      requires pos in s2Trees
    {
      Search(s2Trees[pos], timeLow, timeHigh, cloudMin, cloudMax, validity, gapMax)
    }
  }

  /** The KDTree points of every cell, as `build_kdtree` collects them. */
  ghost predicate KdReady(d: TileData, kd: map<Pos, (seq<real>, seq<nat>)>)
    requires Gridded(d) && d.s1.Some?
  {
    forall x: nat, y: nat :: x < GridX(d) && y < GridY(d) ==>
      (x, y) in kd && kd[(x, y)] == KdPoints(d, x, y) && |kd[(x, y)].0| > 0
  }

  /** Every cell of a gx x gy grid has KDTree points, and at least one. */
  predicate KdShaped(kd: map<Pos, (seq<real>, seq<nat>)>, gx: nat, gy: nat) {
    forall x: nat, y: nat :: x < gx && y < gy ==>
      (x, y) in kd && |kd[(x, y)].0| == |kd[(x, y)].1| && |kd[(x, y)].0| > 0
  }

  /** `closest_s1` once `find_closest_s1_image` has run on the KDTrees of the cells before (x, y). */
  function KdTablesUpTo(s2Times: seq<real>, kd: map<Pos, (seq<real>, seq<nat>)>, gx: nat, gy: nat, x: nat, y: nat)
    : map<Pos, map<nat, Closest>>
    requires KdShaped(kd, gx, gy) && y <= gy && (x < gx || (x == gx && y == 0))
    decreases x, y
  {
    if y == 0 then (if x == 0 then map[] else KdTablesUpTo(s2Times, kd, gx, gy, x - 1, gy))
    else
      var pts := kd[(x, y - 1)];
      KdTablesUpTo(s2Times, kd, gx, gy, x, y - 1)[(x, y - 1) := ClosestTable(s2Times, pts.0, pts.1, |s2Times|)]
  }

  /** The KDTrees `build_kdtree` leaves have the shape `find_closest_s1_image` needs. */
  lemma KdReadyShaped(d: TileData, kd: map<Pos, (seq<real>, seq<nat>)>)
    requires Gridded(d) && d.s1.Some? && KdReady(d, kd)
    ensures KdShaped(kd, GridX(d), GridY(d))
  {
  }

  /** On the tile's own KDTrees, the tables are those of the specification. */
  lemma KdTablesAre(d: TileData, kd: map<Pos, (seq<real>, seq<nat>)>, x: nat, y: nat)
    requires Gridded(d) && d.s1.Some? && KdReady(d, kd)
    requires y <= GridY(d) && (x < GridX(d) || (x == GridX(d) && y == 0))
    ensures KdShaped(kd, GridX(d), GridY(d))
    ensures KdTablesUpTo(d.s2Times, kd, GridX(d), GridY(d), x, y) == ClosestUpTo(d, x, y)
  {
    KdReadyShaped(d, kd);
    forall i: nat, j: nat | i < GridX(d) && j < GridY(d)
      ensures ClosestAt(d, i, j) == ClosestTable(d.s2Times, kd[(i, j)].0, kd[(i, j)].1, |d.s2Times|)
    {
      KdTableAt(d, kd, i, j);
    }
    KdTablesFrom(d, kd, x, y);
  }

  /** Every cell's closest-S1 table is the one built from its entry in `kd`. */
  ghost predicate KdMatch(d: TileData, kd: map<Pos, (seq<real>, seq<nat>)>)
    requires Gridded(d) && KdShaped(kd, GridX(d), GridY(d))
  {
    forall i: nat, j: nat :: i < GridX(d) && j < GridY(d) ==>
      ClosestAt(d, i, j) == ClosestTable(d.s2Times, kd[(i, j)].0, kd[(i, j)].1, |d.s2Times|)
  }

  lemma {:induction false} KdTablesFrom(d: TileData, kd: map<Pos, (seq<real>, seq<nat>)>, x: nat, y: nat)
    requires Gridded(d) && KdShaped(kd, GridX(d), GridY(d)) && KdMatch(d, kd)
    requires y <= GridY(d) && (x < GridX(d) || (x == GridX(d) && y == 0))
    ensures KdTablesUpTo(d.s2Times, kd, GridX(d), GridY(d), x, y) == ClosestUpTo(d, x, y)
    decreases x, y
  {
    if y == 0 {
      if x > 0 { KdTablesFrom(d, kd, x - 1, GridY(d)); }
    } else {
      KdTablesFrom(d, kd, x, y - 1);
    }
  }

  /** The table built from a cell's kd-tree points is the cell's closest-S1 table. */
  lemma KdTableAt(d: TileData, kd: map<Pos, (seq<real>, seq<nat>)>, x: nat, y: nat)
    requires Gridded(d) && d.s1.Some? && KdReady(d, kd) && x < GridX(d) && y < GridY(d)
    ensures (x, y) in kd && ClosestAt(d, x, y) == ClosestTable(d.s2Times, kd[(x, y)].0, kd[(x, y)].1, |d.s2Times|)
  {
  }

  /** `find_closest_s1_image` at one cell, given the cell's KDTree points and their S1 indices. */
  method FindClosestS1Image(s2Times: seq<real>, ts: seq<real>, ids: seq<nat>) returns (table: map<nat, Closest>)
    requires |ts| == |ids| && |ts| > 0
    ensures table == ClosestTable(s2Times, ts, ids, |s2Times|)
  {
    table := map[];
    var s2Idx := 0;
    while s2Idx < |s2Times|
      invariant 0 <= s2Idx <= |s2Times|
      invariant table == ClosestTable(s2Times, ts, ids, s2Idx)
    {
      var k := Nearest(ts, s2Times[s2Idx]);
      var value := Dist(s2Times[s2Idx], ts[k]);
      if value < MaxDistance {
        // s2Idx is never a key yet, so the `update` branch of the source does not arise
        table := table[s2Idx := Closest(ids[k], value)];
      }
      s2Idx := s2Idx + 1;
    }
  }

  /** `build_kdtree` at one cell: the timestamps and indices of the S1 images valid there. */
  method BuildKdTree(d: TileData, s1v: array3<int>, x: nat, y: nat) returns (ts: seq<real>, ids: seq<nat>)
    requires Loadable(d) && d.s1.Some? && x < GridX(d) && y < GridY(d)
    requires Indexed(s1v, d.s1.value.edgeStats, GridX(d), GridY(d), d.patchSize, Validity)
    ensures (ts, ids) == KdPoints(d, x, y)
  {
    var times := d.s1.value.times;
    ts, ids := [], [];
    var s1Index := 0;
    while s1Index < |times|
      invariant 0 <= s1Index <= |times|
      invariant (ts, ids) == KdUpTo(d, x, y, s1Index)
    {
      var validity := s1v[s1Index, x, y];
      assert S1Validity(d, s1Index, x, y) == Some(validity);
      KdStep(d, x, y, s1Index, validity);
      if validity != 0 {
        ts := ts + [times[s1Index]];
        ids := ids + [s1Index];
      }
      s1Index := s1Index + 1;
    }
  }

  /** One more S1 image of a cell: it is a point of the cell's tree exactly when its validity flag is set. */
  lemma KdStep(d: TileData, x: nat, y: nat, i: nat, validity: int)
    requires d.s1.Some? && WellFormed(d) && i < |d.s1.value.times| && i < |d.s1.value.edgeStats|
    requires S1Validity(d, i, x, y) == Some(validity)
    ensures var prev := KdUpTo(d, x, y, i);
            KdUpTo(d, x, y, i + 1) ==
              if validity != 0 then (prev.0 + [d.s1.value.times[i]], prev.1 + [i]) else prev
  {
    ValidityMeaning(Footprint(d.s1.value.edgeStats[i], x, y, d.patchSize));
  }

  /** `for_each_pos(build_kdtree)`: scipy raises where a cell has no valid S1 image. */
  method BuildKdTrees(d: TileData, s1v: array3<int>) returns (r: Result<map<Pos, (seq<real>, seq<nat>)>>)
    requires Loadable(d) && d.s1.Some?
    requires Indexed(s1v, d.s1.value.edgeStats, GridX(d), GridY(d), d.patchSize, Validity)
    ensures r.Ok? <==> KdNonEmpty(d)
    ensures r.Ok? ==> KdReady(d, r.value)
  {
    var kd: map<Pos, (seq<real>, seq<nat>)> := map[];
    var x := 0;
    while x < GridX(d)
      invariant 0 <= x <= GridX(d)
      invariant forall p: Pos :: p.0 < x && p.1 < GridY(d) ==> p in kd && kd[p] == KdPoints(d, p.0, p.1)
      invariant forall x': nat, y': nat :: x' < x && y' < GridY(d) ==> |KdPoints(d, x', y').0| > 0
    {
      var y := 0;
      while y < GridY(d)
        invariant 0 <= y <= GridY(d)
        invariant forall p: Pos :: (p.0 < x || (p.0 == x && p.1 < y)) && p.1 < GridY(d) ==>
                    p in kd && kd[p] == KdPoints(d, p.0, p.1)
        invariant forall x': nat, y': nat :: (x' < x || (x' == x && y' < y)) && y' < GridY(d) ==>
                    |KdPoints(d, x', y').0| > 0
      {
        var ts, ids := BuildKdTree(d, s1v, x, y);
        if |ts| == 0 {
          return Err(ValueError);
        }
        kd := kd[(x, y) := (ts, ids)];
        y := y + 1;
      }
      x := x + 1;
    }
    return Ok(kd);
  }

  /**
   * `TileHandler.__init__` on the images of a tile: it raises an IndexError
   * without S2 images, a ZeroDivisionError for a zero patch size, a
   * ValueError where a validity footprint is empty or a cell has no valid S1
   * image; otherwise the handler's grids, tables and trees are those of the
   * tile.
   */
  method Build(d: TileData) returns (r: Result<TileHandler>)
    requires WellFormed(d)
    ensures r.Ok? <==> Indexable(d)
    ensures r.Ok? ==> fresh(r.value) && r.value.Valid() && r.value.data == d
  {
    if |d.s2Times| == 0 {
      return Err(IndexError);
    }
    if d.patchSize == 0 {
      return Err(ZeroDivisionError);
    }
    var gx := Width(d.s2EdgeStats[0]) * PatchSizeRef / d.patchSize;
    var gy := |d.s2EdgeStats[0]| * PatchSizeRef / d.patchSize;
    var s1v := new int[0, gx, gy];
    if d.s1.Some? {
      var ok;
      s1v, ok := Index(d.s1.value.edgeStats, gx, gy, d.patchSize, Validity);
      if !ok {
        return Err(ValueError);
      }
    }
    var s2v, ok2 := Index(d.s2EdgeStats, gx, gy, d.patchSize, Validity);
    if !ok2 {
      return Err(ValueError);
    }
    var cloud, ok3 := Index(d.s2CloudStats, gx, gy, d.patchSize, CloudOf);
    assert ok3;
    var kd: map<Pos, (seq<real>, seq<nat>)> := map[];
    if d.s1.Some? {
      var trees := BuildKdTrees(d, s1v);
      if trees.Err? {
        return Err(trees.msg);
      }
      kd := trees.value;
    }
    var h := new TileHandler(d, gx, gy, s1v, s2v, cloud, kd);
    return Ok(h);
  }
}
