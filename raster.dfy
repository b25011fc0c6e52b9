/**
 * `get_sub_arr` of decloud/core/raster.py: the footprint of one patch-grid
 * cell in a statistics raster. A raster is a rectangular numpy array, given
 * as its rows.
 */
module Raster {

  /** A numpy 2-D array: rows of equal width. */
  predicate Rectangular<T>(arr: seq<seq<T>>) {
    forall i :: 0 <= i < |arr| ==> |arr[i]| == Width(arr)
  }

  function Width<T>(arr: seq<seq<T>>): nat {
    if |arr| == 0 then 0 else |arr[0]|
  }

  /** A numpy slice bound that is never negative: past the end it stops at the end. */
  function Clamp(i: nat, n: nat): (r: nat)
    ensures r <= n && (i <= n ==> r == i)
  {
    if i <= n then i else n
  }

  /** `int(patch_size / ref_patch_size)` for positive sizes. */
  function Scale(patchSize: nat, refPatchSize: nat): nat
    requires refPatchSize > 0
  {
    patchSize / refPatchSize
  }

  /** `np_arr[lo:hi]` for non-negative bounds. */
  function Slice<T>(s: seq<T>, lo: nat, hi: nat): (r: seq<T>)
    ensures |r| == Clamp(hi, |s|) - Clamp(lo, Clamp(hi, |s|))
  {
    s[Clamp(lo, Clamp(hi, |s|))..Clamp(hi, |s|)]
  }

  /**
   * `get_sub_arr`: rows `scale*y .. scale*(y+1)` and columns `scale*x .. scale*(x+1)`
   * of `arr`, for the cell `(x, y)`, clipped to the array as numpy slices are.
   */
  function GetSubArr<T>(arr: seq<seq<T>>, x: nat, y: nat, patchSize: nat, refPatchSize: nat): (r: seq<seq<T>>)
    requires refPatchSize > 0
  {
    var s := Scale(patchSize, refPatchSize);
    var rows := Slice(arr, s * y, s * (y + 1));
    seq(|rows|, i requires 0 <= i < |rows| => Slice(rows[i], s * x, s * (x + 1)))
  }

  /** Row `i`, column `j` of the sub-array is row `scale*y + i`, column `scale*x + j` of the array. */
  lemma SubArrElements<T>(arr: seq<seq<T>>, x: nat, y: nat, patchSize: nat, refPatchSize: nat)
    requires refPatchSize > 0
    ensures var s := Scale(patchSize, refPatchSize);
            var r := GetSubArr(arr, x, y, patchSize, refPatchSize);
            |r| <= s &&
            forall i, j :: 0 <= i < |r| && 0 <= j < |r[i]| ==>
              s * y + i < |arr| && s * x + j < |arr[s * y + i]| && r[i][j] == arr[s * y + i][s * x + j]
  {
    var s := Scale(patchSize, refPatchSize);
    assert s * (y + 1) == s * y + s;
    assert s * (x + 1) == s * x + s;
  }

  /** A footprint that lies inside a rectangular array is `scale` x `scale`. */
  lemma SubArrInside<T>(arr: seq<seq<T>>, x: nat, y: nat, patchSize: nat, refPatchSize: nat)
    requires refPatchSize > 0 && Rectangular(arr)
    requires var s := Scale(patchSize, refPatchSize); s * (y + 1) <= |arr| && s * (x + 1) <= Width(arr)
    ensures var s := Scale(patchSize, refPatchSize);
            var r := GetSubArr(arr, x, y, patchSize, refPatchSize);
            |r| == s && forall i :: 0 <= i < |r| ==> |r[i]| == s
  {
    var s := Scale(patchSize, refPatchSize);
    assert s * (y + 1) == s * y + s;
    assert s * (x + 1) == s * x + s;
  }

  /** Array position `(row, col)` lies in the footprint of cell `(x, y)` at scale `s`. */
  predicate InFootprint(row: nat, col: nat, x: nat, y: nat, s: nat) {
    s * y <= row < s * (y + 1) && s * x <= col < s * (x + 1)
  }

  /** The cell whose footprint holds a coordinate is the coordinate divided by the scale. */
  lemma {:induction false} CellOf(c: nat, k: nat, s: nat)
    requires s * k <= c < s * (k + 1)
    ensures s > 0 && k == c / s
  {
    assert s * (k + 1) == s * k + s;
    var q, m := c / s, c % s;
    assert c == s * q + m && 0 <= m < s;
    assert k <= q by {
      if q < k { MulMono(s, q + 1, k); }
    }
    assert q <= k by {
      if q > k { MulMono(s, k + 1, q); }
    }
  }

  lemma MulMono(s: nat, a: nat, b: nat)
    requires a <= b
    ensures s * a <= s * b
  {
  }

  /** The footprints of two distinct cells never share an array position. */
  lemma FootprintsDisjoint(row: nat, col: nat, x1: nat, y1: nat, x2: nat, y2: nat, s: nat)
    requires InFootprint(row, col, x1, y1, s) && InFootprint(row, col, x2, y2, s)
    ensures x1 == x2 && y1 == y2
  {
    CellOf(row, y1, s);
    CellOf(row, y2, s);
    CellOf(col, x1, s);
    CellOf(col, x2, s);
  }

  /** Every position of a sub-array comes from the footprint of its cell. */
  lemma SubArrInFootprint<T>(arr: seq<seq<T>>, x: nat, y: nat, patchSize: nat, refPatchSize: nat, i: nat, j: nat)
    requires refPatchSize > 0
    requires var r := GetSubArr(arr, x, y, patchSize, refPatchSize); i < |r| && j < |r[i]|
    ensures InFootprint(Scale(patchSize, refPatchSize) * y + i, Scale(patchSize, refPatchSize) * x + j, x, y,
                        Scale(patchSize, refPatchSize))
  {
    SubArrElements(arr, x, y, patchSize, refPatchSize);
    var s := Scale(patchSize, refPatchSize);
    assert s * (y + 1) == s * y + s;
    assert s * (x + 1) == s * x + s;
  }
}
