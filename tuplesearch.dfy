/**
 * `TileHandler.tuple_search` of decloud/core/tile_io.py: for every cell of
 * the patch grid inside the ROI, one round per S2 image taken as reference,
 * which asks the cell's tree for the candidates of every slot of the
 * acquisition layout; the complete rounds get their S1 keys and are expanded
 * into the cartesian product of their candidates.
 */
module TupleSearch {
  import opened Wrappers
  import opened JsonData
  import opened SensingLayout
  import opened Raster
  import opened TileIndex
  import PyStr

  /** The exception `_filter` raises for a minimum cloud percentage that is neither a number nor "random...". */
  const MinCloudFormatError: string := "Exception"
  const RandomPrefix: string := "random"

  // ----- the ROI -----

  /**
   * `is_inside_roi` on a footprint of the ROI raster: false when it holds a
   * 0; `np.amin` raises on an empty footprint.
   */
  function RoiAllows(sub: Stats): (r: Result<bool>)
  {
    var e := Elements(sub);
    if |e| == 0 then Err(ValueError) else Ok(MinOf(e) != 0)
  }

  /** `is_inside_roi`: without an ROI every cell is inside. */
  function InsideRoi(roi: Option<Stats>, x: nat, y: nat, patchSize: nat): (r: Result<bool>)
    ensures roi.None? ==> r == Ok(true)
  {
    if roi.None? then Ok(true) else RoiAllows(Footprint(roi.value, x, y, patchSize))
  }

  /**
   * A footprint raises exactly when it is empty, and is refused exactly when
   * its smallest value is 0: it holds a 0 and nothing below 0.
   */
  lemma RoiAllowsMeaning(sub: Stats)
    ensures RoiAllows(sub).Err? <==> forall i :: 0 <= i < |sub| ==> |sub[i]| == 0
    ensures RoiAllows(sub) == Ok(false) <==>
              (exists i, j :: 0 <= i < |sub| && 0 <= j < |sub[i]| && sub[i][j] == 0) &&
              (forall i, j :: 0 <= i < |sub| && 0 <= j < |sub[i]| ==> sub[i][j] >= 0)
  {
    var e := Elements(sub);
    ElementsOf(sub);
    if |e| > 0 {
      var m := MinOf(e);
      var i0, j0 :| 0 <= i0 < |sub| && 0 <= j0 < |sub[i0]| && sub[i0][j0] == m;
      if m == 0 {
        forall i, j | 0 <= i < |sub| && 0 <= j < |sub[i]|
          ensures sub[i][j] >= 0
        {
          assert sub[i][j] in e;
        }
      } else if m < 0 {
        assert !(sub[i0][j0] >= 0);
      } else {
        forall i, j | 0 <= i < |sub| && 0 <= j < |sub[i]|
          ensures sub[i][j] != 0
        {
          assert sub[i][j] in e;
        }
      }
    }
  }

  /** A binary ROI (values 0 and 1) refuses a cell exactly when its footprint holds a 0. */
  lemma BinaryRoi(sub: Stats)
    requires forall i, j :: 0 <= i < |sub| && 0 <= j < |sub[i]| ==> sub[i][j] == 0 || sub[i][j] == 1
    ensures RoiAllows(sub) == Ok(false) <==> exists i, j :: 0 <= i < |sub| && 0 <= j < |sub[i]| && sub[i][j] == 0
  {
    RoiAllowsMeaning(sub);
  }

  // ----- `_filter` -----

  /**
   * The lower cloud bound of a slot: a "random..." expression gives the value
   * drawn for it, capped by the maximum (Python's `min` raises on a maximum
   * that is no number); a number (or bool) is taken as is.
   */
  function CloudMin(s2: S2Acquisition, cloudMax: Option<real>, drawn: real): (r: Result<real>)
    ensures r.Ok? <==> Numeric(s2.minCloudPercent).Some? ||
                       (s2.minCloudPercent.Str? && PyStr.StartsWith(s2.minCloudPercent.s, RandomPrefix) &&
                        cloudMax.Some?)
    ensures r.Ok? && Numeric(s2.minCloudPercent).None? ==> r.value <= cloudMax.value && r.value <= drawn
    ensures Numeric(s2.minCloudPercent).Some? ==> r == Ok(Numeric(s2.minCloudPercent).value)
  {
    match s2.minCloudPercent
    case Str(s) =>
      if !PyStr.StartsWith(s, RandomPrefix) then Err(MinCloudFormatError)
      else if cloudMax.None? then Err(TypeError)
      else Ok(Min(drawn, cloudMax.value))
    case Num(n) => Ok(n)
    case Bool(b) => Ok(if b then 1.0 else 0.0)
    case _ => Err(MinCloudFormatError)
  }

  /**
   * `_filter`: the S2 images of the cell's tree that satisfy slot `name` when
   * image `refTime` is the reference, by a `find_s2` query with validity 1.
   * `drawn` is the value a "random..." minimum evaluates to.
   */
  function Filter(tree: seq<(nat, Box)>, l: LayoutValue, name: string, refTime: real, drawn: real)
    : (r: Result<seq<nat>>)
  {
    var s2 :- GetS2(l, name);
    if s2.None? then Err(AttributeError)
    else
      var cloudMin :- CloudMin(s2.value, Numeric(s2.value.maxCloudPercent), drawn);
      var cloudMax :- Need(Numeric(s2.value.maxCloudPercent), TypeError);
      var range :- GetTimestampRange(l, name);
      var gap :- GetS1S2MaxTimestampDelta(l, name);
      Search(tree, refTime + range.0, refTime + range.1, cloudMin, cloudMax, 1.0, gap)
  }

  /** The bounds of the `find_s2` query `_filter` makes for a slot. */
  datatype Query = Query(timeLow: real, timeHigh: real, cloudMin: real, cloudMax: real, gapMax: real)

  /** The query of slot `name` around `refTime`, when the slot has everything `_filter` reads. */
  function SlotQuery(l: LayoutValue, name: string, refTime: real, drawn: real): Option<Query> {
    if name !in l.entries then None
    else
      var e := l.entries[name];
      if e.s2.None? || e.begin.None? || e.end.None? || e.maxGap.None? then None
      else
        var cloudMax := Numeric(e.s2.value.maxCloudPercent);
        var cloudMin := CloudMin(e.s2.value, cloudMax, drawn);
        if cloudMax.None? || cloudMin.Err? then None
        else
          Some(Query(refTime + e.begin.value, refTime + e.end.value, cloudMin.value, cloudMax.value,
                     if e.maxGap.value.None? then MaxDistance else e.maxGap.value.value))
  }

  /**
   * On the tree of a cell, `_filter` succeeds exactly when the slot has all it
   * reads and its query is not inverted, and then returns in increasing order
   * exactly the S2 images inside the slot's window around the reference,
   * within its cloud bounds, valid, and whose closest S1 image is within the
   * slot's gap.
   */
  lemma FilterExactly(d: TileData, x: nat, y: nat, l: LayoutValue, name: string, refTime: real, drawn: real)
    requires CellReady(d, x, y)
    ensures var r := Filter(TreeAt(d, x, y), l, name, refTime, drawn);
            var q := SlotQuery(l, name, refTime, drawn);
            (r.Ok? <==> q.Some? && q.value.timeLow <= q.value.timeHigh && q.value.cloudMin <= q.value.cloudMax &&
                        0.0 <= q.value.gapMax) &&
            (r.Ok? ==>
              (forall i: nat :: i in r.value <==>
                 i < |d.s2Times| &&
                 Matches(d, x, y, i, q.value.timeLow, q.value.timeHigh, q.value.cloudMin, q.value.cloudMax, 1.0,
                         q.value.gapMax)) &&
              (forall i, j :: 0 <= i < j < |r.value| ==> r.value[i] < r.value[j]))
  {
    var q := SlotQuery(l, name, refTime, drawn);
    if q.Some? {
      var e := l.entries[name];
      var cloudMax := Numeric(e.s2.value.maxCloudPercent).value;
      var cloudMin := CloudMin(e.s2.value, Some(cloudMax), drawn).value;
      FindS2Exactly(d, x, y, refTime + e.begin.value, refTime + e.end.value, cloudMin, cloudMax, 1.0, e.maxGap.value);
    }
  }

  // ----- one round -----

  /** The candidates of one round, as the insertion-ordered dict `acquisition_candidates`. */
  type Candidates = seq<(string, seq<nat>)>

  /** A Python value `idx in acquisition_candidates.values()` compares: an int or a list of ints. */
  datatype PyVal = PyInt(i: int) | PyList(items: seq<int>)

  function Keys(c: Candidates): (r: seq<string>)
    ensures |r| == |c| && forall k :: 0 <= k < |c| ==> r[k] == c[k].0
  {
    seq(|c|, k requires 0 <= k < |c| => c[k].0)
  }

  /** `acquisition_candidates.values()`: the candidate lists. */
  function Values(c: Candidates): (r: seq<PyVal>)
    ensures |r| == |c| && forall k :: 0 <= k < |c| ==> r[k] == PyList(c[k].1)
  {
    seq(|c|, k requires 0 <= k < |c| => PyList(c[k].1))
  }

  /** Python's `idx in acquisition_candidates.values()`: equality of an int with each value. */
  predicate InValues(idx: nat, c: Candidates) {
    PyInt(idx) in Values(c)
  }

  /** `ret.remove(idx)`: drops the first occurrence. */
  function RemoveFirst(s: seq<nat>, v: nat): (r: seq<nat>)
    ensures v in s ==> |r| == |s| - 1 && multiset(r) == multiset(s) - multiset{v}
    ensures v !in s ==> r == s
  {
    if |s| == 0 then s
    else if s[0] == v then
      assert s == [s[0]] + s[1..];
      s[1..]
    else
      assert s == [s[0]] + s[1..];
      [s[0]] + RemoveFirst(s[1..], v)
  }

  /**
   * The de-duplication test of a round: the reference image is removed from
   * the slot's list when it is there, the slot is no sibling of the slots
   * already filled, and it is among the values already stored.
   */
  function Dedup(l: LayoutValue, c: Candidates, name: string, idx: nat, ret: seq<nat>): (r: Result<seq<nat>>)
  {
    if idx in ret then
      var siblings :- IsSiblings(l, Keys(c), name);
      if !siblings && InValues(idx, c) then Ok(RemoveFirst(ret, idx)) else Ok(ret)
    else Ok(ret)
  }

  /**
   * The values are lists and an int never equals a list, so the test never
   * holds and the list comes back whole; it fails only where `is_siblings`
   * raises.
   */
  lemma DedupNeverRemoves(l: LayoutValue, c: Candidates, name: string, idx: nat, ret: seq<nat>)
    ensures !InValues(idx, c)
    ensures Dedup(l, c, name, idx, ret).Ok? ==> Dedup(l, c, name, idx, ret).value == ret
    ensures Dedup(l, c, name, idx, ret).Err? <==> idx in ret && IsSiblings(l, Keys(c), name).Err?
  {
    assert forall k :: 0 <= k < |Values(c)| ==> Values(c)[k].PyList?;
  }

  /**
   * The round for reference image `idx`, from slot k on with candidates `c`:
   * each slot's `_filter` list, de-duplicated, is stored when non-empty; the
   * first empty one ends the round.
   */
  function RoundFrom(tree: seq<(nat, Box)>, l: LayoutValue, pos: Pos, idx: nat, refTime: real,
                     draw: (Pos, nat, string) -> real, k: nat, c: Candidates): (r: Result<Candidates>)
    requires k <= |l.names|
    decreases |l.names| - k
  {
    if k == |l.names| then Ok(c)
    else
      var name := l.names[k];
      var ret :- Filter(tree, l, name, refTime, draw(pos, idx, name));
      var kept :- Dedup(l, c, name, idx, ret);
      if |kept| == 0 then Ok(c) else RoundFrom(tree, l, pos, idx, refTime, draw, k + 1, c + [(name, kept)])
  }

  function Round(tree: seq<(nat, Box)>, l: LayoutValue, pos: Pos, idx: nat, refTime: real,
                 draw: (Pos, nat, string) -> real): Result<Candidates>
  {
    RoundFrom(tree, l, pos, idx, refTime, draw, 0, [])
  }

  /**
   * A round fills the slots in layout order with their non-empty `_filter`
   * lists, unchanged, and stops at the first slot whose list is empty.
   */
  /** The slots of `s` are the layout's first ones, in order, each with its non-empty `_filter` list. */
  predicate FilteredSlots(tree: seq<(nat, Box)>, l: LayoutValue, pos: Pos, idx: nat, refTime: real,
                          draw: (Pos, nat, string) -> real, s: Candidates)
  {
    |s| <= |l.names| &&
    forall m :: 0 <= m < |s| ==>
      s[m].0 == l.names[m] && |s[m].1| > 0 &&
      Filter(tree, l, l.names[m], refTime, draw(pos, idx, l.names[m])) == Ok(s[m].1)
  }

  lemma FilteredSlotsSnoc(tree: seq<(nat, Box)>, l: LayoutValue, pos: Pos, idx: nat, refTime: real,
                          draw: (Pos, nat, string) -> real, c: Candidates, ret: seq<nat>)
    requires FilteredSlots(tree, l, pos, idx, refTime, draw, c) && |c| < |l.names| && |ret| > 0
    requires Filter(tree, l, l.names[|c|], refTime, draw(pos, idx, l.names[|c|])) == Ok(ret)
    ensures FilteredSlots(tree, l, pos, idx, refTime, draw, c + [(l.names[|c|], ret)])
  {
  }

  lemma {:induction false} RoundFromShape(tree: seq<(nat, Box)>, l: LayoutValue, pos: Pos, idx: nat, refTime: real,
                                          draw: (Pos, nat, string) -> real, k: nat, c: Candidates)
    requires k <= |l.names| && |c| == k && FilteredSlots(tree, l, pos, idx, refTime, draw, c)
    ensures var r := RoundFrom(tree, l, pos, idx, refTime, draw, k, c);
            r.Ok? ==>
              k <= |r.value| && r.value[..k] == c && FilteredSlots(tree, l, pos, idx, refTime, draw, r.value) &&
              (|r.value| < |l.names| ==>
                 Filter(tree, l, l.names[|r.value|], refTime, draw(pos, idx, l.names[|r.value|])) == Ok([]))
    decreases |l.names| - k
  {
    if k < |l.names| {
      var name := l.names[k];
      var ret := Filter(tree, l, name, refTime, draw(pos, idx, name));
      if ret.Ok? {
        DedupNeverRemoves(l, c, name, idx, ret.value);
        var kept := Dedup(l, c, name, idx, ret.value);
        if kept.Ok? && |kept.value| > 0 {
          var c' := c + [(name, kept.value)];
          FilteredSlotsSnoc(tree, l, pos, idx, refTime, draw, c, ret.value);
          RoundFromShape(tree, l, pos, idx, refTime, draw, k + 1, c');
          var r := RoundFrom(tree, l, pos, idx, refTime, draw, k + 1, c');
          assert RoundFrom(tree, l, pos, idx, refTime, draw, k, c) == r;
          if r.Ok? {
            assert r.value[..k] == r.value[..k + 1][..k];
          }
        } else if kept.Ok? {
          assert RoundFrom(tree, l, pos, idx, refTime, draw, k, c) == Ok(c);
        }
      }
    }
  }

  /** A round is complete when every slot of the layout got candidates. */
  predicate Complete(l: LayoutValue, c: Candidates) {
    |c| == |l.names|
  }

  /**
   * A round that succeeds is complete exactly when every slot's `_filter` list
   * is non-empty, and a complete round holds every slot, in layout order, with
   * its `_filter` list unchanged.
   */
  lemma RoundMeaning(tree: seq<(nat, Box)>, l: LayoutValue, pos: Pos, idx: nat, refTime: real,
                     draw: (Pos, nat, string) -> real)
    ensures var r := Round(tree, l, pos, idx, refTime, draw);
            r.Ok? ==>
              (Complete(l, r.value) <==>
                 forall m :: 0 <= m < |l.names| ==>
                   Filter(tree, l, l.names[m], refTime, draw(pos, idx, l.names[m])).Ok? &&
                   |Filter(tree, l, l.names[m], refTime, draw(pos, idx, l.names[m])).value| > 0) &&
              (Complete(l, r.value) ==>
                 forall m :: 0 <= m < |l.names| ==>
                   r.value[m] == (l.names[m], Filter(tree, l, l.names[m], refTime, draw(pos, idx, l.names[m])).value))
  {
    RoundFromShape(tree, l, pos, idx, refTime, draw, 0, []);
  }

  // ----- the rounds of one cell (`collect`) -----

  /**
   * The rounds `collect` keeps from a sequence of round outcomes: the
   * complete ones, in order; the first exception ends it.
   */
  function KeepComplete(results: seq<Result<Candidates>>, width: nat): (r: Result<seq<Candidates>>)
  {
    if |results| == 0 then Ok([])
    else
      var prev :- KeepComplete(results[..|results| - 1], width);
      var c :- results[|results| - 1];
      Ok(if |c| == width then prev + [c] else prev)
  }

  /** A round that raises ends `collect` with its exception. */
  lemma {:induction false} KeepCompleteSticks(results: seq<Result<Candidates>>, width: nat, m: nat, n: nat)
    requires m <= n <= |results| && KeepComplete(results[..m], width).Err?
    ensures KeepComplete(results[..n], width) == KeepComplete(results[..m], width)
    decreases n
  {
    if m < n {
      KeepCompleteSticks(results, width, m, n - 1);
      assert results[..n][..n - 1] == results[..n - 1];
    }
  }

  /** One more round result: its candidates are kept when complete, or its exception ends the cell. */
  lemma KeepCompleteStep(results: seq<Result<Candidates>>, width: nat, idx: nat, rounds: seq<Candidates>)
    requires idx < |results| && KeepComplete(results[..idx], width) == Ok(rounds)
    ensures results[idx].Ok? ==>
              KeepComplete(results[..idx + 1], width) ==
                Ok(if |results[idx].value| == width then rounds + [results[idx].value] else rounds)
    ensures results[idx].Err? ==> KeepComplete(results, width) == Err(results[idx].msg)
  {
    assert results[..idx + 1][..idx] == results[..idx];
    if results[idx].Err? {
      KeepCompleteSticks(results, width, idx + 1, |results|);
      assert results[..|results|] == results;
    }
  }

  /**
   * Without an exception every round succeeded, and the rounds kept are, in
   * order, exactly the complete ones.
   */
  lemma {:induction false} KeepCompleteMeaning(results: seq<Result<Candidates>>, width: nat)
    ensures var r := KeepComplete(results, width);
            r.Ok? ==>
              (forall i :: 0 <= i < |results| ==> results[i].Ok?) &&
              (forall c :: c in r.value <==> Ok(c) in results && |c| == width)
  {
    if |results| > 0 {
      var front := results[..|results| - 1];
      KeepCompleteMeaning(front, width);
      assert results == front + [results[|results| - 1]];
      forall c | Ok(c) in results
        ensures Ok(c) in front || Ok(c) == results[|results| - 1]
      {
      }
    }
  }

  /** The outcome of the round of every S2 image of a cell, taken as reference. */
  function RoundResults(tree: seq<(nat, Box)>, l: LayoutValue, pos: Pos, s2Times: seq<real>,
                        draw: (Pos, nat, string) -> real): (r: seq<Result<Candidates>>)
    ensures |r| == |s2Times| &&
            forall i :: 0 <= i < |s2Times| ==> r[i] == Round(tree, l, pos, i, s2Times[i], draw)
  {
    seq(|s2Times|, i requires 0 <= i < |s2Times| => Round(tree, l, pos, i, s2Times[i], draw))
  }

  /** The complete rounds of a cell, one per reference image that completes one. */
  function CellRounds(tree: seq<(nat, Box)>, l: LayoutValue, pos: Pos, s2Times: seq<real>,
                      draw: (Pos, nat, string) -> real): Result<seq<Candidates>>
  {
    KeepComplete(RoundResults(tree, l, pos, s2Times, draw), |l.names|)
  }

  /**
   * When `collect` succeeds on a cell, its rounds are exactly the complete
   * rounds of its reference images.
   */
  lemma CellRoundsMeaning(tree: seq<(nat, Box)>, l: LayoutValue, pos: Pos, s2Times: seq<real>,
                          draw: (Pos, nat, string) -> real)
    ensures var r := CellRounds(tree, l, pos, s2Times, draw);
            r.Ok? ==>
              (forall idx :: 0 <= idx < |s2Times| ==> Round(tree, l, pos, idx, s2Times[idx], draw).Ok?) &&
              (forall c :: c in r.value <==>
                 Complete(l, c) && exists idx :: 0 <= idx < |s2Times| && Round(tree, l, pos, idx, s2Times[idx], draw) == Ok(c))
  {
    var results := RoundResults(tree, l, pos, s2Times, draw);
    KeepCompleteMeaning(results, |l.names|);
    forall c
      ensures Ok(c) in results <==> exists idx :: 0 <= idx < |s2Times| && Round(tree, l, pos, idx, s2Times[idx], draw) == Ok(c)
    {
      if Ok(c) in results {
        var idx :| 0 <= idx < |results| && results[idx] == Ok(c);
      }
    }
  }

  /** What `collect` adds for one cell: nothing outside the ROI, otherwise the cell and its complete rounds. */
  function CellEntry(tree: seq<(nat, Box)>, l: LayoutValue, roi: Option<Stats>, patchSize: nat, s2Times: seq<real>,
                     draw: (Pos, nat, string) -> real, pos: Pos): (r: Result<seq<(Pos, seq<Candidates>)>>)
    ensures r.Ok? ==> |r.value| <= 1 && forall k :: 0 <= k < |r.value| ==> r.value[k].0 == pos
  {
    var inside :- InsideRoi(roi, pos.0, pos.1, patchSize);
    if !inside then Ok([])
    else
      var rounds :- CellRounds(tree, l, pos, s2Times, draw);
      Ok([(pos, rounds)])
  }

  // ----- the grid (`for_each_pos(collect)`) -----

  /** Cell p comes strictly before cell q in `for_each_pos` order. */
  predicate Before(p: Pos, q: Pos) {
    p.0 < q.0 || (p.0 == q.0 && p.1 < q.1)
  }

  /** The keys of an ordered dict of cells follow `for_each_pos` order, so none is listed twice. */
  predicate Ordered<X>(s: seq<(Pos, X)>) {
    forall k1, k2 :: 0 <= k1 < k2 < |s| ==> Before(s[k1].0, s[k2].0)
  }

  /** `for_each_pos` order: cell (i, j) comes before cell (x, y), or is it. */
  predicate NotAfter(i: nat, j: nat, x: nat, y: nat) {
    i < x || (i == x && j <= y)
  }

  /**
   * The entries a per-cell step adds to an ordered dict, run on the cells
   * before (x, y) in `for_each_pos` order; the first exception ends it.
   */
  function Scan<X>(gy: nat, cell: Pos -> Result<seq<(Pos, X)>>, x: nat, y: nat): (r: Result<seq<(Pos, X)>>)
    requires y <= gy
    decreases x, y
  {
    if y == 0 then
      (if x == 0 then Ok([]) else Scan(gy, cell, x - 1, gy))
    else
      var prev :- Scan(gy, cell, x, y - 1);
      var c :- cell((x, y - 1));
      Ok(prev + c)
  }

  /** An exception at one cell is the outcome of every later prefix. */
  lemma {:induction false} ScanSticks<X>(gy: nat, cell: Pos -> Result<seq<(Pos, X)>>, x: nat, y: nat, x2: nat, y2: nat)
    requires y <= gy && y2 <= gy && NotAfter(x, y, x2, y2) && Scan(gy, cell, x, y).Err?
    ensures Scan(gy, cell, x2, y2) == Scan(gy, cell, x, y)
    decreases x2, y2
  {
    if (x, y) != (x2, y2) {
      if y2 == 0 {
        ScanSticks(gy, cell, x, y, x2 - 1, gy);
      } else {
        ScanSticks(gy, cell, x, y, x2, y2 - 1);
      }
    }
  }

  /** A step that adds at most one entry, keyed by its own cell. */
  ghost predicate KeyedByCell<X>(cell: Pos -> Result<seq<(Pos, X)>>) {
    forall p: Pos :: cell(p).Ok? ==> |cell(p).value| <= 1 && forall k :: 0 <= k < |cell(p).value| ==> cell(p).value[k].0 == p
  }

  /** Every entry comes from a visited cell, and is what that cell's step added. */
  lemma {:induction false} ScanEntries<X>(gy: nat, cell: Pos -> Result<seq<(Pos, X)>>, x: nat, y: nat)
    requires y <= gy && KeyedByCell(cell)
    ensures var r := Scan(gy, cell, x, y);
            r.Ok? ==>
              forall k :: 0 <= k < |r.value| ==>
                Visited(gy, x, y, r.value[k].0.0, r.value[k].0.1) && cell(r.value[k].0) == Ok([r.value[k]])
    decreases x, y
  {
    if y == 0 {
      if x > 0 {
        ScanEntries(gy, cell, x - 1, gy);
      }
    } else {
      ScanEntries(gy, cell, x, y - 1);
      var r := Scan(gy, cell, x, y);
      if r.Ok? {
        var prev := Scan(gy, cell, x, y - 1).value;
        var c := cell((x, y - 1)).value;
        assert r.value == prev + c;
        forall k | 0 <= k < |r.value|
          ensures Visited(gy, x, y, r.value[k].0.0, r.value[k].0.1) && cell(r.value[k].0) == Ok([r.value[k]])
        {
          if k >= |prev| {
            assert c == [r.value[k]];
          } else {
            assert r.value[k] == prev[k];
          }
        }
      }
    }
  }

  /** Some entry of `s` is for cell `p`. */
  predicate Listed<X>(s: seq<(Pos, X)>, p: Pos) {
    exists k :: 0 <= k < |s| && s[k].0 == p
  }

  /** Entries appended for cell q do not list any other cell p. */
  lemma ListedBefore<X>(prev: seq<(Pos, X)>, c: seq<(Pos, X)>, p: Pos, q: Pos)
    requires p != q && forall k :: 0 <= k < |c| ==> c[k].0 == q
    ensures Listed(prev + c, p) <==> Listed(prev, p)
  {
    if k :| 0 <= k < |prev + c| && (prev + c)[k].0 == p {
      assert k < |prev|;
    }
    if k :| 0 <= k < |prev| && prev[k].0 == p {
      assert (prev + c)[k].0 == p;
    }
  }

  /** Every visited cell's step succeeded, and its cell is listed exactly when the step added an entry. */
  lemma {:induction false} ScanCovers<X>(gy: nat, cell: Pos -> Result<seq<(Pos, X)>>, x: nat, y: nat)
    requires y <= gy && KeyedByCell(cell)
    ensures var r := Scan(gy, cell, x, y);
            r.Ok? ==>
              forall i: nat, j: nat :: Visited(gy, x, y, i, j) ==>
                cell((i, j)).Ok? && (|cell((i, j)).value| == 1 <==> Listed(r.value, (i, j)))
    decreases x, y
  {
    if y == 0 {
      if x > 0 {
        ScanCovers(gy, cell, x - 1, gy);
      }
    } else {
      ScanCovers(gy, cell, x, y - 1);
      ScanEntries(gy, cell, x, y - 1);
      var r := Scan(gy, cell, x, y);
      if r.Ok? {
        var prev := Scan(gy, cell, x, y - 1).value;
        var c := cell((x, y - 1)).value;
        assert r.value == prev + c;
        forall i: nat, j: nat | Visited(gy, x, y, i, j)
          ensures |cell((i, j)).value| == 1 <==> Listed(r.value, (i, j))
        {
          if (i, j) == (x, y - 1) {
            if |c| == 1 {
              assert r.value[|prev|].0 == (i, j);
            } else {
              assert r.value == prev;
            }
          } else {
            ListedBefore(prev, c, (i, j), (x, y - 1));
          }
        }
      }
    }
  }

  /** The entries follow `for_each_pos` order, so no cell is listed twice. */
  lemma {:induction false} ScanOrdered<X>(gy: nat, cell: Pos -> Result<seq<(Pos, X)>>, x: nat, y: nat)
    requires y <= gy && KeyedByCell(cell)
    ensures var r := Scan(gy, cell, x, y);
            r.Ok? ==>
              Ordered(r.value)
    decreases x, y
  {
    if y == 0 {
      if x > 0 {
        ScanOrdered(gy, cell, x - 1, gy);
      }
    } else {
      ScanOrdered(gy, cell, x, y - 1);
      ScanEntries(gy, cell, x, y - 1);
      var r := Scan(gy, cell, x, y);
      if r.Ok? {
        var prev := Scan(gy, cell, x, y - 1).value;
        var c := cell((x, y - 1)).value;
        assert r.value == prev + c;
        forall k1, k2 | 0 <= k1 < k2 < |r.value|
          ensures Before(r.value[k1].0, r.value[k2].0)
        {
          if k2 >= |prev| {
            assert r.value[k2].0 == (x, y - 1);
            assert Visited(gy, x, y - 1, prev[k1].0.0, prev[k1].0.1);
          }
        }
      }
    }
  }

  /** The step `collect` makes at cell `pos` of the tile. */
  function CollectAt(d: TileData, l: LayoutValue, roi: Option<Stats>, draw: (Pos, nat, string) -> real, pos: Pos)
    : Result<seq<(Pos, seq<Candidates>)>>
    requires WellFormed(d)
  {
    CellEntry(TreeAt(d, pos.0, pos.1), l, roi, d.patchSize, d.s2Times, draw, pos)
  }

  /** `acquisition_candidates_grid` after `collect` has run on the cells before (x, y) in `for_each_pos` order. */
  function CollectUpTo(d: TileData, l: LayoutValue, roi: Option<Stats>, draw: (Pos, nat, string) -> real,
                       x: nat, y: nat): Result<seq<(Pos, seq<Candidates>)>>
    requires Gridded(d) && y <= GridY(d)
  {
    Scan(GridY(d), CollectFn(d, l, roi, draw), x, y)
  }

  /** `collect`, cell by cell. */
  function CollectFn(d: TileData, l: LayoutValue, roi: Option<Stats>, draw: (Pos, nat, string) -> real)
    : Pos -> Result<seq<(Pos, seq<Candidates>)>>
    requires WellFormed(d)
  {
    (p: Pos) => CollectAt(d, l, roi, draw, p)
  }

  /** `collect` adds cell `pos` with rounds `rounds` exactly when the cell is inside the ROI and those are its complete rounds. */
  lemma CollectAtMeaning(d: TileData, l: LayoutValue, roi: Option<Stats>, draw: (Pos, nat, string) -> real, pos: Pos,
                         rounds: seq<Candidates>)
    requires WellFormed(d)
    ensures CollectAt(d, l, roi, draw, pos) == Ok([(pos, rounds)]) <==>
              InsideRoi(roi, pos.0, pos.1, d.patchSize) == Ok(true) &&
              CellRounds(TreeAt(d, pos.0, pos.1), l, pos, d.s2Times, draw) == Ok(rounds)
    ensures CollectAt(d, l, roi, draw, pos).Ok? ==>
              (|CollectAt(d, l, roi, draw, pos).value| == 1 <==> InsideRoi(roi, pos.0, pos.1, d.patchSize) == Ok(true))
  {
  }

  /**
   * The candidates grid lists, in `for_each_pos` order and once each, exactly
   * the visited cells `collect` adds: those whose ROI footprint lets them in.
   */
  lemma CollectUpToCells(d: TileData, l: LayoutValue, roi: Option<Stats>, draw: (Pos, nat, string) -> real, x: nat, y: nat)
    requires Gridded(d) && y <= GridY(d)
    ensures var r := CollectUpTo(d, l, roi, draw, x, y);
            r.Ok? ==>
              (forall k :: 0 <= k < |r.value| ==>
                 Visited(GridY(d), x, y, r.value[k].0.0, r.value[k].0.1) &&
                 CollectAt(d, l, roi, draw, r.value[k].0) == Ok([r.value[k]])) &&
              (forall i: nat, j: nat :: Visited(GridY(d), x, y, i, j) ==>
                 InsideRoi(roi, i, j, d.patchSize).Ok? &&
                 (InsideRoi(roi, i, j, d.patchSize).value <==> exists k :: 0 <= k < |r.value| && r.value[k].0 == (i, j))) &&
              Ordered(r.value)
  {
    var cell := CollectFn(d, l, roi, draw);
    assert KeyedByCell(cell);
    ScanEntries(GridY(d), cell, x, y);
    ScanCovers(GridY(d), cell, x, y);
    ScanOrdered(GridY(d), cell, x, y);
    forall i: nat, j: nat | Visited(GridY(d), x, y, i, j) && CollectUpTo(d, l, roi, draw, x, y).Ok?
      ensures InsideRoi(roi, i, j, d.patchSize).Ok? &&
              (InsideRoi(roi, i, j, d.patchSize).value <==> |CollectAt(d, l, roi, draw, (i, j)).value| == 1)
    {
      CollectAtMeaning(d, l, roi, draw, (i, j), []);
    }
  }

  // ----- the "s1" key (`candidates_grid`) -----

  /** An entry `{"s2": v}`, with `"s1"` when the slot has an S1 key and image v a closest S1 image. */
  datatype Pick = Pick(s2: nat, s1: Option<int>)

  /** A round with its entries, as the insertion-ordered dict `new_candidate`. */
  type Keyed = seq<(string, seq<Pick>)>

  /** The slot has an S1 key (`has_s1_acquisition`); the slots of a round are all in the layout. */
  predicate S1Slot(l: LayoutValue, key: string) {
    HasS1(l, key) == Ok(true)
  }

  /** The entry of S2 image v in slot `key`, given the cell's closest-S1 table. */
  function PickOf(l: LayoutValue, closest: map<nat, Closest>, key: string, v: nat): (r: Pick)
  {
    if S1Slot(l, key) && v in closest then Pick(v, Some(closest[v].index)) else Pick(v, None)
  }

  /** `new_val`: one entry per candidate of the slot, in order. */
  function SlotPicks(l: LayoutValue, closest: map<nat, Closest>, key: string, vs: seq<nat>): (r: seq<Pick>)
    ensures |r| == |vs| && forall m :: 0 <= m < |vs| ==> r[m] == PickOf(l, closest, key, vs[m])
  {
    seq(|vs|, m requires 0 <= m < |vs| => PickOf(l, closest, key, vs[m]))
  }

  /** `new_candidate`: every slot of the round with its entries. */
  function KeyedCandidate(l: LayoutValue, closest: map<nat, Closest>, c: Candidates): (r: Keyed)
    ensures |r| == |c| && forall k :: 0 <= k < |c| ==> r[k] == (c[k].0, SlotPicks(l, closest, c[k].0, c[k].1))
  {
    seq(|c|, k requires 0 <= k < |c| => (c[k].0, SlotPicks(l, closest, c[k].0, c[k].1)))
  }

  /** The rounds of a cell with their entries. */
  function KeyedRounds(l: LayoutValue, closest: map<nat, Closest>, rounds: seq<Candidates>): (r: seq<Keyed>)
    ensures |r| == |rounds| && forall j :: 0 <= j < |rounds| ==> r[j] == KeyedCandidate(l, closest, rounds[j])
  {
    seq(|rounds|, j requires 0 <= j < |rounds| => KeyedCandidate(l, closest, rounds[j]))
  }

  /** The entry v gets: image v itself, and its closest S1 image exactly when the slot has S1 and there is one. */
  lemma PickOfMeaning(l: LayoutValue, closest: map<nat, Closest>, key: string, v: nat)
    ensures PickOf(l, closest, key, v).s2 == v
    ensures PickOf(l, closest, key, v).s1.Some? <==> key in l.entries && l.entries[key].s1.Some? && v in closest
    ensures PickOf(l, closest, key, v).s1.Some? ==> PickOf(l, closest, key, v).s1.value == closest[v].index
  {
  }

  /** A cell of the candidates grid with its rounds keyed by the cell's closest-S1 table (`self.closest_s1[pos]`). */
  function KeyedEntry(l: LayoutValue, closest: Pos -> map<nat, Closest>, g: (Pos, seq<Candidates>)): (Pos, seq<Keyed>)
  {
    (g.0, KeyedRounds(l, closest(g.0), g.1))
  }

  /**
   * `candidates_grid`: the cells of the candidates grid that have at least one
   * complete round, in the same order, keyed.
   */
  function KeyedGrid(l: LayoutValue, closest: Pos -> map<nat, Closest>, grid: seq<(Pos, seq<Candidates>)>)
    : (r: seq<(Pos, seq<Keyed>)>)
  {
    if |grid| == 0 then []
    else
      var last := grid[|grid| - 1];
      KeyedGrid(l, closest, grid[..|grid| - 1]) + (if |last.1| == 0 then [] else [KeyedEntry(l, closest, last)])
  }

  /** Every cell with a complete round is in the keyed grid, keyed. */
  lemma {:induction false} KeyedGridCovers(l: LayoutValue, closest: Pos -> map<nat, Closest>, grid: seq<(Pos, seq<Candidates>)>)
    ensures forall g :: g in grid && |g.1| > 0 ==> KeyedEntry(l, closest, g) in KeyedGrid(l, closest, grid)
  {
    if |grid| > 0 {
      var front, last := grid[..|grid| - 1], grid[|grid| - 1];
      KeyedGridCovers(l, closest, front);
      assert grid == front + [last];
      forall g | g in grid && |g.1| > 0
        ensures KeyedEntry(l, closest, g) in KeyedGrid(l, closest, grid)
      {
        if g in front {
          assert KeyedEntry(l, closest, g) in KeyedGrid(l, closest, front);
        }
      }
    }
  }

  /** Every entry of the keyed grid is a cell with a complete round, keyed. */
  lemma {:induction false} KeyedGridEntries(l: LayoutValue, closest: Pos -> map<nat, Closest>, grid: seq<(Pos, seq<Candidates>)>)
    ensures forall e :: e in KeyedGrid(l, closest, grid) ==> exists g :: g in grid && |g.1| > 0 && e == KeyedEntry(l, closest, g)
  {
    if |grid| > 0 {
      var front, last := grid[..|grid| - 1], grid[|grid| - 1];
      KeyedGridEntries(l, closest, front);
      assert grid == front + [last];
      forall e | e in KeyedGrid(l, closest, grid)
        ensures exists g :: g in grid && |g.1| > 0 && e == KeyedEntry(l, closest, g)
      {
        if e in KeyedGrid(l, closest, front) {
          var g :| g in front && |g.1| > 0 && e == KeyedEntry(l, closest, g);
          assert g in grid;
        } else {
          assert e == KeyedEntry(l, closest, last) && last in grid;
        }
      }
    }
  }

  /** The keyed grid keeps the order of the candidates grid. */
  lemma {:induction false} KeyedGridOrdered(l: LayoutValue, closest: Pos -> map<nat, Closest>, grid: seq<(Pos, seq<Candidates>)>)
    requires Ordered(grid)
    ensures Ordered(KeyedGrid(l, closest, grid))
  {
    if |grid| > 0 {
      var front, last := grid[..|grid| - 1], grid[|grid| - 1];
      assert Ordered(front);
      KeyedGridOrdered(l, closest, front);
      KeyedGridEntries(l, closest, front);
      var prev := KeyedGrid(l, closest, front);
      if |last.1| > 0 {
        forall k | 0 <= k < |prev|
          ensures Before(prev[k].0, last.0)
        {
          assert prev[k] in prev;
          var g :| g in front && |g.1| > 0 && prev[k] == KeyedEntry(l, closest, g);
          var j :| 0 <= j < |front| && front[j] == g;
          assert grid[j] == g;
        }
      }
    }
  }

  // ----- the cartesian product (`tuples_grid`) -----

  /** Every tail with `p` in front of it. */
  function Prepend<T>(p: T, tails: seq<seq<T>>): (r: seq<seq<T>>)
    ensures |r| == |tails| && forall m :: 0 <= m < |tails| ==> r[m] == [p] + tails[m]
  {
    seq(|tails|, m requires 0 <= m < |tails| => [p] + tails[m])
  }

  /** Every head in front of every tail, the head varying slowest. */
  function ProductWith<T>(heads: seq<T>, tails: seq<seq<T>>): seq<seq<T>>
  {
    if |heads| == 0 then [] else Prepend(heads[0], tails) + ProductWith(heads[1..], tails)
  }

  /** `itertools.product(*lists)`: one choice per list, the first list varying slowest. */
  function Product<T>(lists: seq<seq<T>>): seq<seq<T>>
  {
    if |lists| == 0 then [[]] else ProductWith(lists[0], Product(lists[1..]))
  }

  /** The product of the lengths of the lists. */
  function Size<T>(lists: seq<seq<T>>): nat
  {
    if |lists| == 0 then 1 else |lists[0]| * Size(lists[1..])
  }

  /** The sequences of `Prepend(p, tails)` are those with head p and a tail among `tails`. */
  lemma PrependMembers<T>(p: T, tails: seq<seq<T>>)
    ensures forall t :: t in Prepend(p, tails) <==> |t| > 0 && t[0] == p && t[1..] in tails
  {
    forall t
      ensures t in Prepend(p, tails) <==> |t| > 0 && t[0] == p && t[1..] in tails
    {
      if t in Prepend(p, tails) {
        var m :| 0 <= m < |tails| && Prepend(p, tails)[m] == t;
        assert t[1..] == tails[m];
      }
      if |t| > 0 && t[0] == p && t[1..] in tails {
        var m :| 0 <= m < |tails| && tails[m] == t[1..];
        assert t == [p] + tails[m];
        assert Prepend(p, tails)[m] == t;
      }
    }
  }

  lemma {:induction false} ProductWithMembers<T>(heads: seq<T>, tails: seq<seq<T>>)
    ensures |ProductWith(heads, tails)| == |heads| * |tails|
    ensures forall t :: t in ProductWith(heads, tails) <==> |t| > 0 && t[0] in heads && t[1..] in tails
  {
    if |heads| > 0 {
      var rest := heads[1..];
      ProductWithMembers(rest, tails);
      PrependMembers(heads[0], tails);
      assert ProductWith(heads, tails) == Prepend(heads[0], tails) + ProductWith(rest, tails);
      assert heads == [heads[0]] + rest;
      assert forall x :: x in heads <==> x == heads[0] || x in rest;
      MulSucc(|rest|, |tails|);
    }
  }

  lemma MulSucc(a: nat, b: nat)
    ensures (a + 1) * b == b + a * b
  {
  }

  /**
   * The product holds, once per combination, exactly the sequences that take
   * one element from every list, in order: there are as many as the product
   * of the lengths.
   */
  lemma {:induction false} ProductMembers<T>(lists: seq<seq<T>>)
    ensures |Product(lists)| == Size(lists)
    ensures forall t :: t in Product(lists) <==> |t| == |lists| && forall k :: 0 <= k < |lists| ==> t[k] in lists[k]
  {
    if |lists| > 0 {
      var rest := Product(lists[1..]);
      ProductMembers(lists[1..]);
      ProductWithMembers(lists[0], rest);
      forall t
        ensures t in Product(lists) <==> |t| == |lists| && forall k :: 0 <= k < |lists| ==> t[k] in lists[k]
      {
        if |t| == |lists| && |t| > 0 {
          assert forall k :: 1 <= k < |lists| ==> t[k] == t[1..][k - 1];
          assert forall k :: 0 <= k < |lists| - 1 ==> t[1..][k] == t[k + 1] && lists[1..][k] == lists[k + 1];
        }
      }
    }
  }

  /** A tuple: every slot of the layout with the entry chosen for it (`dict(zip(index, x))`). */
  type Tuple = seq<(string, Pick)>

  /** `zip`: pairs up to the shorter of the two. */
  function Zip<A, B>(a: seq<A>, b: seq<B>): (r: seq<(A, B)>)
    ensures |r| == if |a| <= |b| then |a| else |b|
    ensures forall k :: 0 <= k < |r| ==> r[k] == (a[k], b[k])
  {
    var n := if |a| <= |b| then |a| else |b|;
    seq(n, k requires 0 <= k < n => (a[k], b[k]))
  }

  /** The entry lists of a keyed round, in slot order (`candidate.values()`). */
  function EntryLists(k: Keyed): (r: seq<seq<Pick>>)
    ensures |r| == |k| && forall m :: 0 <= m < |k| ==> r[m] == k[m].1
  {
    seq(|k|, m requires 0 <= m < |k| => k[m].1)
  }

  /** The tuples of one keyed round. */
  function RoundTuples(l: LayoutValue, k: Keyed): (r: seq<Tuple>)
  {
    var p := Product(EntryLists(k));
    seq(|p|, m requires 0 <= m < |p| => Zip(l.names, p[m]))
  }

  /** The tuples of a cell: those of its rounds, round after round. */
  function CellTuples(l: LayoutValue, rounds: seq<Keyed>): seq<Tuple>
  {
    if |rounds| == 0 then [] else CellTuples(l, rounds[..|rounds| - 1]) + RoundTuples(l, rounds[|rounds| - 1])
  }

  /** `tuples_grid`: every cell of the keyed grid with its tuples, in the same order. */
  function TuplesGrid(l: LayoutValue, grid: seq<(Pos, seq<Keyed>)>): (r: seq<(Pos, seq<Tuple>)>)
    ensures |r| == |grid| && forall i :: 0 <= i < |grid| ==> r[i] == (grid[i].0, CellTuples(l, grid[i].1))
  {
    seq(|grid|, i requires 0 <= i < |grid| => (grid[i].0, CellTuples(l, grid[i].1)))
  }

  /** Every tuple of a keyed round names the layout's slots in order, each with one of its entries. */
  lemma RoundTuplesSound(l: LayoutValue, k: Keyed, t: Tuple)
    requires |k| == |l.names| && t in RoundTuples(l, k)
    ensures |t| == |l.names| && forall m :: 0 <= m < |l.names| ==> t[m].0 == l.names[m] && t[m].1 in k[m].1
  {
    var lists := EntryLists(k);
    var p := Product(lists);
    ProductMembers(lists);
    var i :| 0 <= i < |p| && RoundTuples(l, k)[i] == t;
    assert p[i] in p;
  }

  /** Every choice of one entry per slot, named by the layout's slots in order, is a tuple of the round. */
  lemma RoundTuplesComplete(l: LayoutValue, k: Keyed, t: Tuple)
    requires |k| == |l.names| && |t| == |l.names|
    requires forall m :: 0 <= m < |l.names| ==> t[m].0 == l.names[m] && t[m].1 in k[m].1
    ensures t in RoundTuples(l, k)
  {
    var lists := EntryLists(k);
    var x := seq(|t|, m requires 0 <= m < |t| => t[m].1);
    ChoiceInProduct(lists, x);
    var p := Product(lists);
    var i :| 0 <= i < |p| && p[i] == x;
    assert Zip(l.names, x) == t;
    assert RoundTuples(l, k)[i] == t;
  }

  /** A choice of one element per list is one of the product's sequences. */
  lemma ChoiceInProduct<T>(lists: seq<seq<T>>, x: seq<T>)
    requires |x| == |lists| && forall m :: 0 <= m < |lists| ==> x[m] in lists[m]
    ensures exists i :: 0 <= i < |Product(lists)| && Product(lists)[i] == x
  {
    ProductMembers(lists);
    assert x in Product(lists);
  }

  /**
   * A keyed round yields as many tuples as the product of its slots' entry
   * counts: exactly the choices of one entry per slot, named by the layout's
   * slots in order.
   */
  lemma RoundTuplesMembers(l: LayoutValue, k: Keyed)
    requires |k| == |l.names|
    ensures |RoundTuples(l, k)| == Size(EntryLists(k))
    ensures forall t: Tuple :: t in RoundTuples(l, k) <==>
              |t| == |l.names| && forall m :: 0 <= m < |l.names| ==> t[m].0 == l.names[m] && t[m].1 in k[m].1
  {
    ProductMembers(EntryLists(k));
    forall t: Tuple
      ensures t in RoundTuples(l, k) <==>
                |t| == |l.names| && forall m :: 0 <= m < |l.names| ==> t[m].0 == l.names[m] && t[m].1 in k[m].1
    {
      if t in RoundTuples(l, k) {
        RoundTuplesSound(l, k, t);
      }
      if |t| == |l.names| && forall m :: 0 <= m < |l.names| ==> t[m].0 == l.names[m] && t[m].1 in k[m].1 {
        RoundTuplesComplete(l, k, t);
      }
    }
  }

  /** Entry e is the entry of one of the candidates `vs` of slot `key`. */
  predicate FromSlot(l: LayoutValue, closest: map<nat, Closest>, key: string, vs: seq<nat>, e: Pick) {
    exists v :: v in vs && e == PickOf(l, closest, key, v)
  }

  /** The entries of a slot are those of its candidates. */
  lemma SlotPicksMembers(l: LayoutValue, closest: map<nat, Closest>, key: string, vs: seq<nat>, e: Pick)
    ensures e in SlotPicks(l, closest, key, vs) <==> FromSlot(l, closest, key, vs, e)
  {
    if FromSlot(l, closest, key, vs, e) {
      var v :| v in vs && e == PickOf(l, closest, key, v);
      var j :| 0 <= j < |vs| && vs[j] == v;
      assert SlotPicks(l, closest, key, vs)[j] == e;
    }
  }

  /**
   * A complete round yields as many tuples as the product of its slots'
   * candidate counts; a tuple is in it exactly when it names every slot of
   * the layout in order, each with the entry of one of the slot's candidates.
   */
  lemma RoundTuplesMeaning(l: LayoutValue, closest: map<nat, Closest>, c: Candidates)
    requires Complete(l, c) && forall m :: 0 <= m < |c| ==> c[m].0 == l.names[m]
    ensures |RoundTuples(l, KeyedCandidate(l, closest, c))| == Size(EntryLists(KeyedCandidate(l, closest, c)))
    ensures forall t: Tuple :: t in RoundTuples(l, KeyedCandidate(l, closest, c)) <==>
              |t| == |l.names| &&
              forall m :: 0 <= m < |l.names| ==> t[m].0 == l.names[m] && FromSlot(l, closest, l.names[m], c[m].1, t[m].1)
  {
    var k := KeyedCandidate(l, closest, c);
    RoundTuplesMembers(l, k);
    forall t: Tuple | |t| == |l.names|
      ensures (forall m :: 0 <= m < |l.names| ==> t[m].0 == l.names[m] && t[m].1 in k[m].1) <==>
              (forall m :: 0 <= m < |l.names| ==> t[m].0 == l.names[m] && FromSlot(l, closest, l.names[m], c[m].1, t[m].1))
    {
      forall m | 0 <= m < |l.names|
        ensures t[m].1 in k[m].1 <==> FromSlot(l, closest, l.names[m], c[m].1, t[m].1)
      {
        SlotPicksMembers(l, closest, l.names[m], c[m].1, t[m].1);
      }
    }
  }

  /** A cell's tuples are exactly the tuples of its rounds. */
  lemma {:induction false} CellTuplesMembers(l: LayoutValue, rounds: seq<Keyed>)
    ensures forall t :: t in CellTuples(l, rounds) <==> exists j :: 0 <= j < |rounds| && t in RoundTuples(l, rounds[j])
  {
    if |rounds| > 0 {
      var front := rounds[..|rounds| - 1];
      CellTuplesMembers(l, front);
      forall t | t in CellTuples(l, front)
        ensures exists j :: 0 <= j < |rounds| && t in RoundTuples(l, rounds[j])
      {
        var j :| 0 <= j < |front| && t in RoundTuples(l, front[j]);
        assert rounds[j] == front[j];
      }
      forall t, j | 0 <= j < |rounds| - 1 && t in RoundTuples(l, rounds[j])
        ensures t in CellTuples(l, front)
      {
        assert rounds[j] == front[j];
      }
    }
  }

  /** A complete round yields at least one tuple, so a cell with a complete round keeps tuples. */
  lemma RoundTuplesNonEmpty(l: LayoutValue, closest: map<nat, Closest>, c: Candidates)
    requires forall m :: 0 <= m < |c| ==> |c[m].1| > 0
    ensures |RoundTuples(l, KeyedCandidate(l, closest, c))| > 0
  {
    var lists := EntryLists(KeyedCandidate(l, closest, c));
    ProductMembers(lists);
    SizePositive(lists);
  }

  lemma {:induction false} SizePositive<T>(lists: seq<seq<T>>)
    requires forall m :: 0 <= m < |lists| ==> |lists[m]| > 0
    ensures Size(lists) > 0
  {
    if |lists| > 0 {
      SizePositive(lists[1..]);
    }
  }

  // ----- the whole search -----

  /** The round of reference image idx fills every slot of the layout. */
  predicate Completes(tree: seq<(nat, Box)>, l: LayoutValue, pos: Pos, s2Times: seq<real>,
                      draw: (Pos, nat, string) -> real, idx: nat)
    requires idx < |s2Times|
  {
    var r := Round(tree, l, pos, idx, s2Times[idx], draw);
    r.Ok? && Complete(l, r.value)
  }

  /**
   * Tuple t names every slot of the layout, in order, each with the entry of
   * one of the images `_filter` returns for the slot with image idx as reference.
   */
  predicate TupleOfRound(tree: seq<(nat, Box)>, l: LayoutValue, closest: map<nat, Closest>, pos: Pos,
                         s2Times: seq<real>, draw: (Pos, nat, string) -> real, idx: nat, t: Tuple)
    requires idx < |s2Times|
  {
    |t| == |l.names| &&
    forall m :: 0 <= m < |l.names| ==>
      t[m].0 == l.names[m] &&
      var f := Filter(tree, l, l.names[m], s2Times[idx], draw(pos, idx, l.names[m]));
      f.Ok? && FromSlot(l, closest, l.names[m], f.value, t[m].1)
  }

  /** The tuples of a complete round are exactly the tuples of that round. */
  lemma RoundTupleOf(tree: seq<(nat, Box)>, l: LayoutValue, closest: map<nat, Closest>, pos: Pos,
                     s2Times: seq<real>, draw: (Pos, nat, string) -> real, idx: nat, t: Tuple)
    requires idx < |s2Times| && Completes(tree, l, pos, s2Times, draw, idx)
    ensures t in RoundTuples(l, KeyedCandidate(l, closest, Round(tree, l, pos, idx, s2Times[idx], draw).value)) <==>
              TupleOfRound(tree, l, closest, pos, s2Times, draw, idx, t)
  {
    var c := Round(tree, l, pos, idx, s2Times[idx], draw).value;
    RoundSlots(tree, l, pos, idx, s2Times[idx], draw);
    RoundTuplesMeaning(l, closest, c);
  }

  /** A complete round holds every slot with its `_filter` list. */
  lemma RoundSlots(tree: seq<(nat, Box)>, l: LayoutValue, pos: Pos, idx: nat, refTime: real,
                   draw: (Pos, nat, string) -> real)
    requires Round(tree, l, pos, idx, refTime, draw).Ok? && Complete(l, Round(tree, l, pos, idx, refTime, draw).value)
    ensures forall m :: 0 <= m < |l.names| ==>
              Filter(tree, l, l.names[m], refTime, draw(pos, idx, l.names[m])).Ok? &&
              Round(tree, l, pos, idx, refTime, draw).value[m] ==
                (l.names[m], Filter(tree, l, l.names[m], refTime, draw(pos, idx, l.names[m])).value)
  {
    RoundMeaning(tree, l, pos, idx, refTime, draw);
  }

  /** A cell keeps some round exactly when the round of some reference image completes. */
  lemma CellHasRounds(tree: seq<(nat, Box)>, l: LayoutValue, pos: Pos, s2Times: seq<real>,
                      draw: (Pos, nat, string) -> real, rounds: seq<Candidates>)
    requires CellRounds(tree, l, pos, s2Times, draw) == Ok(rounds)
    ensures |rounds| > 0 <==> exists idx :: 0 <= idx < |s2Times| && Completes(tree, l, pos, s2Times, draw, idx)
  {
    CellRoundsMeaning(tree, l, pos, s2Times, draw);
    if |rounds| > 0 {
      assert rounds[0] in rounds;
      var idx :| 0 <= idx < |s2Times| && Round(tree, l, pos, idx, s2Times[idx], draw) == Ok(rounds[0]);
      assert Completes(tree, l, pos, s2Times, draw, idx);
    }
    if idx :| 0 <= idx < |s2Times| && Completes(tree, l, pos, s2Times, draw, idx) {
      assert Round(tree, l, pos, idx, s2Times[idx], draw).value in rounds;
    }
  }

  /** Every tuple of a cell is a tuple of a round that completes. */
  lemma CellTupleSound(tree: seq<(nat, Box)>, l: LayoutValue, closest: map<nat, Closest>, pos: Pos,
                       s2Times: seq<real>, draw: (Pos, nat, string) -> real, rounds: seq<Candidates>, t: Tuple)
    requires CellRounds(tree, l, pos, s2Times, draw) == Ok(rounds)
    requires t in CellTuples(l, KeyedRounds(l, closest, rounds))
    ensures exists idx :: 0 <= idx < |s2Times| && Completes(tree, l, pos, s2Times, draw, idx) &&
                          TupleOfRound(tree, l, closest, pos, s2Times, draw, idx, t)
  {
    CellRoundsMeaning(tree, l, pos, s2Times, draw);
    var keyed := KeyedRounds(l, closest, rounds);
    CellTuplesMembers(l, keyed);
    var j :| 0 <= j < |keyed| && t in RoundTuples(l, keyed[j]);
    assert rounds[j] in rounds;
    var idx :| 0 <= idx < |s2Times| && Round(tree, l, pos, idx, s2Times[idx], draw) == Ok(rounds[j]);
    RoundTupleOf(tree, l, closest, pos, s2Times, draw, idx, t);
  }

  /** Every tuple of a round that completes is a tuple of the cell. */
  lemma CellTupleComplete(tree: seq<(nat, Box)>, l: LayoutValue, closest: map<nat, Closest>, pos: Pos,
                          s2Times: seq<real>, draw: (Pos, nat, string) -> real, rounds: seq<Candidates>, idx: nat, t: Tuple)
    requires CellRounds(tree, l, pos, s2Times, draw) == Ok(rounds)
    requires idx < |s2Times| && Completes(tree, l, pos, s2Times, draw, idx)
    requires TupleOfRound(tree, l, closest, pos, s2Times, draw, idx, t)
    ensures t in CellTuples(l, KeyedRounds(l, closest, rounds))
  {
    CellRoundsMeaning(tree, l, pos, s2Times, draw);
    var keyed := KeyedRounds(l, closest, rounds);
    CellTuplesMembers(l, keyed);
    var c := Round(tree, l, pos, idx, s2Times[idx], draw).value;
    assert c in rounds;
    var j :| 0 <= j < |rounds| && rounds[j] == c;
    RoundTupleOf(tree, l, closest, pos, s2Times, draw, idx, t);
    assert t in RoundTuples(l, keyed[j]);
  }

  /**
   * When `collect` succeeds on a cell, the cell's tuples are exactly the
   * tuples of the rounds that complete.
   */
  lemma CellTuplesMeaning(tree: seq<(nat, Box)>, l: LayoutValue, closest: map<nat, Closest>, pos: Pos,
                          s2Times: seq<real>, draw: (Pos, nat, string) -> real, rounds: seq<Candidates>)
    requires CellRounds(tree, l, pos, s2Times, draw) == Ok(rounds)
    ensures forall t: Tuple :: t in CellTuples(l, KeyedRounds(l, closest, rounds)) <==>
              exists idx :: 0 <= idx < |s2Times| && Completes(tree, l, pos, s2Times, draw, idx) &&
                            TupleOfRound(tree, l, closest, pos, s2Times, draw, idx, t)
  {
    forall t: Tuple
      ensures t in CellTuples(l, KeyedRounds(l, closest, rounds)) <==>
                exists idx :: 0 <= idx < |s2Times| && Completes(tree, l, pos, s2Times, draw, idx) &&
                              TupleOfRound(tree, l, closest, pos, s2Times, draw, idx, t)
    {
      if t in CellTuples(l, KeyedRounds(l, closest, rounds)) {
        CellTupleSound(tree, l, closest, pos, s2Times, draw, rounds, t);
      }
      if idx :| 0 <= idx < |s2Times| && Completes(tree, l, pos, s2Times, draw, idx) &&
                TupleOfRound(tree, l, closest, pos, s2Times, draw, idx, t) {
        CellTupleComplete(tree, l, closest, pos, s2Times, draw, rounds, idx, t);
      }
    }
  }

  /** A cell with at least one complete round has at least one tuple. */
  lemma CellTuplesNonEmpty(tree: seq<(nat, Box)>, l: LayoutValue, closest: map<nat, Closest>, pos: Pos,
                           s2Times: seq<real>, draw: (Pos, nat, string) -> real, rounds: seq<Candidates>)
    requires CellRounds(tree, l, pos, s2Times, draw) == Ok(rounds) && |rounds| > 0
    ensures |CellTuples(l, KeyedRounds(l, closest, rounds))| > 0
  {
    CellHasRounds(tree, l, pos, s2Times, draw, rounds);
    var idx :| 0 <= idx < |s2Times| && Completes(tree, l, pos, s2Times, draw, idx);
    var c := Round(tree, l, pos, idx, s2Times[idx], draw).value;
    RoundMeaning(tree, l, pos, idx, s2Times[idx], draw);
    RoundTuplesNonEmpty(l, closest, c);
    var t := RoundTuples(l, KeyedCandidate(l, closest, c))[0];
    RoundTupleOf(tree, l, closest, pos, s2Times, draw, idx, t);
    CellTupleComplete(tree, l, closest, pos, s2Times, draw, rounds, idx, t);
  }

  /** `self.closest_s1`, cell by cell. */
  function ClosestFn(d: TileData): Pos -> map<nat, Closest>
    requires WellFormed(d)
  {
    (p: Pos) => ClosestAt(d, p.0, p.1)
  }

  /**
   * `tuple_search`: the layout summary first (it raises on an incomplete
   * slot), then `collect` on every cell, the "s1" keys, and the products.
   */
  function TupleSearchSpec(d: TileData, l: LayoutValue, roi: Option<Stats>, draw: (Pos, nat, string) -> real)
    : Result<seq<(Pos, seq<Tuple>)>>
    requires Gridded(d)
  {
    match Summarize(l)
    case Fail(msg) => Err(msg)
    case Pass =>
      var grid :- CollectUpTo(d, l, roi, draw, GridX(d), 0);
      Ok(TuplesGrid(l, KeyedGrid(l, ClosestFn(d), grid)))
  }

  /**
   * The cell (x, y) of the grid is in the ROI and the round of some reference
   * image completes there.
   */
  predicate HasSamples(d: TileData, l: LayoutValue, roi: Option<Stats>, draw: (Pos, nat, string) -> real, x: nat, y: nat)
    requires Gridded(d)
  {
    x < GridX(d) && y < GridY(d) && InsideRoi(roi, x, y, d.patchSize) == Ok(true) &&
    exists idx :: 0 <= idx < |d.s2Times| && Completes(TreeAt(d, x, y), l, (x, y), d.s2Times, draw, idx)
  }

  /** Tuple t is a tuple of a complete round at cell pos. */
  predicate CellTuple(d: TileData, l: LayoutValue, draw: (Pos, nat, string) -> real, pos: Pos, t: Tuple)
    requires WellFormed(d)
  {
    exists idx :: 0 <= idx < |d.s2Times| && Completes(TreeAt(d, pos.0, pos.1), l, pos, d.s2Times, draw, idx) &&
                  TupleOfRound(TreeAt(d, pos.0, pos.1), l, ClosestAt(d, pos.0, pos.1), pos, d.s2Times, draw, idx, t)
  }

  /** A listed cell of the candidates grid with a complete round becomes a cell with samples and its tuples. */
  lemma GridEntryTuples(d: TileData, l: LayoutValue, roi: Option<Stats>, draw: (Pos, nat, string) -> real,
                        g: (Pos, seq<Candidates>))
    requires Gridded(d) && g.0.0 < GridX(d) && g.0.1 < GridY(d) && |g.1| > 0
    requires CollectAt(d, l, roi, draw, g.0) == Ok([g])
    ensures var ts := CellTuples(l, KeyedRounds(l, ClosestAt(d, g.0.0, g.0.1), g.1));
            HasSamples(d, l, roi, draw, g.0.0, g.0.1) && |ts| > 0 &&
            forall t: Tuple :: t in ts <==> CellTuple(d, l, draw, g.0, t)
  {
    var pos := g.0;
    var tree := TreeAt(d, pos.0, pos.1);
    CollectAtMeaning(d, l, roi, draw, pos, g.1);
    CellHasRounds(tree, l, pos, d.s2Times, draw, g.1);
    CellTuplesNonEmpty(tree, l, ClosestAt(d, pos.0, pos.1), pos, d.s2Times, draw, g.1);
    CellTuplesMeaning(tree, l, ClosestAt(d, pos.0, pos.1), pos, d.s2Times, draw, g.1);
  }

  /** Every cell `tuple_search` lists has samples, and lists exactly its tuples. */
  lemma TupleSearchEntries(d: TileData, l: LayoutValue, roi: Option<Stats>, draw: (Pos, nat, string) -> real)
    requires Gridded(d)
    ensures var r := TupleSearchSpec(d, l, roi, draw);
            r.Ok? ==>
              Ordered(r.value) &&
              forall k :: 0 <= k < |r.value| ==>
                HasSamples(d, l, roi, draw, r.value[k].0.0, r.value[k].0.1) && |r.value[k].1| > 0 &&
                forall t: Tuple :: t in r.value[k].1 <==> CellTuple(d, l, draw, r.value[k].0, t)
  {
    var r := TupleSearchSpec(d, l, roi, draw);
    if r.Ok? {
      var closest := ClosestFn(d);
      var grid := CollectUpTo(d, l, roi, draw, GridX(d), 0).value;
      var keyed := KeyedGrid(l, closest, grid);
      assert r.value == TuplesGrid(l, keyed);
      CollectUpToCells(d, l, roi, draw, GridX(d), 0);
      KeyedGridOrdered(l, closest, grid);
      forall k | 0 <= k < |r.value|
        ensures HasSamples(d, l, roi, draw, r.value[k].0.0, r.value[k].0.1) && |r.value[k].1| > 0 &&
                forall t: Tuple :: t in r.value[k].1 <==> CellTuple(d, l, draw, r.value[k].0, t)
      {
        TupleSearchEntry(d, l, roi, draw, k);
      }
    }
  }

  /** Entry `k` of the search: a cell with samples, and exactly its tuples. */
  lemma TupleSearchEntry(d: TileData, l: LayoutValue, roi: Option<Stats>, draw: (Pos, nat, string) -> real, k: nat)
    requires Gridded(d) && TupleSearchSpec(d, l, roi, draw).Ok? && k < |TupleSearchSpec(d, l, roi, draw).value|
    ensures var e := TupleSearchSpec(d, l, roi, draw).value[k];
            HasSamples(d, l, roi, draw, e.0.0, e.0.1) && |e.1| > 0 &&
            forall t: Tuple :: t in e.1 <==> CellTuple(d, l, draw, e.0, t)
  {
    var closest := ClosestFn(d);
    var grid := CollectUpTo(d, l, roi, draw, GridX(d), 0).value;
    var keyed := KeyedGrid(l, closest, grid);
    assert TupleSearchSpec(d, l, roi, draw).value == TuplesGrid(l, keyed);
    KeyedGridEntries(l, closest, grid);
    assert keyed[k] in keyed;
    var g :| g in grid && |g.1| > 0 && keyed[k] == KeyedEntry(l, closest, g);
    var j :| 0 <= j < |grid| && grid[j] == g;
    CollectedCell(d, l, roi, draw, j);
    GridEntryTuples(d, l, roi, draw, g);
  }

  /** Cell `j` of the collected grid lies on the grid and is what `collect` gives there. */
  lemma CollectedCell(d: TileData, l: LayoutValue, roi: Option<Stats>, draw: (Pos, nat, string) -> real, j: nat)
    requires Gridded(d) && CollectUpTo(d, l, roi, draw, GridX(d), 0).Ok?
    requires j < |CollectUpTo(d, l, roi, draw, GridX(d), 0).value|
    ensures var g := CollectUpTo(d, l, roi, draw, GridX(d), 0).value[j];
            g.0.0 < GridX(d) && g.0.1 < GridY(d) && CollectAt(d, l, roi, draw, g.0) == Ok([g])
  {
    CollectUpToCells(d, l, roi, draw, GridX(d), 0);
  }

  /** Every cell with samples is listed by `tuple_search`. */
  lemma TupleSearchCovers(d: TileData, l: LayoutValue, roi: Option<Stats>, draw: (Pos, nat, string) -> real, x: nat, y: nat)
    requires Gridded(d) && HasSamples(d, l, roi, draw, x, y) && TupleSearchSpec(d, l, roi, draw).Ok?
    ensures exists k :: 0 <= k < |TupleSearchSpec(d, l, roi, draw).value| && TupleSearchSpec(d, l, roi, draw).value[k].0 == (x, y)
  {
    var closest := ClosestFn(d);
    var grid := CollectUpTo(d, l, roi, draw, GridX(d), 0).value;
    var keyed := KeyedGrid(l, closest, grid);
    assert TupleSearchSpec(d, l, roi, draw).value == TuplesGrid(l, keyed);
    GridCellWithRounds(d, l, roi, draw, x, y);
    var g :| g in grid && g.0 == (x, y) && |g.1| > 0;
    KeyedGridCovers(l, closest, grid);
    TuplesGridHas(l, keyed, KeyedEntry(l, closest, g));
  }

  /** A cell with samples is collected with at least one complete round. */
  lemma GridCellWithRounds(d: TileData, l: LayoutValue, roi: Option<Stats>, draw: (Pos, nat, string) -> real, x: nat, y: nat)
    requires Gridded(d) && HasSamples(d, l, roi, draw, x, y) && CollectUpTo(d, l, roi, draw, GridX(d), 0).Ok?
    ensures exists g :: g in CollectUpTo(d, l, roi, draw, GridX(d), 0).value && g.0 == (x, y) && |g.1| > 0
  {
    var grid := CollectUpTo(d, l, roi, draw, GridX(d), 0).value;
    CollectUpToCells(d, l, roi, draw, GridX(d), 0);
    assert Visited(GridY(d), GridX(d), 0, x, y);
    var k :| 0 <= k < |grid| && grid[k].0 == (x, y);
    CollectAtMeaning(d, l, roi, draw, (x, y), grid[k].1);
    CellHasRounds(TreeAt(d, x, y), l, (x, y), d.s2Times, draw, grid[k].1);
    assert grid[k] in grid;
  }

  /** Every cell of the keyed grid has its tuples in the tuples grid. */
  lemma TuplesGridHas(l: LayoutValue, keyed: seq<(Pos, seq<Keyed>)>, e: (Pos, seq<Keyed>))
    requires e in keyed
    ensures exists k :: 0 <= k < |TuplesGrid(l, keyed)| && TuplesGrid(l, keyed)[k].0 == e.0
  {
    var i :| 0 <= i < |keyed| && keyed[i] == e;
    assert TuplesGrid(l, keyed)[i].0 == e.0;
  }

  /**
   * What `tuple_search` returns: once each and in `for_each_pos` order,
   * exactly the cells inside the ROI where a round completes; at each, a
   * non-empty list of tuples holding exactly the tuples that name every slot
   * of the layout, in order, with the entry of one of the images `_filter`
   * returns for the slot in a complete round.
   */
  lemma TupleSearchMeaning(d: TileData, l: LayoutValue, roi: Option<Stats>, draw: (Pos, nat, string) -> real)
    requires Gridded(d)
    ensures var r := TupleSearchSpec(d, l, roi, draw);
            r.Ok? ==>
              Ordered(r.value) &&
              (forall x: nat, y: nat :: HasSamples(d, l, roi, draw, x, y) <==>
                 exists k :: 0 <= k < |r.value| && r.value[k].0 == (x, y)) &&
              (forall k :: 0 <= k < |r.value| ==>
                 |r.value[k].1| > 0 && forall t: Tuple :: t in r.value[k].1 <==> CellTuple(d, l, draw, r.value[k].0, t))
  {
    TupleSearchEntries(d, l, roi, draw);
    var r := TupleSearchSpec(d, l, roi, draw);
    if r.Ok? {
      forall x: nat, y: nat | HasSamples(d, l, roi, draw, x, y)
        ensures exists k :: 0 <= k < |r.value| && r.value[k].0 == (x, y)
      {
        TupleSearchCovers(d, l, roi, draw, x, y);
      }
    }
  }

  // ----- the search, step by step -----

  /**
   * One round of `collect`: the slots in layout order, `_filter`, the
   * de-duplication test and `break` at the first empty list.
   */
  method RunRound(tree: seq<(nat, Box)>, l: LayoutValue, pos: Pos, idx: nat, refTime: real,
                  draw: (Pos, nat, string) -> real) returns (r: Result<Candidates>)
    ensures r == Round(tree, l, pos, idx, refTime, draw)
  {
    var c: Candidates := [];
    var k: nat := 0;
    while k < |l.names|
      invariant k <= |l.names|
      invariant Round(tree, l, pos, idx, refTime, draw) == RoundFrom(tree, l, pos, idx, refTime, draw, k, c)
    {
      var name := l.names[k];
      var filtered := Filter(tree, l, name, refTime, draw(pos, idx, name));
      if filtered.Err? {
        return Err(filtered.msg);
      }
      var ret := filtered.value;
      if idx in ret {
        var siblings := IsSiblings(l, Keys(c), name);
        if siblings.Err? {
          return Err(siblings.msg);
        }
        if !siblings.value && InValues(idx, c) {
          ret := RemoveFirst(ret, idx);
        }
      }
      if |ret| == 0 {
        break;
      }
      c := c + [(name, ret)];
      k := k + 1;
    }
    return Ok(c);
  }

  /** `collect` on one cell: the ROI test, then one round per S2 image, keeping the complete ones. */
  method CollectCell(tree: seq<(nat, Box)>, l: LayoutValue, roi: Option<Stats>, patchSize: nat, s2Times: seq<real>,
                     draw: (Pos, nat, string) -> real, pos: Pos) returns (r: Result<seq<(Pos, seq<Candidates>)>>)
    ensures r == CellEntry(tree, l, roi, patchSize, s2Times, draw, pos)
  {
    var inside := InsideRoi(roi, pos.0, pos.1, patchSize);
    if inside.Err? {
      return Err(inside.msg);
    }
    if !inside.value {
      return Ok([]);
    }
    ghost var results := RoundResults(tree, l, pos, s2Times, draw);
    var rounds: seq<Candidates> := [];
    var idx: nat := 0;
    while idx < |s2Times|
      invariant idx <= |s2Times|
      invariant KeepComplete(results[..idx], |l.names|) == Ok(rounds)
    {
      var c := RunRound(tree, l, pos, idx, s2Times[idx], draw);
      KeepCompleteStep(results, |l.names|, idx, rounds);
      if c.Err? {
        return Err(c.msg);
      }
      if |c.value| == |l.names| {
        rounds := rounds + [c.value];
      }
      idx := idx + 1;
    }
    assert results[..|s2Times|] == results;
    return Ok([(pos, rounds)]);
  }

  /** One more cell of the scan: its entry is appended, or its exception ends the column. */
  lemma ScanStep<X>(gy: nat, cell: Pos -> Result<seq<(Pos, X)>>, x: nat, y: nat, acc: seq<(Pos, X)>,
                    c: Result<seq<(Pos, X)>>)
    requires y < gy && Scan(gy, cell, x, y) == Ok(acc) && c == cell((x, y))
    ensures c.Ok? ==> Scan(gy, cell, x, y + 1) == Ok(acc + c.value)
    ensures c.Err? ==> Scan(gy, cell, x, gy) == Err(c.msg)
  {
    if c.Err? {
      ScanSticks(gy, cell, x, y + 1, x, gy);
    }
  }

  /** One more cell of `for_each_pos(collect)`. */
  lemma CollectStep(d: TileData, l: LayoutValue, roi: Option<Stats>, draw: (Pos, nat, string) -> real,
                    x: nat, y: nat, acc: seq<(Pos, seq<Candidates>)>, cell: Result<seq<(Pos, seq<Candidates>)>>)
    requires Gridded(d) && y < GridY(d) && CollectUpTo(d, l, roi, draw, x, y) == Ok(acc)
    requires cell == CellEntry(TreeAt(d, x, y), l, roi, d.patchSize, d.s2Times, draw, (x, y))
    ensures cell.Ok? ==> CollectUpTo(d, l, roi, draw, x, y + 1) == Ok(acc + cell.value)
    ensures cell.Err? ==> CollectUpTo(d, l, roi, draw, x, GridY(d)) == Err(cell.msg)
  {
    var cellFn := CollectFn(d, l, roi, draw);
    assert cell == CollectAt(d, l, roi, draw, (x, y)) == cellFn((x, y));
    ScanStep(GridY(d), cellFn, x, y, acc, cell);
  }

  /** `for_each_pos(collect)` on column x of the grid, after the columns before it gave `acc`. */
  method CollectColumn(h: TileHandler, l: LayoutValue, roi: Option<Stats>, draw: (Pos, nat, string) -> real,
                       x: nat, acc: seq<(Pos, seq<Candidates>)>) returns (r: Result<seq<(Pos, seq<Candidates>)>>)
    requires h.TreesReady() && x < h.gridSizeX
    requires CollectUpTo(h.data, l, roi, draw, x, 0) == Ok(acc)
    ensures r == CollectUpTo(h.data, l, roi, draw, x, GridY(h.data))
  {
    var d := h.data;
    var grid := acc;
    var y: nat := 0;
    while y < h.gridSizeY
      invariant y <= h.gridSizeY
      invariant CollectUpTo(d, l, roi, draw, x, y) == Ok(grid)
    {
      assert (x, y) in h.s2Trees && h.s2Trees[(x, y)] == TreeAt(d, x, y);
      var cell := CollectCell(h.s2Trees[(x, y)], l, roi, d.patchSize, d.s2Times, draw, (x, y));
      CollectStep(d, l, roi, draw, x, y, grid, cell);
      if cell.Err? {
        return Err(cell.msg);
      }
      grid := grid + cell.value;
      y := y + 1;
    }
    return Ok(grid);
  }

  /** `for_each_pos(collect)`: `acquisition_candidates_grid`, cell by cell. */
  method Collect(h: TileHandler, l: LayoutValue, roi: Option<Stats>, draw: (Pos, nat, string) -> real)
    returns (r: Result<seq<(Pos, seq<Candidates>)>>)
    requires h.TreesReady()
    ensures r == CollectUpTo(h.data, l, roi, draw, GridX(h.data), 0)
  {
    var grid: seq<(Pos, seq<Candidates>)> := [];
    var x: nat := 0;
    while x < h.gridSizeX
      invariant x <= h.gridSizeX
      invariant CollectUpTo(h.data, l, roi, draw, x, 0) == Ok(grid)
    {
      var column := CollectColumn(h, l, roi, draw, x, grid);
      if column.Err? {
        ScanSticks(GridY(h.data), CollectFn(h.data, l, roi, draw), x, GridY(h.data), h.gridSizeX, 0);
        return Err(column.msg);
      }
      grid := column.value;
      x := x + 1;
    }
    return Ok(grid);
  }

  /** `new_candidate`: the entries of every slot of a round, with "s1" where the slot and the image have one. */
  method KeyCandidate(l: LayoutValue, closest: map<nat, Closest>, c: Candidates) returns (r: Keyed)
    ensures r == KeyedCandidate(l, closest, c)
  {
    r := [];
    for k := 0 to |c|
      invariant |r| == k && forall i :: 0 <= i < k ==> r[i] == KeyedCandidate(l, closest, c)[i]
    {
      var key, values := c[k].0, c[k].1;
      var newVal: seq<Pick> := [];
      for m := 0 to |values|
        invariant |newVal| == m && forall i :: 0 <= i < m ==> newVal[i] == PickOf(l, closest, key, values[i])
      {
        var value := values[m];
        var entry := Pick(value, None);
        // A slot of a round is in the layout, since `_filter` read it: `has_s1_acquisition` does not raise.
        if S1Slot(l, key) {
          if value in closest {
            entry := Pick(value, Some(closest[value].index));
          }
        }
        newVal := newVal + [entry];
      }
      assert newVal == SlotPicks(l, closest, key, values);
      r := r + [(key, newVal)];
    }
  }

  /** `candidates_grid`: the keyed rounds of every cell that has some. */
  method KeyGrid(h: TileHandler, l: LayoutValue, grid: seq<(Pos, seq<Candidates>)>) returns (keyed: seq<(Pos, seq<Keyed>)>)
    requires h.ClosestReady()
    requires forall k :: 0 <= k < |grid| ==> grid[k].0.0 < h.gridSizeX && grid[k].0.1 < h.gridSizeY
    ensures keyed == KeyedGrid(l, ClosestFn(h.data), grid)
  {
    keyed := [];
    for i := 0 to |grid|
      invariant keyed == KeyedGrid(l, ClosestFn(h.data), grid[..i])
    {
      var pos, candidates := grid[i].0, grid[i].1;
      var closest := h.closestS1[pos];
      var list: seq<Keyed> := [];
      for j := 0 to |candidates|
        invariant |list| == j && forall m :: 0 <= m < j ==> list[m] == KeyedCandidate(l, closest, candidates[m])
      {
        var kc := KeyCandidate(l, closest, candidates[j]);
        list := list + [kc];
      }
      assert closest == ClosestFn(h.data)(pos);
      assert list == KeyedRounds(l, closest, candidates);
      assert grid[..i + 1][..i] == grid[..i];
      if |list| > 0 {
        keyed := keyed + [(pos, list)];
      }
    }
    assert grid[..|grid|] == grid;
  }

  /**
   * `tuple_search` on a built tile handler: the layout summary, `collect` on
   * every cell, the "s1" keys, then the products.
   */
  method TupleSearch(h: TileHandler, l: LayoutValue, roi: Option<Stats>, draw: (Pos, nat, string) -> real)
    returns (r: Result<seq<(Pos, seq<Tuple>)>>)
    requires h.Valid()
    ensures r == TupleSearchSpec(h.data, l, roi, draw)
  {
    var summary := Summarize(l);
    if summary.Fail? {
      return Err(summary.msg);
    }
    var collected := Collect(h, l, roi, draw);
    if collected.Err? {
      return Err(collected.msg);
    }
    var grid := collected.value;
    CollectUpToCells(h.data, l, roi, draw, GridX(h.data), 0);
    var keyed := KeyGrid(h, l, grid);
    return Ok(TuplesGrid(l, keyed));
  }
}
