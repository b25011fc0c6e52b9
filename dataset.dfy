/**
 * The sample iterators and the double buffer of `decloud/core/dataset.py`.
 *
 * The iterators walk the tuples found by the tuple search of every tile and
 * hand them out one at a time, reshuffling at the end of every epoch. The
 * randomness (`np.random.shuffle`, `random.sample`, `np.random.randint`) is a
 * parameter: the caller supplies the permutation or the choice it made.
 */
module Dataset {
  import opened Wrappers
  import opened PyDict
  import TileIndex
  import TupleSearch

  type Pos = TileIndex.Pos

  /* ------------------------------------------------------------------ */
  /* Buffer                                                              */
  /* ------------------------------------------------------------------ */

  /** A list of samples that may hold at most `maxLength` of them. */
  class Buffer<S> {
    var maxLength: int
    var container: seq<S>

    constructor (maxLength: int)
      ensures this.maxLength == maxLength && container == []
    {
      this.maxLength := maxLength;
      container := [];
    }

    /**
     * `add`: the element is appended first, and the size check fails
     * afterwards when the buffer has grown past `maxLength`.
     */
    method Add(e: S) returns (o: Outcome)
      modifies this`container
      ensures container == old(container) + [e]
      ensures o.Pass? <==> |old(container)| < maxLength
      ensures o.Fail? ==> o.msg == AssertionError
    {
      container := container + [e];
      if |container| <= maxLength {
        o := Pass;
      } else {
        o := Fail(AssertionError);
      }
    }

    /** `is_complete`: a buffer with a negative maximum length is never complete. */
    predicate IsComplete(): (r: bool)
      reads this
      ensures r <==> |container| == maxLength
      ensures maxLength < 0 ==> !r
    {
      |container| == maxLength
    }
  }

  /* ------------------------------------------------------------------ */
  /* Permutations (what a shuffle leaves)                                */
  /* ------------------------------------------------------------------ */

  /** `np.arange(0, n)` */
  function Range(n: nat): (r: seq<nat>)
    ensures |r| == n && forall i :: 0 <= i < n ==> r[i] == i
  {
    seq(n, i requires 0 <= i < n => i)
  }

  /** `s` holds every id below `n` once, in some order. */
  ghost predicate IsPermutation(s: seq<nat>, n: nat) {
    multiset(s) == multiset(Range(n))
  }

  lemma {:induction false} RangeCount(n: nat, x: nat)
    ensures multiset(Range(n))[x] == if x < n then 1 else 0
    decreases n
  {
    if n > 0 {
      assert Range(n) == Range(n - 1) + [n - 1];
      RangeCount(n - 1, x);
    }
  }

  /**
   * A permutation of the ids below `n` has length `n`, holds only such ids,
   * and holds each of them exactly once: going through it from the first
   * position to the last, as the cursor of an iterator does in one epoch,
   * visits every id once.
   */
  lemma PermutationVisitsOnce(s: seq<nat>, n: nat)
    requires IsPermutation(s, n)
    ensures |s| == n
    ensures forall c :: 0 <= c < |s| ==> s[c] < n
    ensures forall id :: 0 <= id < n ==> multiset(s)[id] == 1
  {
    assert |s| == |multiset(s)| == |multiset(Range(n))| == n;
    forall c | 0 <= c < |s|
      ensures s[c] < n
    {
      assert s[c] in multiset(s);
      RangeCount(n, s[c]);
    }
    forall id | 0 <= id < n
      ensures multiset(s)[id] == 1
    {
      RangeCount(n, id);
    }
  }

  /* ------------------------------------------------------------------ */
  /* Tuple ids                                                           */
  /* ------------------------------------------------------------------ */

  /** The tuples of one tile, cell by cell, as the tuple search lists them. */
  type Grid<T> = seq<(Pos, seq<T>)>

  /** What an iterator hands out: `(tile_name, tuple_pos, tuple_indices)`. */
  type Entry<T> = (string, Pos, T)

  /** The sequences `parts` one after the other. */
  function Flat<X>(parts: seq<seq<X>>): seq<X> {
    if |parts| == 0 then [] else Flat(parts[..|parts| - 1]) + parts[|parts| - 1]
  }

  /** The summed lengths of `parts`. */
  function TotalLength<X>(parts: seq<seq<X>>): nat {
    if |parts| == 0 then 0 else TotalLength(parts[..|parts| - 1]) + |parts[|parts| - 1]|
  }

  lemma FlatPrefix<X>(parts: seq<seq<X>>, m: nat)
    requires m < |parts|
    ensures Flat(parts[..m + 1]) == Flat(parts[..m]) + parts[m]
    ensures TotalLength(parts[..m + 1]) == TotalLength(parts[..m]) + |parts[m]|
  {
    assert parts[..m + 1][..m] == parts[..m];
  }

  /**
   * Element `k` of part `i` sits at position `TotalLength(parts[..i]) + k`
   * of the flattened sequence, whose length is the summed lengths.
   */
  lemma {:induction false} FlatIndex<X>(parts: seq<seq<X>>, i: nat, k: nat)
    requires i < |parts| && k < |parts[i]|
    ensures |Flat(parts)| == TotalLength(parts)
    ensures TotalLength(parts[..i]) + k < |Flat(parts)|
    ensures Flat(parts)[TotalLength(parts[..i]) + k] == parts[i][k]
    decreases |parts|
  {
    var n := |parts|;
    assert parts[..n] == parts;
    FlatPrefix(parts, n - 1);
    if i < n - 1 {
      FlatIndex(parts[..n - 1], i, k);
      assert parts[..n - 1][..i] == parts[..i];
    } else {
      FlatLength(parts[..n - 1]);
    }
  }

  lemma {:induction false} FlatLength<X>(parts: seq<seq<X>>)
    ensures |Flat(parts)| == TotalLength(parts)
    decreases |parts|
  {
    if |parts| > 0 {
      FlatLength(parts[..|parts| - 1]);
    }
  }

  /** The entries of one cell, in the order of its tuple list. */
  function CellEntries<T>(tile: string, pos: Pos, tuples: seq<T>): (r: seq<Entry<T>>)
    ensures |r| == |tuples| && forall k :: 0 <= k < |tuples| ==> r[k] == (tile, pos, tuples[k])
  {
    seq(|tuples|, k requires 0 <= k < |tuples| => (tile, pos, tuples[k]))
  }

  function CellParts<T>(tile: string, grid: Grid<T>): (r: seq<seq<Entry<T>>>)
    ensures |r| == |grid| && forall j :: 0 <= j < |grid| ==> r[j] == CellEntries(tile, grid[j].0, grid[j].1)
  {
    seq(|grid|, j requires 0 <= j < |grid| => CellEntries(tile, grid[j].0, grid[j].1))
  }

  /** The entries of one tile, cell after cell. */
  function GridEntries<T>(tile: string, grid: Grid<T>): seq<Entry<T>> {
    Flat(CellParts(tile, grid))
  }

  function TileParts<T>(grids: seq<(string, Grid<T>)>): (r: seq<seq<Entry<T>>>)
    ensures |r| == |grids| && forall i :: 0 <= i < |grids| ==> r[i] == GridEntries(grids[i].0, grids[i].1)
  {
    seq(|grids|, i requires 0 <= i < |grids| => GridEntries(grids[i].0, grids[i].1))
  }

  /**
   * `tuples_map`: the entries of every tile, tile after tile; an entry's
   * position is its tuple id.
   */
  function Entries<T>(grids: seq<(string, Grid<T>)>): seq<Entry<T>> {
    Flat(TileParts(grids))
  }

  /** The number of tuples in one tile. */
  function GridCount<T>(grid: Grid<T>): nat {
    if |grid| == 0 then 0 else GridCount(grid[..|grid| - 1]) + |grid[|grid| - 1].1|
  }

  /** The number of tuples in all tiles. */
  function TupleCount<T>(grids: seq<(string, Grid<T>)>): nat {
    if |grids| == 0 then 0 else TupleCount(grids[..|grids| - 1]) + GridCount(grids[|grids| - 1].1)
  }

  lemma {:induction false} GridCountIsLength<T>(tile: string, grid: Grid<T>)
    ensures TotalLength(CellParts(tile, grid)) == GridCount(grid)
    decreases |grid|
  {
    if |grid| > 0 {
      var n := |grid|;
      GridCountIsLength(tile, grid[..n - 1]);
      assert CellParts(tile, grid)[..n - 1] == CellParts(tile, grid[..n - 1]);
      FlatPrefix(CellParts(tile, grid), n - 1);
      assert CellParts(tile, grid)[..n] == CellParts(tile, grid);
    }
  }

  lemma {:induction false} TupleCountIsLength<T>(grids: seq<(string, Grid<T>)>)
    ensures TotalLength(TileParts(grids)) == TupleCount(grids)
    decreases |grids|
  {
    if |grids| > 0 {
      var n := |grids|;
      TupleCountIsLength(grids[..n - 1]);
      assert TileParts(grids)[..n - 1] == TileParts(grids[..n - 1]);
      FlatPrefix(TileParts(grids), n - 1);
      assert TileParts(grids)[..n] == TileParts(grids);
      FlatLength(CellParts(grids[n - 1].0, grids[n - 1].1));
      GridCountIsLength(grids[n - 1].0, grids[n - 1].1);
    }
  }

  /**
   * Ids are given in tile, cell, tuple order: tuple `k` of cell `j` of tile
   * `i` has the id that counts every tuple of the tiles before `i`, of the
   * cells of tile `i` before `j`, and `k`; and there are as many ids as
   * tuples.
   */
  lemma TupleIds<T>(grids: seq<(string, Grid<T>)>, i: nat, j: nat, k: nat)
    requires i < |grids| && j < |grids[i].1| && k < |grids[i].1[j].1|
    ensures |Entries(grids)| == TupleCount(grids)
    ensures TupleCount(grids[..i]) + GridCount(grids[i].1[..j]) + k < |Entries(grids)|
    ensures Entries(grids)[TupleCount(grids[..i]) + GridCount(grids[i].1[..j]) + k]
         == (grids[i].0, grids[i].1[j].0, grids[i].1[j].1[k])
  {
    var tile, grid := grids[i].0, grids[i].1;
    FlatIndex(CellParts(tile, grid), j, k);
    assert CellParts(tile, grid)[..j] == CellParts(tile, grid[..j]);
    GridCountIsLength(tile, grid[..j]);
    var at := GridCount(grid[..j]) + k;
    FlatIndex(TileParts(grids), i, at);
    assert TileParts(grids)[..i] == TileParts(grids[..i]);
    TupleCountIsLength(grids[..i]);
    TupleCountIsLength(grids);
  }

  /** The entries of one tile, built cell by cell and tuple by tuple. */
  method EnumerateGrid<T>(tile: string, grid: Grid<T>) returns (r: seq<Entry<T>>)
    ensures r == GridEntries(tile, grid)
  {
    ghost var parts := CellParts(tile, grid);
    r := [];
    for j := 0 to |grid|
      invariant r == Flat(parts[..j])
    {
      var pos, tuples := grid[j].0, grid[j].1;
      ghost var start := r;
      for k := 0 to |tuples|
        invariant r == start + CellEntries(tile, pos, tuples[..k])
      {
        r := r + [(tile, pos, tuples[k])];
        assert CellEntries(tile, pos, tuples[..k + 1]) == CellEntries(tile, pos, tuples[..k]) + [(tile, pos, tuples[k])];
      }
      assert tuples[..|tuples|] == tuples;
      FlatPrefix(parts, j);
    }
    assert parts[..|grid|] == parts;
  }

  /** `tuples_map`, built tile by tile. */
  method EnumerateTuples<T>(grids: seq<(string, Grid<T>)>) returns (r: seq<Entry<T>>)
    ensures r == Entries(grids)
  {
    ghost var parts := TileParts(grids);
    r := [];
    for i := 0 to |grids|
      invariant r == Flat(parts[..i])
    {
      var entries := EnumerateGrid(grids[i].0, grids[i].1);
      r := r + entries;
      FlatPrefix(parts, i);
    }
    assert parts[..|grids|] == parts;
  }

  /* ------------------------------------------------------------------ */
  /* ConstantIterator's selection                                        */
  /* ------------------------------------------------------------------ */

  /**
   * What `random.sample(tuple_indices, nbsample_max)` may return, given as
   * the positions it took: `max` distinct positions of the list.
   */
  predicate IsSample(pick: seq<nat>, len: nat, max: nat) {
    |pick| == max && (forall a :: 0 <= a < |pick| ==> pick[a] < len)
    && forall a, b :: 0 <= a < b < |pick| ==> pick[a] != pick[b]
  }

  /** The tuples a cell keeps: a sample of `max` of them when it has more. */
  function Kept<T>(tuples: seq<T>, pick: seq<nat>, max: nat): seq<T>
    requires |tuples| > max ==> IsSample(pick, |tuples|, max)
  {
    if |tuples| > max then seq(max, a requires 0 <= a < max => tuples[pick[a]]) else tuples
  }

  /** One sample per cell of every tile, where a cell has more than `max` tuples. */
  predicate PicksFit<T>(grids: seq<(string, Grid<T>)>, picks: seq<seq<seq<nat>>>, max: nat) {
    |picks| == |grids|
    && forall i :: 0 <= i < |grids| ==>
         |picks[i]| == |grids[i].1|
         && forall j :: 0 <= j < |grids[i].1| ==>
              |grids[i].1[j].1| > max ==> IsSample(picks[i][j], |grids[i].1[j].1|, max)
  }

  function KeptGrid<T>(grid: Grid<T>, picks: seq<seq<nat>>, max: nat): (r: Grid<T>)
    requires |picks| == |grid|
    requires forall j :: 0 <= j < |grid| ==> |grid[j].1| > max ==> IsSample(picks[j], |grid[j].1|, max)
    ensures |r| == |grid| && forall j :: 0 <= j < |grid| ==> r[j] == (grid[j].0, Kept(grid[j].1, picks[j], max))
  {
    seq(|grid|, j requires 0 <= j < |grid| => (grid[j].0, Kept(grid[j].1, picks[j], max)))
  }

  /** The grids ConstantIterator enumerates. */
  function KeptGrids<T>(grids: seq<(string, Grid<T>)>, picks: seq<seq<seq<nat>>>, max: nat): (r: seq<(string, Grid<T>)>)
    requires PicksFit(grids, picks, max)
    ensures |r| == |grids| && forall i :: 0 <= i < |grids| ==> r[i] == (grids[i].0, KeptGrid(grids[i].1, picks[i], max))
  {
    seq(|grids|, i requires 0 <= i < |grids| => (grids[i].0, KeptGrid(grids[i].1, picks[i], max)))
  }

  /**
   * Every cell keeps min(len, max) of its tuples, at the same position, each
   * taken from that cell's own list and no position taken twice.
   */
  lemma ConstantKeeps<T>(grids: seq<(string, Grid<T>)>, picks: seq<seq<seq<nat>>>, max: nat, i: nat, j: nat)
    requires PicksFit(grids, picks, max) && i < |grids| && j < |grids[i].1|
    ensures var kept := KeptGrids(grids, picks, max)[i].1[j];
      && kept.0 == grids[i].1[j].0
      && |kept.1| == (if |grids[i].1[j].1| < max then |grids[i].1[j].1| else max)
      && (forall a :: 0 <= a < |kept.1| ==> kept.1[a] in grids[i].1[j].1)
      && (|grids[i].1[j].1| > max ==>
            forall a :: 0 <= a < |kept.1| ==> kept.1[a] == grids[i].1[j].1[picks[i][j][a]])
  {
    var tuples := grids[i].1[j].1;
    var kept := Kept(tuples, picks[i][j], max);
    forall a | 0 <= a < |kept|
      ensures kept[a] in tuples
    {
      if |tuples| > max {
        assert kept[a] == tuples[picks[i][j][a]];
      }
    }
  }

  /* ------------------------------------------------------------------ */
  /* RandomIterator and ConstantIterator                                 */
  /* ------------------------------------------------------------------ */

  /**
   * The iterator both `RandomIterator` and `ConstantIterator` are: they
   * differ only in which tuples they enumerate, so each is a constructor.
   */
  class TupleIterator<T> {
    var tuplesMap: seq<Entry<T>>
    var nbOfTuples: nat
    var indices: seq<nat>
    var count: nat

    ghost predicate Valid()
      reads this
    {
      nbOfTuples == |tuplesMap| && IsPermutation(indices, nbOfTuples)
      && (count < nbOfTuples || count == 0)
    }

    /**
     * `RandomIterator`: every tuple of every tile gets an id; `shuffled` is
     * the order the first shuffle left the ids in.
     */
    constructor Random(grids: seq<(string, Grid<T>)>, shuffled: seq<nat>)
      requires IsPermutation(shuffled, |Entries(grids)|)
      ensures Valid()
      ensures tuplesMap == Entries(grids) && nbOfTuples == TupleCount(grids)
      ensures indices == shuffled && count == 0
    {
      var entries := EnumerateTuples(grids);
      FlatLength(TileParts(grids));
      TupleCountIsLength(grids);
      tuplesMap := entries;
      nbOfTuples := |entries|;
      indices := shuffled;
      count := 0;
    }

    /**
     * `ConstantIterator`: a cell with more than `nbsampleMax` tuples
     * contributes only the sample `picks` chose for it.
     */
    constructor Constant(grids: seq<(string, Grid<T>)>, nbsampleMax: nat, picks: seq<seq<seq<nat>>>, shuffled: seq<nat>)
      requires PicksFit(grids, picks, nbsampleMax)
      requires IsPermutation(shuffled, |Entries(KeptGrids(grids, picks, nbsampleMax))|)
      ensures Valid()
      ensures tuplesMap == Entries(KeptGrids(grids, picks, nbsampleMax))
      ensures nbOfTuples == TupleCount(KeptGrids(grids, picks, nbsampleMax))
      ensures indices == shuffled && count == 0
    {
      var kept := KeptGrids(grids, picks, nbsampleMax);
      var entries := EnumerateTuples(kept);
      FlatLength(TileParts(kept));
      TupleCountIsLength(kept);
      tuplesMap := entries;
      nbOfTuples := |entries|;
      indices := shuffled;
      count := 0;
    }

    /**
     * `__next__`: the entry whose id is under the cursor; the cursor moves
     * on, or after the last id goes back to 0 over the `reshuffled` ids. With
     * no tuple at all, reading `indices[0]` raises.
     */
    method Next(reshuffled: seq<nat>) returns (r: Result<Entry<T>>)
      requires Valid() && multiset(reshuffled) == multiset(indices)
      modifies this`indices, this`count
      ensures Valid()
      ensures nbOfTuples == 0 ==> r == Err(IndexError) && indices == old(indices) && count == old(count)
      ensures nbOfTuples > 0 ==> old(count) < |old(indices)| && old(indices)[old(count)] < |tuplesMap|
      ensures nbOfTuples > 0 ==> r == Ok(tuplesMap[old(indices)[old(count)]])
      ensures old(count) + 1 < nbOfTuples ==> count == old(count) + 1 && indices == old(indices)
      ensures nbOfTuples > 0 && old(count) + 1 == nbOfTuples ==> count == 0 && indices == reshuffled
    {
      if nbOfTuples == 0 {
        return Err(IndexError);
      }
      PermutationVisitsOnce(indices, nbOfTuples);
      var current := indices[count];
      r := Ok(tuplesMap[current]);
      if count < nbOfTuples - 1 {
        count := count + 1;
      } else {
        indices := reshuffled;
        count := 0;
      }
    }
  }

  /* ------------------------------------------------------------------ */
  /* update                                                              */
  /* ------------------------------------------------------------------ */

  /** A value of a nested dict: a mapping, or anything else. */
  datatype Tree<K, V> = Leaf(value: V) | Node(items: Dict<K, Tree<K, V>>)

  /**
   * `update(tuple_map, tmp)` after the first `n` items of the mapping `tmp`,
   * in order. Writing into something that is not a mapping raises: `get` is
   * missing when the new value is a mapping, item assignment otherwise.
   */
  function Update<K(==), V>(m: Tree<K, V>, tmp: Tree<K, V>, n: nat): Result<Tree<K, V>>
    requires tmp.Node? && n <= |tmp.items|
    decreases tmp, n
  {
    if n == 0 then Ok(m)
    else
      var cur :- Update(m, tmp, n - 1);
      UpdateItem(cur, tmp.items[n - 1].0, tmp.items[n - 1].1)
  }

  /** The value `tuple_map.get(key, {})`. */
  function Sub<K(==), V>(d: Dict<K, Tree<K, V>>, k: K): Tree<K, V> {
    match Get(d, k)
    case Some(t) => t
    case None => Node([])
  }

  /**
   * One item of `tmp` written into `m`. A leaf refuses item assignment; the
   * trees `update` receives hold arrays and scalars at their leaves, never
   * lists, so a list leaf accepting an integer key does not arise.
   */
  function UpdateItem<K(==), V>(m: Tree<K, V>, k: K, v: Tree<K, V>): Result<Tree<K, V>>
    decreases v, if v.Node? then |v.items| + 1 else 0
  {
    match m
    case Leaf(_) => Err(if v.Node? then AttributeError else TypeError)
    case Node(d) =>
      if v.Node? then
        var merged :- Update(Sub(d, k), v, |v.items|);
        Ok(Node(Put(d, k, merged)))
      else Ok(Node(Put(d, k, v)))
  }

  /** Once an item fails, so does the whole update, with the same error. */
  lemma {:induction false} UpdateSticks<K, V>(m: Tree<K, V>, tmp: Tree<K, V>, i: nat, n: nat)
    requires tmp.Node? && i <= n <= |tmp.items| && Update(m, tmp, i).Err?
    ensures Update(m, tmp, n) == Update(m, tmp, i)
    decreases n
  {
    if n > i {
      UpdateSticks(m, tmp, i, n - 1);
    }
  }

  /**
   * `update`, as the source runs it: item by item, writing the merged or
   * the new value into the map.
   */
  method UpdateMap<K(==), V>(m: Tree<K, V>, tmp: Tree<K, V>) returns (r: Result<Tree<K, V>>)
    requires tmp.Node?
    ensures r == Update(m, tmp, |tmp.items|)
    decreases tmp, |tmp.items| + 1
  {
    var cur := m;
    for i := 0 to |tmp.items|
      invariant Update(m, tmp, i) == Ok(cur)
    {
      var k, v := tmp.items[i].0, tmp.items[i].1;
      if cur.Leaf? {
        r := Err(if v.Node? then AttributeError else TypeError);
        UpdateSticks(m, tmp, i + 1, |tmp.items|);
        return;
      }
      if v.Node? {
        var merged := UpdateMap(Sub(cur.items, k), v);
        if merged.Err? {
          r := Err(merged.msg);
          UpdateSticks(m, tmp, i + 1, |tmp.items|);
          return;
        }
        cur := Node(Put(cur.items, k, merged.value));
      } else {
        cur := Node(Put(cur.items, k, v));
      }
    }
    r := Ok(cur);
  }

  /** Writing into a value that is not a mapping fails unless there is nothing to write. */
  lemma {:induction false} UpdateLeaf<K, V>(x: V, tmp: Tree<K, V>, n: nat)
    requires tmp.Node? && n <= |tmp.items|
    ensures Update(Leaf(x), tmp, n).Ok? <==> n == 0
    decreases n
  {
    if n > 0 {
      if Update(Leaf(x), tmp, n - 1).Ok? {
        UpdateLeaf(x, tmp, n - 1);
      }
    }
  }

  /**
   * The item `(k, v)` of `tmp` is in `r`: a value that is not a mapping is
   * there as it is, a mapping is the old value of `k` in `m` (or an empty
   * mapping) updated with it.
   */
  ghost predicate WrittenAt<K(!new), V>(m: Tree<K, V>, item: (K, Tree<K, V>), r: Tree<K, V>)
    requires m.Node? && r.Node?
  {
    match item.1
    case Leaf(_) => Get(r.items, item.0) == Some(item.1)
    case Node(_) =>
      && Get(r.items, item.0).Some?
      && Update(Sub(m.items, item.0), item.1, |item.1.items|) == Ok(Get(r.items, item.0).value)
  }

  /**
   * After the first `n` items of `tmp`, every key they do not write keeps
   * its value in `m`, and every item written is in `r` as `WrittenAt` says.
   */
  ghost predicate MergedBy<K(!new), V>(m: Tree<K, V>, tmp: Tree<K, V>, n: nat, r: Tree<K, V>)
    requires m.Node? && tmp.Node? && n <= |tmp.items|
  {
    && r.Node? && IsDict(r.items)
    && (forall k :: k !in Keys(tmp.items[..n]) ==> Get(r.items, k) == Get(m.items, k))
    && (forall i :: 0 <= i < n ==> WrittenAt(m, tmp.items[i], r))
  }

  /** `update` merges key-wise, as `MergedBy` says. */
  lemma {:induction false} UpdateMerges<K(!new), V>(m: Tree<K, V>, tmp: Tree<K, V>, n: nat, r: Tree<K, V>)
    requires m.Node? && IsDict(m.items) && tmp.Node? && IsDict(tmp.items)
    requires n <= |tmp.items| && Update(m, tmp, n) == Ok(r)
    ensures MergedBy(m, tmp, n, r)
    decreases n
  {
    if n > 0 {
      var cur := Update(m, tmp, n - 1).value;
      UpdateMerges(m, tmp, n - 1, cur);
      MergeStep(m, tmp, n - 1, cur, r);
    }
  }

  /** One more item of `tmp` keeps `MergedBy`. */
  lemma MergeStep<K(!new), V>(m: Tree<K, V>, tmp: Tree<K, V>, n: nat, cur: Tree<K, V>, r: Tree<K, V>)
    requires m.Node? && tmp.Node? && IsDict(tmp.items) && n < |tmp.items|
    requires MergedBy(m, tmp, n, cur) && UpdateItem(cur, tmp.items[n].0, tmp.items[n].1) == Ok(r)
    ensures MergedBy(m, tmp, n + 1, r)
  {
    var k, v := tmp.items[n].0, tmp.items[n].1;
    assert Keys(tmp.items[..n + 1]) == Keys(tmp.items[..n]) + [k];
    assert k !in Keys(tmp.items[..n]);
    var w := if v.Node? then Update(Sub(cur.items, k), v, |v.items|).value else v;
    assert r == Node(Put(cur.items, k, w));
    PutMeaning(cur.items, k, w);
    forall j | j !in Keys(tmp.items[..n + 1])
      ensures Get(r.items, j) == Get(m.items, j)
    {
      assert j != k && j !in Keys(tmp.items[..n]);
    }
    forall i | 0 <= i < n + 1
      ensures WrittenAt(m, tmp.items[i], r)
    {
      if i < n {
        assert tmp.items[i].0 != k;
        WrittenAtSame(m, tmp.items[i], cur, r);
      } else {
        assert Get(cur.items, k) == Get(m.items, k);
      }
    }
  }

  /** Whether an item was written depends only on the value at its key. */
  lemma WrittenAtSame<K(!new), V>(m: Tree<K, V>, item: (K, Tree<K, V>), cur: Tree<K, V>, r: Tree<K, V>)
    requires m.Node? && cur.Node? && r.Node? && WrittenAt(m, item, cur)
    requires Get(r.items, item.0) == Get(cur.items, item.0)
    ensures WrittenAt(m, item, r)
  {
  }

  /* ------------------------------------------------------------------ */
  /* OversamplingIterator and LimitedIterator                            */
  /* ------------------------------------------------------------------ */

  type Tuple = TupleSearch.Tuple

  /** The slot whose Sentinel-2 image dates a tuple. */
  const TargetSlot: string := "t"

  /** The four seasons, as lists of month numbers. */
  const MonthsList: seq<seq<int>> := [[3, 4, 5], [6, 7, 8], [9, 10, 11], [12, 1, 2]]

  /** The last of the first `n` seasons that holds `month`. */
  function LastSeason(month: int, n: nat): (r: Option<nat>)
    requires n <= |MonthsList|
    ensures r.Some? ==> r.value < n && month in MonthsList[r.value]
    ensures r.None? ==> forall b :: 0 <= b < n ==> month !in MonthsList[b]
  {
    if n == 0 then None
    else if month in MonthsList[n - 1] then Some(n - 1)
    else LastSeason(month, n - 1)
  }

  /** The season of a month, when some season holds it. */
  function Season(month: int): Option<nat> {
    LastSeason(month, |MonthsList|)
  }

  /** Every month 1..12 lies in exactly one season, and nothing else lies in any. */
  lemma SeasonsPartition(month: int)
    ensures Season(month).Some? <==> 1 <= month <= 12
    ensures forall b :: 0 <= b < |MonthsList| && month in MonthsList[b] ==> Season(month) == Some(b)
  {
    assert MonthsList[0] == [3, 4, 5] && MonthsList[1] == [6, 7, 8];
    assert MonthsList[2] == [9, 10, 11] && MonthsList[3] == [12, 1, 2];
  }

  /** The loop over the seasons, keeping the last one that holds the month. */
  method FindSeason(month: int) returns (idx: Option<nat>)
    ensures idx == Season(month)
  {
    idx := None;
    for b := 0 to |MonthsList|
      invariant idx == LastSeason(month, b)
    {
      if month in MonthsList[b] {
        idx := Some(b);
      }
    }
  }

  /**
   * The season of an entry: that of the acquisition month of the Sentinel-2
   * image of its "t" slot. A tuple without that slot raises, and so does a
   * month no season holds.
   */
  function EntrySeason(e: Entry<Tuple>, monthOf: (string, nat) -> int): (r: Result<nat>)
    ensures r.Ok? ==> r.value < |MonthsList|
  {
    match Get(e.2, TargetSlot)
    case None => Err(KeyError)
    case Some(p) =>
      match Season(monthOf(e.0, p.s2))
      case None => Err(AssertionError)
      case Some(b) => Ok(b)
  }

  /**
   * `tuples_map` of the oversampling iterator: the entries of every season,
   * numbered in the order they come, and the seasons in the order they
   * first received an entry (`list(tuples_map.keys())`).
   */
  datatype Seasons = Seasons(buckets: seq<seq<Entry<Tuple>>>, keys: seq<nat>)

  function NoSeasons(): (r: Seasons)
    ensures |r.buckets| == |MonthsList| && r.keys == []
    ensures forall b :: 0 <= b < |MonthsList| ==> r.buckets[b] == []
  {
    Seasons(seq(|MonthsList|, b => []), [])
  }

  /** One more entry, appended to the bucket of season `b`. */
  function AddToSeason(s: Seasons, b: nat, e: Entry<Tuple>): Seasons
    requires b < |s.buckets|
  {
    Seasons(s.buckets[b := s.buckets[b] + [e]], if b in s.keys then s.keys else s.keys + [b])
  }

  function Bucketed(entries: seq<Entry<Tuple>>, monthOf: (string, nat) -> int): (r: Result<Seasons>)
    ensures r.Ok? ==> |r.value.buckets| == |MonthsList|
  {
    if |entries| == 0 then Ok(NoSeasons())
    else
      var s :- Bucketed(entries[..|entries| - 1], monthOf);
      var b :- EntrySeason(entries[|entries| - 1], monthOf);
      Ok(AddToSeason(s, b, entries[|entries| - 1]))
  }

  /** The entries of season `b`, in order. */
  function InSeason(entries: seq<Entry<Tuple>>, monthOf: (string, nat) -> int, b: nat): seq<Entry<Tuple>> {
    if |entries| == 0 then []
    else
      var front := InSeason(entries[..|entries| - 1], monthOf, b);
      if EntrySeason(entries[|entries| - 1], monthOf) == Ok(b) then front + [entries[|entries| - 1]] else front
  }

  /** The seasons' `keys` are the seasons that received entries, each once. */
  ghost predicate KeysListed(s: Seasons) {
    && (forall i :: 0 <= i < |s.keys| ==> s.keys[i] < |s.buckets|)
    && (forall i, j :: 0 <= i < j < |s.keys| ==> s.keys[i] != s.keys[j])
    && (forall b :: 0 <= b < |s.buckets| ==> (b in s.keys <==> |s.buckets[b]| > 0))
  }

  lemma {:induction false} EmptyParts<X>(parts: seq<seq<X>>)
    requires forall b :: 0 <= b < |parts| ==> parts[b] == []
    ensures TotalLength(parts) == 0
    decreases |parts|
  {
    if |parts| > 0 {
      EmptyParts(parts[..|parts| - 1]);
    }
  }

  lemma TotalLengthAdd<X>(parts: seq<seq<X>>, b: nat, x: X)
    requires b < |parts|
    ensures TotalLength(parts[b := parts[b] + [x]]) == TotalLength(parts) + 1
    decreases |parts|
  {
    var n := |parts|;
    var q := parts[b := parts[b] + [x]];
    if b < n - 1 {
      assert q[..n - 1] == parts[..n - 1][b := parts[b] + [x]];
      TotalLengthAdd(parts[..n - 1], b, x);
    } else {
      assert q[..n - 1] == parts[..n - 1];
    }
  }

  /** Every entry has a season. */
  predicate AllSeasoned(entries: seq<Entry<Tuple>>, monthOf: (string, nat) -> int) {
    forall j :: 0 <= j < |entries| ==> EntrySeason(entries[j], monthOf).Ok?
  }

  /** Bucketing fails exactly when some entry has no season. */
  lemma {:induction false} BucketedFails(entries: seq<Entry<Tuple>>, monthOf: (string, nat) -> int)
    ensures Bucketed(entries, monthOf).Ok? <==> AllSeasoned(entries, monthOf)
    decreases |entries|
  {
    if |entries| > 0 {
      var n := |entries|;
      var front := entries[..n - 1];
      var last := EntrySeason(entries[n - 1], monthOf);
      BucketedFails(front, monthOf);
      if !AllSeasoned(front, monthOf) {
        assert Bucketed(entries, monthOf).Err?;
        var j :| 0 <= j < n - 1 && EntrySeason(front[j], monthOf).Err?;
        assert entries[j] == front[j];
      } else if last.Err? {
        assert Bucketed(entries, monthOf).Err?;
      } else {
        assert Bucketed(entries, monthOf).Ok?;
        forall j | 0 <= j < n
          ensures EntrySeason(entries[j], monthOf).Ok?
        {
          if j < n - 1 {
            assert entries[j] == front[j];
          }
        }
      }
    }
  }

  /**
   * Bucketed entries: the buckets' sizes sum to the number of entries, and
   * the keys are the seasons that received entries, each once.
   */
  lemma {:induction false} BucketedSizes(entries: seq<Entry<Tuple>>, monthOf: (string, nat) -> int)
    requires Bucketed(entries, monthOf).Ok?
    ensures TotalLength(Bucketed(entries, monthOf).value.buckets) == |entries|
    ensures KeysListed(Bucketed(entries, monthOf).value)
    decreases |entries|
  {
    if |entries| == 0 {
      EmptyParts(NoSeasons().buckets);
    } else {
      var n := |entries|;
      var front, e := entries[..n - 1], entries[n - 1];
      BucketedSizes(front, monthOf);
      var s := Bucketed(front, monthOf).value;
      var b := EntrySeason(e, monthOf).value;
      TotalLengthAdd(s.buckets, b, e);
      AddKeepsKeys(s, b, e);
    }
  }

  /** Every season's bucket holds that season's entries, in their order. */
  lemma {:induction false} BucketedSeasons(entries: seq<Entry<Tuple>>, monthOf: (string, nat) -> int, b: nat)
    requires Bucketed(entries, monthOf).Ok? && b < |MonthsList|
    ensures Bucketed(entries, monthOf).value.buckets[b] == InSeason(entries, monthOf, b)
    decreases |entries|
  {
    if |entries| > 0 {
      BucketedSeasons(entries[..|entries| - 1], monthOf, b);
    }
  }

  /**
   * Seasons as the nested dict `update` builds: each season that received
   * entries maps to a dict from entry numbers 0, 1, ... to the entries.
   */
  function BucketTree(bucket: seq<Entry<Tuple>>): (r: Tree<nat, Entry<Tuple>>)
    ensures r.Node? && |r.items| == |bucket|
    ensures forall j :: 0 <= j < |bucket| ==> r.items[j] == (j, Leaf(bucket[j]))
  {
    Node(seq(|bucket|, j requires 0 <= j < |bucket| => (j, Leaf(bucket[j]))))
  }

  function SeasonsTree(s: Seasons): (r: Tree<nat, Entry<Tuple>>)
    requires forall i :: 0 <= i < |s.keys| ==> s.keys[i] < |s.buckets|
    ensures r.Node? && |r.items| == |s.keys|
    ensures forall i :: 0 <= i < |s.keys| ==> r.items[i] == (s.keys[i], BucketTree(s.buckets[s.keys[i]]))
  {
    Node(seq(|s.keys|, i requires 0 <= i < |s.keys| => (s.keys[i], BucketTree(s.buckets[s.keys[i]]))))
  }

  /** Appending to a bucket is `update` with `{b: {number: entry}}`, number being the bucket's size. */
  lemma BucketUpdate(bucket: seq<Entry<Tuple>>, e: Entry<Tuple>)
    ensures Update(BucketTree(bucket), Node([(|bucket|, Leaf(e))]), 1) == Ok(BucketTree(bucket + [e]))
  {
    var d := BucketTree(bucket).items;
    var k: nat, v: Tree<nat, Entry<Tuple>> := |bucket|, Leaf(e);
    var tmp := Node([(k, v)]);
    assert Update(BucketTree(bucket), tmp, 0) == Ok(BucketTree(bucket));
    assert k !in Keys(d);
    PutKeys(d, k, v);
    assert d + [(k, v)] == BucketTree(bucket + [e]).items;
    assert BucketTree(bucket) == Node(d);
    assert UpdateItem(Node(d), k, v) == Ok(Node(Put(d, k, v)));
  }

  /** Adding an entry keeps the seasons' keys listed. */
  lemma AddKeepsKeys(s: Seasons, b: nat, e: Entry<Tuple>)
    requires KeysListed(s) && b < |s.buckets|
    ensures KeysListed(AddToSeason(s, b, e))
  {
  }

  /** In the nested dict, `tuples_map.get(b, {})` is season `b`'s bucket. */
  lemma SeasonsGet(s: Seasons, b: nat)
    requires KeysListed(s) && b < |s.buckets|
    ensures IsDict(SeasonsTree(s).items)
    ensures Sub(SeasonsTree(s).items, b) == BucketTree(s.buckets[b])
  {
    var d := SeasonsTree(s).items;
    if b in s.keys {
      var i :| 0 <= i < |s.keys| && s.keys[i] == b;
      assert d[i].0 == b;
    } else {
      assert b !in Keys(d);
    }
  }

  /** Writing season `b`'s grown bucket into the nested dict gives the grown seasons. */
  lemma SeasonsPut(s: Seasons, b: nat, e: Entry<Tuple>)
    requires KeysListed(s) && b < |s.buckets|
    ensures Put(SeasonsTree(s).items, b, BucketTree(s.buckets[b] + [e])) == SeasonsTree(AddToSeason(s, b, e)).items
  {
    if b in s.keys {
      var i :| 0 <= i < |s.keys| && s.keys[i] == b;
      SeasonsPutListed(s, b, e, i);
    } else {
      SeasonsPutNew(s, b, e);
    }
  }

  /** `SeasonsPut` for a season listed at position `i`: its entry is replaced in place. */
  lemma SeasonsPutListed(s: Seasons, b: nat, e: Entry<Tuple>, i: nat)
    requires b < |s.buckets| && i < |s.keys| && s.keys[i] == b
    requires forall m :: 0 <= m < |s.keys| ==> s.keys[m] < |s.buckets|
    requires forall m :: 0 <= m < |s.keys| && m != i ==> s.keys[m] != b
    ensures Put(SeasonsTree(s).items, b, BucketTree(s.buckets[b] + [e])) == SeasonsTree(AddToSeason(s, b, e)).items
  {
    var d := SeasonsTree(s).items;
    var t := AddToSeason(s, b, e);
    var merged := BucketTree(s.buckets[b] + [e]);
    PutAt(d, b, merged, i);
    var p, q := Put(d, b, merged), SeasonsTree(t).items;
    assert t.keys == s.keys;
    forall m | 0 <= m < |d| ensures p[m] == q[m] {
      if m != i {
        var k := s.keys[m];
        assert t.buckets[k] == s.buckets[k];
      }
    }
    assert |p| == |d| == |q|;
  }

  /** `SeasonsPut` for a season not listed yet: its entry is appended. */
  lemma SeasonsPutNew(s: Seasons, b: nat, e: Entry<Tuple>)
    requires KeysListed(s) && b < |s.buckets| && b !in s.keys
    ensures Put(SeasonsTree(s).items, b, BucketTree(s.buckets[b] + [e])) == SeasonsTree(AddToSeason(s, b, e)).items
  {
    var d := SeasonsTree(s).items;
    var t := AddToSeason(s, b, e);
    var merged := BucketTree(s.buckets[b] + [e]);
    assert b !in Keys(d);
    PutKeys(d, b, merged);
    var q := SeasonsTree(t).items;
    assert t.keys == s.keys + [b];
    forall m | 0 <= m < |d| ensures d[m] == q[m] {
      assert t.keys[m] == s.keys[m] != b;
    }
    assert q == d + [(b, merged)];
  }

  /**
   * The source files an entry with `update(tuples_map, {b: {number: entry}})`;
   * on the nested dict that is the seasons with the entry appended to season
   * `b`, and `b` listed last if it was not listed yet.
   */
  lemma SeasonsUpdate(s: Seasons, b: nat, e: Entry<Tuple>)
    requires KeysListed(s) && b < |s.buckets|
    ensures KeysListed(AddToSeason(s, b, e))
    ensures Update(SeasonsTree(s), Node([(b, Node([(|s.buckets[b]|, Leaf(e))]))]), 1)
         == Ok(SeasonsTree(AddToSeason(s, b, e)))
  {
    AddKeepsKeys(s, b, e);
    var d := SeasonsTree(s).items;
    var k: nat, inner: Tree<nat, Entry<Tuple>> := |s.buckets[b]|, Node([(|s.buckets[b]|, Leaf(e))]);
    var tmp := Node([(b, inner)]);
    assert Update(SeasonsTree(s), tmp, 0) == Ok(SeasonsTree(s));
    SeasonsGet(s, b);
    BucketUpdate(s.buckets[b], e);
    SeasonsPut(s, b, e);
    assert SeasonsTree(s) == Node(d);
    assert UpdateItem(Node(d), b, inner) == Ok(Node(Put(d, b, BucketTree(s.buckets[b] + [e]))));
  }

  /** The bucketing loop over the enumerated entries. */
  method BucketEntries(entries: seq<Entry<Tuple>>, monthOf: (string, nat) -> int) returns (r: Result<Seasons>)
    ensures r == Bucketed(entries, monthOf)
  {
    var s := NoSeasons();
    for j := 0 to |entries|
      invariant Bucketed(entries[..j], monthOf) == Ok(s)
    {
      var e := entries[j];
      assert entries[..j + 1][..j] == entries[..j];
      match Get(e.2, TargetSlot) {
        case None =>
          BucketedSticks(entries, monthOf, j + 1);
          return Err(KeyError);
        case Some(p) =>
          var idx := FindSeason(monthOf(e.0, p.s2));
          if idx.None? {
            BucketedSticks(entries, monthOf, j + 1);
            return Err(AssertionError);
          }
          s := AddToSeason(s, idx.value, e);
      }
    }
    assert entries[..|entries|] == entries;
    r := Ok(s);
  }

  /** Once an entry has no season, bucketing every longer prefix fails the same way. */
  lemma {:induction false} BucketedSticks(entries: seq<Entry<Tuple>>, monthOf: (string, nat) -> int, j: nat)
    requires j <= |entries| && Bucketed(entries[..j], monthOf).Err?
    ensures Bucketed(entries, monthOf) == Bucketed(entries[..j], monthOf)
    decreases |entries| - j
  {
    if j < |entries| {
      assert entries[..j + 1][..j] == entries[..j];
      BucketedSticks(entries, monthOf, j + 1);
    } else {
      assert entries[..j] == entries;
    }
  }

  /** One shuffled order of ids per season, for buckets of the given sizes. */
  ghost predicate ShufflesFit(shuffled: seq<seq<nat>>, buckets: seq<seq<Entry<Tuple>>>) {
    |shuffled| == |buckets| && forall b :: 0 <= b < |buckets| ==> IsPermutation(shuffled[b], |buckets[b]|)
  }

  /** `OversamplingIterator` once its seasons are known. */
  class SeasonIterator {
    var buckets: seq<seq<Entry<Tuple>>>
    var keys: seq<nat>
    var indices: seq<seq<nat>>
    /** `distribution[b]["count"]` */
    var counts: seq<nat>
    var nbOfTuples: int

    ghost predicate Valid()
      reads this
    {
      && |buckets| == |MonthsList| && ShufflesFit(indices, buckets) && |counts| == |MonthsList|
      && (forall b :: 0 <= b < |MonthsList| ==> counts[b] < |buckets[b]| || counts[b] == 0)
      && KeysListed(Seasons(buckets, keys))
    }

    constructor (s: Seasons, shuffled: seq<seq<nat>>, nbOfTuples: int)
      requires |s.buckets| == |MonthsList| && KeysListed(s) && ShufflesFit(shuffled, s.buckets)
      ensures Valid()
      ensures buckets == s.buckets && keys == s.keys && indices == shuffled
      ensures counts == seq(|MonthsList|, b => 0) && this.nbOfTuples == nbOfTuples
    {
      buckets := s.buckets;
      keys := s.keys;
      indices := shuffled;
      counts := seq(|MonthsList|, b => 0);
      this.nbOfTuples := nbOfTuples;
    }

    /**
     * `__next__`: `choice` is the season position the random draw picked
     * among the seasons that received entries; that season's cursor gives
     * the entry, then moves on or, after its last entry, goes back to 0
     * over the `reshuffled` numbers. No season at all makes the draw raise.
     */
    method Next(choice: nat, reshuffled: seq<nat>) returns (r: Result<Entry<Tuple>>)
      requires Valid()
      requires |keys| > 0 ==> choice < |keys| && multiset(reshuffled) == multiset(indices[keys[choice]])
      modifies this`indices, this`counts
      ensures Valid()
      ensures |keys| == 0 ==> r == Err(ValueError) && indices == old(indices) && counts == old(counts)
      ensures |keys| > 0 ==>
        var pos := keys[choice];
        && |buckets[pos]| > 0
        && old(counts)[pos] < |old(indices)[pos]| && old(indices)[pos][old(counts)[pos]] < |buckets[pos]|
        && r == Ok(buckets[pos][old(indices)[pos][old(counts)[pos]]])
        && (old(counts)[pos] + 1 < |buckets[pos]| ==>
              counts == old(counts)[pos := old(counts)[pos] + 1] && indices == old(indices))
        && (old(counts)[pos] + 1 == |buckets[pos]| ==>
              counts == old(counts)[pos := 0] && indices == old(indices)[pos := reshuffled])
    {
      if |keys| == 0 {
        return Err(ValueError);
      }
      var pos := keys[choice];
      PermutationVisitsOnce(indices[pos], |buckets[pos]|);
      var current := indices[pos][counts[pos]];
      r := Ok(buckets[pos][current]);
      if counts[pos] < |buckets[pos]| - 1 {
        counts := counts[pos := counts[pos] + 1];
      } else {
        indices := indices[pos := reshuffled];
        counts := counts[pos := 0];
      }
    }
  }

  /**
   * `OversamplingIterator(...)`: every tuple of every tile goes to its
   * season's bucket; `shuffled` is the order the first shuffle left each
   * season's numbers in.
   */
  method Oversampling(grids: seq<(string, Grid<Tuple>)>, monthOf: (string, nat) -> int, shuffled: seq<seq<nat>>)
    returns (r: Result<SeasonIterator>)
    requires Bucketed(Entries(grids), monthOf).Ok? ==> ShufflesFit(shuffled, Bucketed(Entries(grids), monthOf).value.buckets)
    ensures Bucketed(Entries(grids), monthOf).Err? ==> r == Err(Bucketed(Entries(grids), monthOf).msg)
    ensures Bucketed(Entries(grids), monthOf).Ok? ==>
      && r.Ok? && fresh(r.value) && r.value.Valid()
      && r.value.buckets == Bucketed(Entries(grids), monthOf).value.buckets
      && r.value.keys == Bucketed(Entries(grids), monthOf).value.keys
      && r.value.indices == shuffled && r.value.nbOfTuples == TupleCount(grids)
  {
    var entries := EnumerateTuples(grids);
    var s := BucketEntries(entries, monthOf);
    if s.Err? {
      return Err(s.msg);
    }
    BucketedSizes(entries, monthOf);
    FlatLength(TileParts(grids));
    TupleCountIsLength(grids);
    var it := new SeasonIterator(s.value, shuffled, |entries|);
    r := Ok(it);
  }

  /** `LimitedIterator(...)`: the oversampling iterator, reporting `nbSamples` tuples. */
  method Limited(grids: seq<(string, Grid<Tuple>)>, monthOf: (string, nat) -> int, shuffled: seq<seq<nat>>, nbSamples: int)
    returns (r: Result<SeasonIterator>)
    requires Bucketed(Entries(grids), monthOf).Ok? ==> ShufflesFit(shuffled, Bucketed(Entries(grids), monthOf).value.buckets)
    ensures Bucketed(Entries(grids), monthOf).Err? ==> r == Err(Bucketed(Entries(grids), monthOf).msg)
    ensures Bucketed(Entries(grids), monthOf).Ok? ==>
      && r.Ok? && fresh(r.value) && r.value.Valid()
      && r.value.buckets == Bucketed(Entries(grids), monthOf).value.buckets
      && r.value.keys == Bucketed(Entries(grids), monthOf).value.keys
      && r.value.indices == shuffled && r.value.nbOfTuples == nbSamples
  {
    r := Oversampling(grids, monthOf, shuffled);
    if r.Ok? {
      r.value.nbOfTuples := nbSamples;
    }
  }

  /* ------------------------------------------------------------------ */
  /* Dataset                                                             */
  /* ------------------------------------------------------------------ */

  /**
   * `Dataset.size`: the iterator's tuple count, capped by the maximum
   * number of samples when one is given and it is not 0.
   */
  function DatasetSize(nbOfTuples: int, maxNbOfSamples: Option<int>): (r: int)
    ensures r <= nbOfTuples
    ensures maxNbOfSamples.Some? && maxNbOfSamples.value != 0 ==>
      r <= maxNbOfSamples.value && (r == nbOfTuples || r == maxNbOfSamples.value)
    ensures maxNbOfSamples.None? || maxNbOfSamples.value == 0 ==> r == nbOfTuples
  {
    match maxNbOfSamples
    case Some(m) => if m != 0 then (if nbOfTuples <= m then nbOfTuples else m) else nbOfTuples
    case None => nbOfTuples
  }

  /** The `len` samples the stream delivers from position `start` on. */
  function Window<S>(source: nat -> S, start: nat, len: nat): (r: seq<S>)
    ensures |r| == len && forall k :: 0 <= k < len ==> r[k] == source(start + k)
  {
    seq(len, k requires 0 <= k < len => source(start + k))
  }

  lemma WindowGrows<S>(source: nat -> S, start: nat, len: nat)
    ensures Window(source, start, len + 1) == Window(source, start, len) + [source(start + len)]
  {
  }

  /**
   * The double buffer. `source(k)` is the sample read for the `k`-th tuple
   * the iterator hands out; `drawn` counts the tuples taken from it so far.
   * The miner thread is run to completion each time it is summoned.
   */
  class Dataset<S> {
    const source: nat -> S
    const bufferLength: nat
    var size: int
    var miner: Buffer<S>
    var consumer: Buffer<S>
    var consumerPos: nat
    var drawn: nat
    /** How many samples `ReadOneSample` has returned so far. */
    ghost var served: nat

    ghost predicate Valid()
      reads this, miner, consumer
    {
      && miner != consumer
      && miner.maxLength == bufferLength && consumer.maxLength == bufferLength
      && drawn >= 2 * bufferLength
      && consumer.container == Window(source, drawn - 2 * bufferLength, bufferLength)
      && miner.container == Window(source, drawn - bufferLength, bufferLength)
      && (consumerPos < bufferLength || consumerPos == 0)
      && served == drawn - 2 * bufferLength + consumerPos
    }

    /**
     * `Dataset(...)`: both buffers, the miner filled once and dumped into
     * the consumer, and the miner filled again.
     */
    constructor (nbOfTuples: int, maxNbOfSamples: Option<int>, bufferLength: nat, source: nat -> S)
      ensures Valid() && fresh(miner) && fresh(consumer)
      ensures size == DatasetSize(nbOfTuples, maxNbOfSamples)
      ensures served == 0 && consumerPos == 0
      ensures consumer.container == Window(source, 0, bufferLength)
    {
      this.source := source;
      this.bufferLength := bufferLength;
      size := DatasetSize(nbOfTuples, maxNbOfSamples);
      var m := new Buffer(bufferLength);
      var c := new Buffer(bufferLength);
      miner, consumer := m, c;
      consumerPos := 0;
      drawn := 0;
      served := 0;
      new;
      Collect();
      Dump();
    }

    /** `_collect`: fill the miner with the next samples until it is complete. */
    method Collect()
      requires miner.container == [] && miner.maxLength == bufferLength
      modifies miner`container, this`drawn
      ensures miner.container == Window(source, old(drawn), bufferLength)
      ensures drawn == old(drawn) + bufferLength
    {
      while !miner.IsComplete()
        invariant |miner.container| <= bufferLength && drawn - |miner.container| == old(drawn)
        invariant miner.container == Window(source, old(drawn), |miner.container|)
        decreases bufferLength - |miner.container|
      {
        var sample := source(drawn);
        WindowGrows(source, old(drawn), |miner.container|);
        drawn := drawn + 1;
        var o := miner.Add(sample);
        assert o.Pass?;
      }
    }

    /**
     * `_dump`: the consumer takes a copy of the miner's samples, the miner is
     * emptied and filled again.
     */
    method Dump()
      requires miner != consumer && miner.maxLength == bufferLength
      modifies miner`container, consumer`container, this`drawn
      ensures consumer.container == old(miner.container)
      ensures miner.container == Window(source, old(drawn), bufferLength)
      ensures drawn == old(drawn) + bufferLength
    {
      consumer.container := miner.container;
      miner.container := [];
      Collect();
    }

    /**
     * `read_one_sample`: the consumer's sample under the cursor; once the
     * cursor reaches the end, a dump and the cursor back at 0. With buffers
     * of length 0 there is never a sample.
     */
    method ReadOneSample() returns (output: Option<S>)
      requires Valid()
      modifies this`consumerPos, this`drawn, this`served, miner`container, consumer`container
      ensures Valid()
      ensures bufferLength > 0 ==> output == Some(source(old(served))) && served == old(served) + 1
      ensures bufferLength == 0 ==> output == None && served == old(served)
      ensures old(consumerPos) + 1 < bufferLength ==>
        consumerPos == old(consumerPos) + 1 && drawn == old(drawn)
        && consumer.container == old(consumer.container) && miner.container == old(miner.container)
      ensures old(consumerPos) + 1 >= bufferLength ==>
        consumerPos == 0 && drawn == old(drawn) + bufferLength
        && consumer.container == old(miner.container)
        && miner.container == Window(source, old(drawn), bufferLength)
    {
      output := None;
      if consumerPos < consumer.maxLength {
        output := Some(consumer.container[consumerPos]);
        consumerPos := consumerPos + 1;
        served := served + 1;
      }
      if consumerPos == consumer.maxLength {
        Dump();
        consumerPos := 0;
      }
    }

    /**
     * `_generator`: `size` samples read one after the other; they are the
     * stream's samples in order, from where reading stood.
     */
    method Generate() returns (outputs: seq<Option<S>>)
      requires Valid()
      modifies this`consumerPos, this`drawn, this`served, miner`container, consumer`container
      ensures Valid()
      ensures |outputs| == (if size < 0 then 0 else size)
      ensures bufferLength > 0 ==> forall k :: 0 <= k < |outputs| ==> outputs[k] == Some(source(old(served) + k))
      ensures bufferLength == 0 ==> forall k :: 0 <= k < |outputs| ==> outputs[k] == None
    {
      outputs := [];
      var n := if size < 0 then 0 else size;
      for i := 0 to n
        invariant Valid() && |outputs| == i
        invariant bufferLength > 0 ==> served == old(served) + i
        invariant bufferLength > 0 ==> forall k :: 0 <= k < i ==> outputs[k] == Some(source(old(served) + k))
        invariant bufferLength == 0 ==> forall k :: 0 <= k < i ==> outputs[k] == None
      {
        var o := ReadOneSample();
        outputs := outputs + [o];
      }
    }
  }
}
