/**
 * The deterministic parts of `TFRecords` (decloud/models/tfrecord.py): how
 * `ds2tfrecord` splits the samples of a dataset into shards and records the
 * footprint of each sample as a GeoJSON polygon, the output shapes it saves,
 * how `parse_tfrecord` splits the parsed features into inputs and targets,
 * and how `read` trims the record files to a multiple of the workers.
 * TensorFlow serialisation, files and JSON writing are not part of this model.
 */
module TfRecords {
  import opened Wrappers
  import opened PyDict

  const ZeroDivisionError: string := "ZeroDivisionError"
  /** The bare `Exception` `read` raises when no record file is left. */
  const NoRecordsError: string := "Exception"

  /** Python's `a // b`: the quotient rounded toward minus infinity. */
  function FloorDiv(a: int, b: int): int
    requires b != 0
  {
    if b < 0 && a % b != 0 then a / b - 1 else a / b
  }

  /** Python's `a % b`: what `b * (a // b)` leaves of `a`, with the sign of `b`. */
  function FloorMod(a: int, b: int): int
    requires b != 0
  {
    a - b * FloorDiv(a, b)
  }

  /** Python's integer division: `a == b * q + m` with `m` between 0 and `b`, on the side of `b`. */
  lemma {:induction false} FloorDivMeaning(a: int, b: int)
    requires b != 0
    ensures a == b * FloorDiv(a, b) + FloorMod(a, b)
    ensures b > 0 ==> 0 <= FloorMod(a, b) < b
    ensures b < 0 ==> b < FloorMod(a, b) <= 0
  {
    var q, m := a / b, a % b;
    assert a == b * q + m && 0 <= m;
    if b < 0 {
      assert m < -b;
      if m != 0 {
        assert b * (q - 1) == b * q - b;
      }
    }
  }

  /**
   * `nb_shards` of `ds2tfrecord` for `size` samples and `n` samples per
   * shard: `size // n`, one more for the remainder unless it is dropped.
   */
  function NbShards(size: nat, n: int, dropRemainder: bool): Result<int>
  {
    if n == 0 then Err(ZeroDivisionError)
    else
      var q := FloorDiv(size, n);
      Ok(if !dropRemainder && FloorMod(size, n) > 0 then q + 1 else q)
  }

  /** For a positive divisor Python's division is Dafny's. */
  lemma {:induction false} FloorDivPositive(a: int, b: int)
    requires b > 0
    ensures FloorDiv(a, b) == a / b && FloorMod(a, b) == a % b
    ensures a == b * (a / b) + a % b && 0 <= a % b < b
  {
  }

  lemma {:induction false} MulSucc(q: int, n: int)
    ensures (q + 1) * n == q * n + n && (q - 1) * n == q * n - n
  {
  }

  /**
   * Only a zero shard size fails. With positive `n`, dropping the remainder
   * gives the most shards of `n` samples that `size` fills, and keeping it
   * the fewest shards of `n` samples that hold all `size`; a negative `n`
   * gives no shard.
   */
  lemma {:induction false} NbShardsMeaning(size: nat, n: int, dropRemainder: bool)
    ensures NbShards(size, n, dropRemainder).Err? <==> n == 0
    ensures n > 0 && dropRemainder ==> var k := NbShards(size, n, dropRemainder).value;
      k >= 0 && k * n <= size < k * n + n
    ensures n > 0 && !dropRemainder ==> var k := NbShards(size, n, dropRemainder).value;
      k >= 0 && (k - 1) * n < size <= k * n
    ensures n < 0 ==> NbShards(size, n, dropRemainder).value <= 0
  {
    if n > 0 {
      FloorDivPositive(size, n);
      var q := size / n;
      MulSucc(q, n);
    } else if n < 0 {
      NbShardsNegative(size, n, dropRemainder);
    }
  }

  /** A negative number of samples per shard gives no shard. */
  lemma {:induction false} NbShardsNegative(size: nat, n: int, dropRemainder: bool)
    requires n < 0
    ensures NbShards(size, n, dropRemainder).value <= 0
  {
    FloorDivMeaning(size, n);
    var q := FloorDiv(size, n);
    if q > 0 {
      NegativeTimes(q, n);
    }
  }

  lemma {:induction false} NegativeTimes(q: int, n: int)
    requires q > 0 && n < 0
    ensures n * q <= n
  {
  }

  /** `nb_sample` of shard `i`: `n`, or what is left of the `size` samples. */
  function ShardSize(size: nat, n: int, i: nat): int
  {
    if (i + 1) * n <= size then n else size - i * n
  }

  /** The samples the first `k` shards take. */
  function Written(size: nat, n: int, k: nat): int
  {
    if k == 0 then 0 else Written(size, n, k - 1) + ShardSize(size, n, k - 1)
  }

  /**
   * Before the last shard every shard is full: the shards take the samples
   * in order, `n` at a time, every one holding between 1 and `n` samples.
   */
  lemma {:induction false} WrittenFull(size: nat, n: int, dropRemainder: bool, k: nat)
    requires n > 0 && k < NbShards(size, n, dropRemainder).value
    ensures Written(size, n, k) == k * n
    ensures 0 < ShardSize(size, n, k) <= n
  {
    NbShardsMeaning(size, n, dropRemainder);
    var nb := NbShards(size, n, dropRemainder).value;
    MulSucc(k, n);
    if k > 0 {
      WrittenFull(size, n, dropRemainder, k - 1);
    }
    MulMono(k + 1, nb, n);
    MulMono(k, nb - 1, n);
  }

  lemma {:induction false} MulMono(a: int, b: int, n: nat)
    requires a <= b
    ensures a * n <= b * n
  {
  }

  /**
   * All shards together take every sample when the remainder is kept, and
   * the largest multiple of `n` samples when it is dropped.
   */
  lemma {:induction false} WrittenTotal(size: nat, n: int, dropRemainder: bool)
    requires n > 0
    ensures var nb := NbShards(size, n, dropRemainder).value;
      nb >= 0 && Written(size, n, nb) == if dropRemainder then FloorDiv(size, n) * n else size
  {
    NbShardsMeaning(size, n, dropRemainder);
    FloorDivPositive(size, n);
    var nb := NbShards(size, n, dropRemainder).value;
    if nb > 0 {
      WrittenFull(size, n, dropRemainder, nb - 1);
      MulSucc(nb - 1, n);
    }
  }

  /** The `geoinfo` of a sample: upper-left and lower-right longitude and latitude. */
  datatype GeoInfo = GeoInfo(ulLon: real, ulLat: real, lrLon: real, lrLat: real)

  /** A GeoJSON feature of a shard: the sample's position in the shard and its polygon's ring. */
  datatype Feature = Feature(sampleId: nat, ring: seq<(real, real)>)

  /**
   * The polygon of a sample: a closed ring of five positions, longitude
   * before latitude as in sections 3.1.1 and 3.1.6 of RFC 7946, going round
   * the box from the upper-left corner, each edge along a meridian or a
   * parallel.
   */
  function Ring(g: GeoInfo): (r: seq<(real, real)>)
    ensures |r| == 5 && r[0] == r[4] == (g.ulLon, g.ulLat) && r[2] == (g.lrLon, g.lrLat)
    ensures forall k :: 0 <= k < 4 ==> r[k].0 == r[k + 1].0 || r[k].1 == r[k + 1].1
    ensures forall k :: 0 <= k < 5 ==> (r[k].0 == g.ulLon || r[k].0 == g.lrLon) && (r[k].1 == g.ulLat || r[k].1 == g.lrLat)
  {
    [(g.ulLon, g.ulLat), (g.lrLon, g.ulLat), (g.lrLon, g.lrLat), (g.ulLon, g.lrLat), (g.ulLon, g.ulLat)]
  }

  /**
   * The inner loop of `ds2tfrecord`: `count` samples read in turn from
   * `geo`, from sample `start` on, each giving a feature.
   */
  method WriteShard(geo: nat -> GeoInfo, start: nat, count: nat) returns (features: seq<Feature>)
    ensures features == ShardFeatures(geo, start, count)
    ensures forall s :: 0 <= s < count ==> features[s].sampleId == s && features[s].ring == Ring(geo(start + s))
  {
    features := [];
    for s := 0 to count
      invariant |features| == s
      invariant forall j :: 0 <= j < s ==> features[j] == Feature(j, Ring(geo(start + j)))
    {
      features := features + [Feature(s, Ring(geo(start + s)))];
    }
  }

  /**
   * `ds2tfrecord` over `size` samples whose `geoinfo` the dataset gives in
   * reading order: the features of each shard's GeoJSON collection. Shard
   * `i` holds the samples from `Written(size, n, i)` on.
   */
  method Ds2TfRecord(size: nat, n: int, dropRemainder: bool, geo: nat -> GeoInfo) returns (r: Result<seq<seq<Feature>>>)
    ensures r.Err? <==> n == 0
    ensures r.Ok? ==> var nb := NbShards(size, n, dropRemainder).value;
      |r.value| == (if nb > 0 then nb else 0) && Sharded(r.value, size, n, geo)
  {
    var shards := NbShards(size, n, dropRemainder);
    if shards.Err? {
      return Err(shards.msg);
    }
    var nb := shards.value;
    var count := if nb > 0 then nb else 0;
    var out: seq<seq<Feature>> := [];
    var next := 0;
    for i := 0 to count
      invariant |out| == i && next == Written(size, n, i)
      invariant Sharded(out, size, n, geo)
    {
      WrittenFull(size, n, dropRemainder, i);
      var nbSample := ShardSize(size, n, i);
      var features := WriteShard(geo, next, nbSample);
      ShardedSnoc(out, features, size, n, geo);
      out := out + [features];
      next := next + nbSample;
    }
    return Ok(out);
  }

  /** The features of `count` samples read from `start` on, numbered from 0. */
  function ShardFeatures(geo: nat -> GeoInfo, start: nat, count: nat): (r: seq<Feature>)
    ensures |r| == count
  {
    seq(count, s requires 0 <= s < count => Feature(s, Ring(geo(start + s))))
  }

  /**
   * Shard `i` of `shards` holds `ShardSize(size, n, i)` features, the
   * samples read from `Written(size, n, i)` on.
   */
  ghost predicate Sharded(shards: seq<seq<Feature>>, size: nat, n: int, geo: nat -> GeoInfo) {
    forall i :: 0 <= i < |shards| ==> ShardAt(shards[i], size, n, geo, i)
  }

  /** Shard `i` holds `ShardSize(size, n, i)` features, the samples read from `Written(size, n, i)` on. */
  ghost predicate ShardAt(shard: seq<Feature>, size: nat, n: int, geo: nat -> GeoInfo, i: nat) {
    Written(size, n, i) >= 0 && ShardSize(size, n, i) >= 0
    && shard == ShardFeatures(geo, Written(size, n, i), ShardSize(size, n, i))
  }

  lemma ShardedSnoc(shards: seq<seq<Feature>>, features: seq<Feature>, size: nat, n: int, geo: nat -> GeoInfo)
    requires Sharded(shards, size, n, geo)
    requires ShardAt(features, size, n, geo, |shards|)
    ensures Sharded(shards + [features], size, n, geo)
  {
    var t := shards + [features];
    forall i | 0 <= i < |t|
      ensures ShardAt(t[i], size, n, geo, i)
    {
      if i < |shards| {
        assert t[i] == shards[i];
      }
    }
  }

  /** A saved output shape: the dataset's shape behind a leading `None` batch dimension. */
  function WithBatch(shape: seq<nat>): (r: seq<Option<nat>>)
    ensures |r| == |shape| + 1 && r[0] == None
    ensures forall j :: 0 <= j < |shape| ==> r[j + 1] == Some(shape[j])
  {
    [None] + seq(|shape|, j requires 0 <= j < |shape| => Some(shape[j]))
  }

  /**
   * `convert_dataset_output_shapes`: the `output_shapes` dict, key by key in
   * the dataset's order, each shape given its batch dimension.
   */
  method ConvertOutputShapes(shapes: Dict<string, seq<nat>>) returns (r: Dict<string, seq<Option<nat>>>)
    requires IsDict(shapes)
    ensures Keys(r) == Keys(shapes)
    ensures forall i :: 0 <= i < |shapes| ==> r[i] == (shapes[i].0, WithBatch(shapes[i].1))
  {
    r := [];
    for i := 0 to |shapes|
      invariant Keys(r) == Keys(shapes[..i])
      invariant forall j :: 0 <= j < i ==> r[j] == (shapes[j].0, WithBatch(shapes[j].1))
    {
      assert shapes[i].0 !in Keys(shapes[..i]);
      PutKeys(r, shapes[i].0, WithBatch(shapes[i].1));
      r := Put(r, shapes[i].0, WithBatch(shapes[i].1));
      assert Keys(shapes[..i + 1]) == Keys(shapes[..i]) + [shapes[i].0];
    }
    assert shapes[..|shapes|] == shapes;
  }

  /** The items of `d`, in order, whose key is among `keys` exactly when `inKeys` holds. */
  function Select<V>(d: Dict<string, V>, keys: seq<string>, inKeys: bool): Dict<string, V>
  {
    if |d| == 0 then []
    else
      var n := |d| - 1;
      Select(d[..n], keys, inKeys) + (if (d[n].0 in keys) == inKeys then [d[n]] else [])
  }

  /** `parse_tfrecord`'s split of the parsed features: inputs, then targets. */
  function SplitTargets<V>(parsed: Dict<string, V>, targetKeys: seq<string>): (Dict<string, V>, Dict<string, V>)
  {
    (Select(parsed, targetKeys, false), Select(parsed, targetKeys, true))
  }

  /**
   * The inputs are the parsed items whose key is no target key and the
   * targets the others; together they hold every parsed item once.
   */
  lemma {:induction false} SplitTargetsMeaning<V>(parsed: Dict<string, V>, targetKeys: seq<string>)
    ensures var (inputs, targets) := SplitTargets(parsed, targetKeys);
      && multiset(inputs) + multiset(targets) == multiset(parsed)
      && (forall e :: e in inputs ==> e in parsed && e.0 !in targetKeys)
      && (forall e :: e in targets ==> e in parsed && e.0 in targetKeys)
  {
    if |parsed| > 0 {
      var n := |parsed| - 1;
      SplitTargetsMeaning(parsed[..n], targetKeys);
      assert parsed == parsed[..n] + [parsed[n]];
    }
  }

  /** Python's `files[:k]` for `k >= 0`. */
  function Take(files: seq<string>, k: nat): seq<string>
  {
    if k <= |files| then files[..k] else files
  }

  /**
   * `read`'s trimming of the record files: `files[:n_workers * (len(files)
   * // n_workers)]`, an error when that leaves none.
   */
  function TrimToWorkers(files: seq<string>, nWorkers: int): Result<seq<string>>
  {
    if nWorkers == 0 then Err(ZeroDivisionError)
    else
      FloorDivMeaning(|files|, nWorkers);
      var kept := Take(files, nWorkers * FloorDiv(|files|, nWorkers));
      if |kept| == 0 then Err(NoRecordsError) else Ok(kept)
  }

  /**
   * With `n` workers the files kept are the longest prefix whose length is
   * a multiple of `n`, and the trim fails exactly when there are fewer
   * files than workers; with a negative worker count every file is kept.
   */
  lemma {:induction false} TrimToWorkersMeaning(files: seq<string>, nWorkers: int)
    ensures nWorkers == 0 ==> TrimToWorkers(files, nWorkers).Err?
    ensures nWorkers > 0 ==> (TrimToWorkers(files, nWorkers).Err? <==> |files| < nWorkers)
    ensures nWorkers > 0 && TrimToWorkers(files, nWorkers).Ok? ==>
      var kept := TrimToWorkers(files, nWorkers).value;
      && kept == files[..|kept|]
      && FloorMod(|kept|, nWorkers) == 0
      && |files| - |kept| < nWorkers
    ensures nWorkers < 0 ==> TrimToWorkers(files, nWorkers) == if |files| == 0 then Err(NoRecordsError) else Ok(files)
  {
    if nWorkers > 0 {
      FloorDivPositive(|files|, nWorkers);
      var q := |files| / nWorkers;
      var k := nWorkers * q;
      if q > 0 {
        MulMono(1, q, nWorkers);
        MultipleMod(k, nWorkers, q);
      }
    } else if nWorkers < 0 {
      FloorDivMeaning(|files|, nWorkers);
      var k := nWorkers * FloorDiv(|files|, nWorkers);
      assert k >= |files|;
      assert Take(files, k) == files;
    }
  }

  /** A multiple of positive `b` leaves nothing over. */
  lemma {:induction false} MultipleMod(k: int, b: int, q: int)
    requires b > 0 && k == b * q
    ensures FloorMod(k, b) == 0
  {
    FloorDivPositive(k, b);
    var d := q - k / b;
    assert b * d == k % b;
    if d > 0 {
      MulMono(1, d, b);
    }
  }
}
