/**
 * Python dictionaries as the modelled code uses them: items kept in
 * insertion order, `d[k] = v` overwriting in place or appending, and
 * `d.get(k)`.
 */
module PyDict {
  import opened Wrappers

  /** The items of a dict, in insertion order. */
  type Dict<K, V> = seq<(K, V)>

  function Keys<K, V>(d: Dict<K, V>): (r: seq<K>)
    ensures |r| == |d| && forall i :: 0 <= i < |d| ==> r[i] == d[i].0
  {
    seq(|d|, i requires 0 <= i < |d| => d[i].0)
  }

  /** No key occurs twice. */
  predicate IsDict<K(==), V>(d: Dict<K, V>) {
    forall i, j :: 0 <= i < j < |d| ==> d[i].0 != d[j].0
  }

  /** `d.get(k)` */
  function Get<K(==), V>(d: Dict<K, V>, k: K): (r: Option<V>)
    ensures r.Some? <==> k in Keys(d)
    ensures r.Some? ==> exists i :: 0 <= i < |d| && d[i] == (k, r.value)
    ensures IsDict(d) ==> forall i :: 0 <= i < |d| && d[i].0 == k ==> r == Some(d[i].1)
  {
    if |d| == 0 then None
    else if d[|d| - 1].0 == k then Some(d[|d| - 1].1)
    else
      var r := Get(d[..|d| - 1], k);
      assert Keys(d) == Keys(d[..|d| - 1]) + [d[|d| - 1].0];
      assert r.Some? ==> exists i :: 0 <= i < |d| - 1 && d[i] == (k, r.value);
      r
  }

  /** `d[k] = v`: an existing key keeps its place and takes the new value, a new key goes last. */
  function Put<K(==), V>(d: Dict<K, V>, k: K, v: V): Dict<K, V>
  {
    if |d| == 0 then [(k, v)]
    else if d[0].0 == k then [(k, v)] + d[1..]
    else [d[0]] + Put(d[1..], k, v)
  }

  /** `d[k] = v` keeps the keys when `k` is one of them, and appends the item otherwise. */
  lemma {:induction false} PutKeys<K, V>(d: Dict<K, V>, k: K, v: V)
    ensures |Put(d, k, v)| == |d| || |Put(d, k, v)| == |d| + 1
    ensures k in Keys(d) ==> |Put(d, k, v)| == |d| && Keys(Put(d, k, v)) == Keys(d)
    ensures k !in Keys(d) ==> Put(d, k, v) == d + [(k, v)]
    decreases |d|
  {
    if |d| > 0 && d[0].0 != k {
      assert Keys(d) == [d[0].0] + Keys(d[1..]);
      assert k in Keys(d) <==> k in Keys(d[1..]);
      PutKeys(d[1..], k, v);
      var rest := Put(d[1..], k, v);
      assert Put(d, k, v) == [d[0]] + rest;
      assert Keys([d[0]] + rest) == [d[0].0] + Keys(rest);
      if k !in Keys(d) {
        assert d + [(k, v)] == [d[0]] + (d[1..] + [(k, v)]);
      }
    }
  }

  /** After `d[k] = v` the dict is still a dict, `k` holds `v` and every other key is untouched. */
  lemma {:induction false} PutMeaning<K, V>(d: Dict<K, V>, k: K, v: V)
    requires IsDict(d)
    ensures IsDict(Put(d, k, v))
    ensures Get(Put(d, k, v), k) == Some(v)
    ensures forall j :: j != k ==> Get(Put(d, k, v), j) == Get(d, j)
    decreases |d|
  {
    var r := Put(d, k, v);
    PutKeys(d, k, v);
    if k in Keys(d) {
      var i :| 0 <= i < |d| && d[i].0 == k;
      PutAt(d, k, v, i);
      assert r[i] == (k, v);
      forall j | j != k
        ensures Get(r, j) == Get(d, j)
      {
        if j in Keys(d) {
          var m :| 0 <= m < |d| && d[m].0 == j;
          assert r[m] == d[m];
        }
      }
    } else {
      assert r[|d|] == (k, v);
      forall j | j != k
        ensures Get(r, j) == Get(d, j)
      {
        assert Keys(r) == Keys(d) + [k];
        if j in Keys(d) {
          var m :| 0 <= m < |d| && d[m].0 == j;
          assert r[m] == d[m];
        }
      }
    }
  }

  /** Where an existing key sits, `Put` writes the new value and leaves every other item as it was. */
  lemma {:induction false} PutAt<K, V>(d: Dict<K, V>, k: K, v: V, i: nat)
    requires i < |d| && d[i].0 == k && forall m :: 0 <= m < i ==> d[m].0 != k
    ensures |Put(d, k, v)| == |d| && Put(d, k, v)[i] == (k, v)
    ensures forall m :: 0 <= m < |d| && m != i ==> Put(d, k, v)[m] == d[m]
    decreases |d|
  {
    if i > 0 {
      PutAt(d[1..], k, v, i - 1);
    }
  }

  /** The dict after the writes `ws`, in order, on `d`. */
  function PutAll<K(==), V>(d: Dict<K, V>, ws: seq<(K, V)>): Dict<K, V>
  {
    if |ws| == 0 then d else Put(PutAll(d, ws[..|ws| - 1]), ws[|ws| - 1].0, ws[|ws| - 1].1)
  }

  /** The value of the last of the writes `ws` to key `k`, if any. */
  function LastWrite<K(==), V>(ws: seq<(K, V)>, k: K): (r: Option<V>)
    ensures r.Some? <==> k in Keys(ws)
  {
    if |ws| == 0 then None
    else if ws[|ws| - 1].0 == k then Some(ws[|ws| - 1].1)
    else
      assert Keys(ws) == Keys(ws[..|ws| - 1]) + [ws[|ws| - 1].0];
      LastWrite(ws[..|ws| - 1], k)
  }

  /**
   * A run of writes leaves a dict whose every key holds the value of the last
   * write to it, or its old value when nothing wrote to it.
   */
  lemma {:induction false} PutAllMeaning<K, V>(d: Dict<K, V>, ws: seq<(K, V)>)
    requires IsDict(d)
    ensures IsDict(PutAll(d, ws))
    ensures forall k :: Get(PutAll(d, ws), k) == if LastWrite(ws, k).Some? then LastWrite(ws, k) else Get(d, k)
    decreases |ws|
  {
    if |ws| > 0 {
      var front := ws[..|ws| - 1];
      PutAllMeaning(d, front);
      PutMeaning(PutAll(d, front), ws[|ws| - 1].0, ws[|ws| - 1].1);
    }
  }

  /** The keys of concatenated items are the keys of each part, in order. */
  lemma KeysAppend<K, V>(a: Dict<K, V>, b: Dict<K, V>)
    ensures Keys(a + b) == Keys(a) + Keys(b)
    ensures forall k :: k in Keys(a + b) <==> k in Keys(a) || k in Keys(b)
  {
    assert Keys(a + b) == Keys(a) + Keys(b);
  }

  /** One more write after a run of writes. */
  lemma PutAllSnoc<K, V>(d: Dict<K, V>, ws: seq<(K, V)>, k: K, v: V)
    ensures PutAll(d, ws + [(k, v)]) == Put(PutAll(d, ws), k, v)
  {
    assert (ws + [(k, v)])[..|ws|] == ws;
  }

  /** The writes up to position m + 1 are those up to m and then write m. */
  lemma PutAllPrefix<K, V>(d: Dict<K, V>, ws: seq<(K, V)>, m: nat)
    requires m < |ws|
    ensures PutAll(d, ws[..m + 1]) == Put(PutAll(d, ws[..m]), ws[m].0, ws[m].1)
  {
    assert ws[..m + 1][..m] == ws[..m];
  }

  /** Two runs of writes, one after the other, are one run. */
  lemma {:induction false} PutAllAppend<K, V>(d: Dict<K, V>, a: seq<(K, V)>, b: seq<(K, V)>)
    ensures PutAll(d, a + b) == PutAll(PutAll(d, a), b)
    decreases |b|
  {
    if |b| == 0 {
      assert a + b == a;
    } else {
      assert (a + b)[..|a + b| - 1] == a + b[..|b| - 1];
      PutAllAppend(d, a, b[..|b| - 1]);
    }
  }
}
