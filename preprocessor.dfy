/**
 * The SAR/optical pairing application
 * (`app/otbDecloudTimeSeriesPreProcessor.cxx`): pairs of SAR and optical
 * images close enough in time, the stacks of the images those pairs use,
 * and the pixel function that lays the first N usable pairs side by side.
 *
 * Timestamps and pixel values are `real`: float32 rounding is not part of
 * this model.
 */
module PreProcessor {
  import opened Wrappers
  import PyStr

  /* ------------------------------------------------------------------ */
  /* Timestamps                                                          */
  /* ------------------------------------------------------------------ */

  /** `TimestampWithIndex`: a timestamp and the position of its image in the input list. */
  datatype Stamp = Stamp(timestamp: real, index: nat)

  datatype SortMode = Asc | Des | Abs

  const NoPairsError: string := "No S1/S2 pairs found. You could try to increase the maxgap and/or double check the dates of your timeseries"

  function Dist(a: real, b: real): real {
    if a < b then b - a else a - b
  }

  /**
   * The key each sorting mode orders by, smallest first: the timestamp, its
   * opposite (latest first), or its distance to the reference timestamp.
   */
  function Key(mode: SortMode, ref: real, t: real): real {
    match mode
    case Asc => t
    case Des => -t
    case Abs => Dist(t, ref)
  }

  ghost predicate SortedBy(s: seq<Stamp>, mode: SortMode, ref: real) {
    forall i, j :: 0 <= i < j < |s| ==> Key(mode, ref, s[i].timestamp) <= Key(mode, ref, s[j].timestamp)
  }

  /** The timestamps of a parameter list, each with its position. */
  function Stamps(ts: seq<real>): (r: seq<Stamp>)
    ensures |r| == |ts| && forall i :: 0 <= i < |ts| ==> r[i] == Stamp(ts[i], i)
  {
    seq(|ts|, i requires 0 <= i < |ts| => Stamp(ts[i], i))
  }

  /** A stamp of the list is the timestamp at its own index. */
  lemma StampsIndexed(ts: seq<real>, s: Stamp)
    requires s in multiset(Stamps(ts))
    ensures s.index < |ts| && s.timestamp == ts[s.index]
  {
    var i :| 0 <= i < |ts| && Stamps(ts)[i] == s;
  }

  /**
   * `GetTimestampsWithIndices`: the timestamps of a parameter list, in a
   * fresh vector, each with its position in the list as its index.
   */
  method GetTimestampsWithIndices(ts: seq<real>) returns (r: array<Stamp>)
    ensures fresh(r) && r[..] == Stamps(ts)
  {
    r := new Stamp[|ts|](i requires 0 <= i < |ts| => Stamp(ts[i], i));
    assert r[..] == Stamps(ts);
  }

  /* ------------------------------------------------------------------ */
  /* Sorting                                                             */
  /* ------------------------------------------------------------------ */

  /**
   * During insertion: the first `i + 1` elements are in order except for
   * the one at `j`, which is not above anything after it.
   */
  ghost predicate Inserting(s: seq<Stamp>, mode: SortMode, ref: real, i: nat, j: nat)
    requires j <= i < |s|
  {
    && (forall k, l :: 0 <= k < l <= i && k != j && l != j ==>
          Key(mode, ref, s[k].timestamp) <= Key(mode, ref, s[l].timestamp))
    && (forall l :: j < l <= i ==> Key(mode, ref, s[j].timestamp) <= Key(mode, ref, s[l].timestamp))
    && (forall k, l :: 0 <= k < j < l <= i ==> Key(mode, ref, s[k].timestamp) <= Key(mode, ref, s[l].timestamp))
  }

  /** Swapping the element at `j` with a greater one before it keeps `Inserting`, one step further. */
  lemma SwapDown(s: seq<Stamp>, mode: SortMode, ref: real, i: nat, j: nat)
    requires 0 < j <= i < |s| && Inserting(s, mode, ref, i, j)
    requires Key(mode, ref, s[j - 1].timestamp) > Key(mode, ref, s[j].timestamp)
    ensures Inserting(s[j - 1 := s[j]][j := s[j - 1]], mode, ref, i, j - 1)
    ensures multiset(s[j - 1 := s[j]][j := s[j - 1]]) == multiset(s)
  {
    var t := s[j - 1 := s[j]][j := s[j - 1]];
    assert forall k :: 0 <= k < |s| && k != j - 1 && k != j ==> t[k] == s[k];
    assert t[j - 1] == s[j] && t[j] == s[j - 1];
    forall k, l | 0 <= k < l <= i && k != j - 1 && l != j - 1
      ensures Key(mode, ref, t[k].timestamp) <= Key(mode, ref, t[l].timestamp)
    {
      if l == j {
        assert Key(mode, ref, s[k].timestamp) <= Key(mode, ref, s[j - 1].timestamp);
      } else if k == j {
        assert Key(mode, ref, s[j - 1].timestamp) <= Key(mode, ref, s[l].timestamp);
      }
    }
    SwapMultiset(s, j);
  }

  lemma SwapMultiset(s: seq<Stamp>, j: nat)
    requires 0 < j < |s|
    ensures multiset(s[j - 1 := s[j]][j := s[j - 1]]) == multiset(s)
  {
    var t := s[j - 1 := s[j]][j := s[j - 1]];
    assert t == s[..j - 1] + [s[j], s[j - 1]] + s[j + 1..];
    assert s == s[..j - 1] + [s[j - 1], s[j]] + s[j + 1..];
  }

  /** Once the element at `j` is not below its predecessor, the first `i + 1` elements are in order. */
  lemma InsertDone(s: seq<Stamp>, mode: SortMode, ref: real, i: nat, j: nat)
    requires j <= i < |s| && Inserting(s, mode, ref, i, j)
    requires j == 0 || Key(mode, ref, s[j - 1].timestamp) <= Key(mode, ref, s[j].timestamp)
    ensures SortedBy(s[..i + 1], mode, ref)
  {
  }

  /** One step of insertion sort: the element at `i` sinks into the sorted prefix. */
  method Insert(a: array<Stamp>, mode: SortMode, ref: real, i: nat)
    requires i < a.Length && SortedBy(a[..i], mode, ref)
    modifies a
    ensures SortedBy(a[..i + 1], mode, ref)
    ensures multiset(a[..]) == multiset(old(a[..]))
  {
    var j := i;
    while j > 0 && Key(mode, ref, a[j - 1].timestamp) > Key(mode, ref, a[j].timestamp)
      invariant 0 <= j <= i
      invariant Inserting(a[..], mode, ref, i, j)
      invariant multiset(a[..]) == multiset(old(a[..]))
    {
      SwapDown(a[..], mode, ref, i, j);
      a[j - 1], a[j] := a[j], a[j - 1];
      j := j - 1;
    }
    InsertDone(a[..], mode, ref, i, j);
  }

  /**
   * `std::sort` with the comparator of the mode: the vector ends up a
   * permutation of itself, ordered by the mode's key. Which of several
   * elements with the same key comes first is left open.
   */
  method SortStamps(a: array<Stamp>, mode: SortMode, ref: real)
    modifies a
    ensures SortedBy(a[..], mode, ref)
    ensures multiset(a[..]) == multiset(old(a[..]))
  {
    for i := 0 to a.Length
      invariant SortedBy(a[..i], mode, ref)
      invariant multiset(a[..]) == multiset(old(a[..]))
    {
      Insert(a, mode, ref, i);
    }
    assert a[..a.Length] == a[..];
  }

  /**
   * `SortTimestampsWithIndices`: ascending, descending, or by distance to
   * the reference timestamp.
   */
  method SortTimestampsWithIndices(ts: array<Stamp>, mode: SortMode, refTimestamp: real)
    modifies ts
    ensures SortedBy(ts[..], mode, refTimestamp)
    ensures multiset(ts[..]) == multiset(old(ts[..]))
  {
    SortStamps(ts, mode, refTimestamp);
  }

  /* ------------------------------------------------------------------ */
  /* Candidate pairs                                                     */
  /* ------------------------------------------------------------------ */

  /** `s` is entry `s.index` of the list `ts`. */
  predicate StampOf(ts: seq<real>, s: Stamp) {
    s.index < |ts| && s.timestamp == ts[s.index]
  }

  predicate Stamped(ts: seq<real>, s: seq<Stamp>) {
    forall k :: 0 <= k < |s| ==> StampOf(ts, s[k])
  }

  predicate AllStamped(ts: seq<real>, ss: seq<seq<Stamp>>) {
    forall g :: 0 <= g < |ss| ==> Stamped(ts, ss[g])
  }

  predicate DistinctIndices(s: seq<Stamp>) {
    forall g, h :: 0 <= g < h < |s| ==> s[g].index != s[h].index
  }

  /** A reordering of a list's stamps holds only stamps of that list. */
  lemma PermutationStamped(ts: seq<real>, s: seq<Stamp>)
    requires multiset(s) == multiset(Stamps(ts))
    ensures Stamped(ts, s)
  {
    forall k | 0 <= k < |s|
      ensures StampOf(ts, s[k])
    {
      assert s[k] in multiset(s);
      StampsIndexed(ts, s[k]);
    }
  }

  /** Each stamp occurs at most once among a list's stamps. */
  lemma {:induction false} StampsOnce(ts: seq<real>, x: Stamp)
    ensures multiset(Stamps(ts))[x] <= 1
  {
    if |ts| > 0 {
      var n := |ts| - 1;
      assert Stamps(ts) == Stamps(ts[..n]) + [Stamp(ts[n], n)];
      StampsOnce(ts[..n], x);
      if x == Stamp(ts[n], n) {
        assert x !in Stamps(ts[..n]);
      }
    }
  }

  /** An element found at two positions is counted at least twice. */
  lemma TwiceCounted<T>(s: seq<T>, g: nat, h: nat)
    requires g < h < |s|
    ensures s[g] == s[h] ==> multiset(s)[s[h]] >= 2
  {
    assert s == s[..h] + [s[h]] + s[h + 1..];
    assert s[..h][g] == s[g];
  }

  /** A reordering of a list's stamps never holds two stamps with the same index. */
  lemma PermutationDistinct(ts: seq<real>, s: seq<Stamp>)
    requires multiset(s) == multiset(Stamps(ts))
    ensures DistinctIndices(s)
  {
    PermutationStamped(ts, s);
    forall g, h | 0 <= g < h < |s|
      ensures s[g].index != s[h].index
    {
      StampsOnce(ts, s[h]);
      TwiceCounted(s, g, h);
    }
  }

  /**
   * The pairs one optical image `opt` contributes: the SAR images of `sars`,
   * in that order, within `maxgap` of it.
   */
  function GroupPairs(sars: seq<Stamp>, opt: Stamp, maxgap: real): seq<(nat, nat)>
  {
    if |sars| == 0 then []
    else
      var s := sars[|sars| - 1];
      GroupPairs(sars[..|sars| - 1], opt, maxgap)
      + (if Dist(s.timestamp, opt.timestamp) <= maxgap then [(s.index, opt.index)] else [])
  }

  lemma GroupPairsPrefix(sars: seq<Stamp>, opt: Stamp, maxgap: real, k: nat)
    requires k < |sars|
    ensures GroupPairs(sars[..k + 1], opt, maxgap)
         == GroupPairs(sars[..k], opt, maxgap)
            + (if Dist(sars[k].timestamp, opt.timestamp) <= maxgap then [(sars[k].index, opt.index)] else [])
  {
    assert sars[..k + 1][..k] == sars[..k];
  }

  /** Every pair of a group names the group's optical image. */
  lemma {:induction false} GroupOpt(sars: seq<Stamp>, opt: Stamp, maxgap: real)
    ensures forall p :: 0 <= p < |GroupPairs(sars, opt, maxgap)| ==> GroupPairs(sars, opt, maxgap)[p].1 == opt.index
  {
    if |sars| > 0 {
      GroupOpt(sars[..|sars| - 1], opt, maxgap);
    }
  }

  /**
   * Every pair of a group names a SAR image of the list at most `bound` away
   * from the optical image, when every SAR image of `sars` is.
   */
  lemma {:induction false} GroupBounded(sarTs: seq<real>, sars: seq<Stamp>, opt: Stamp, maxgap: real, bound: real)
    requires Stamped(sarTs, sars)
    requires forall k :: 0 <= k < |sars| ==> Dist(sars[k].timestamp, opt.timestamp) <= bound
    ensures forall p :: 0 <= p < |GroupPairs(sars, opt, maxgap)| ==>
      var a := GroupPairs(sars, opt, maxgap)[p].0;
      a < |sarTs| && Dist(sarTs[a], opt.timestamp) <= bound
  {
    if |sars| > 0 {
      GroupBounded(sarTs, sars[..|sars| - 1], opt, maxgap, bound);
    }
  }

  /** Every pair of a group is within `maxgap`. */
  lemma {:induction false} GroupSound(sarTs: seq<real>, sars: seq<Stamp>, opt: Stamp, maxgap: real)
    requires Stamped(sarTs, sars)
    ensures forall p :: 0 <= p < |GroupPairs(sars, opt, maxgap)| ==>
      var a := GroupPairs(sars, opt, maxgap)[p].0;
      a < |sarTs| && Dist(sarTs[a], opt.timestamp) <= maxgap
  {
    if |sars| > 0 {
      GroupSound(sarTs, sars[..|sars| - 1], opt, maxgap);
    }
  }

  /** Every SAR image of `sars` within `maxgap` gives a pair of the group. */
  lemma {:induction false} GroupComplete(sars: seq<Stamp>, opt: Stamp, maxgap: real, k: nat)
    requires k < |sars| && Dist(sars[k].timestamp, opt.timestamp) <= maxgap
    ensures (sars[k].index, opt.index) in GroupPairs(sars, opt, maxgap)
  {
    if k < |sars| - 1 {
      GroupComplete(sars[..|sars| - 1], opt, maxgap, k);
    }
  }

  /** When `sars` is sorted by distance to the optical image, so are the pairs of the group. */
  lemma {:induction false} GroupOrdered(sarTs: seq<real>, sars: seq<Stamp>, opt: Stamp, maxgap: real)
    requires Stamped(sarTs, sars) && SortedBy(sars, Abs, opt.timestamp)
    ensures forall p, q :: 0 <= p < q < |GroupPairs(sars, opt, maxgap)| ==>
      var a, b := GroupPairs(sars, opt, maxgap)[p].0, GroupPairs(sars, opt, maxgap)[q].0;
      a < |sarTs| && b < |sarTs| && Dist(sarTs[a], opt.timestamp) <= Dist(sarTs[b], opt.timestamp)
  {
    if |sars| > 0 {
      var n := |sars| - 1;
      var front := sars[..n];
      assert SortedBy(front, Abs, opt.timestamp);
      GroupOrdered(sarTs, front, opt, maxgap);
      GroupBounded(sarTs, front, opt, maxgap, Dist(sars[n].timestamp, opt.timestamp));
      GroupSound(sarTs, sars, opt, maxgap);
    }
  }

  /**
   * The pairs of `GetCandidatesPairs`: for each optical image of
   * `optOrder` in turn, the pairs it makes with the SAR images in the order
   * they were sorted for it.
   */
  function Candidates(optOrder: seq<Stamp>, sarOrders: seq<seq<Stamp>>, maxgap: real): seq<(nat, nat)>
    requires |sarOrders| == |optOrder|
  {
    if |optOrder| == 0 then []
    else
      var n := |optOrder| - 1;
      Candidates(optOrder[..n], sarOrders[..n], maxgap) + GroupPairs(sarOrders[n], optOrder[n], maxgap)
  }

  /** Every candidate pair is of a SAR and an optical image of the lists, within `maxgap`. */
  lemma {:induction false} CandidatesSound(sarTs: seq<real>, optTs: seq<real>, optOrder: seq<Stamp>, sarOrders: seq<seq<Stamp>>, maxgap: real)
    requires |sarOrders| == |optOrder| && Stamped(optTs, optOrder) && AllStamped(sarTs, sarOrders)
    ensures forall p :: 0 <= p < |Candidates(optOrder, sarOrders, maxgap)| ==>
      var (a, b) := Candidates(optOrder, sarOrders, maxgap)[p];
      a < |sarTs| && b < |optTs| && Dist(sarTs[a], optTs[b]) <= maxgap
  {
    if |optOrder| > 0 {
      var n := |optOrder| - 1;
      CandidatesSound(sarTs, optTs, optOrder[..n], sarOrders[..n], maxgap);
      GroupSound(sarTs, sarOrders[n], optOrder[n], maxgap);
      GroupOpt(sarOrders[n], optOrder[n], maxgap);
    }
  }

  /** Every pair of group `g` is a candidate pair. */
  lemma {:induction false} CandidatesHaveGroup(optOrder: seq<Stamp>, sarOrders: seq<seq<Stamp>>, maxgap: real, g: nat)
    requires |sarOrders| == |optOrder| && g < |optOrder|
    ensures forall x :: x in GroupPairs(sarOrders[g], optOrder[g], maxgap) ==> x in Candidates(optOrder, sarOrders, maxgap)
  {
    var n := |optOrder| - 1;
    if g < n {
      CandidatesHaveGroup(optOrder[..n], sarOrders[..n], maxgap, g);
    }
  }

  /** The optical keys of the candidate pairs are at most `bound` when those of `optOrder` are. */
  lemma {:induction false} CandidatesBounded(optTs: seq<real>, optOrder: seq<Stamp>, sarOrders: seq<seq<Stamp>>, maxgap: real, mode: SortMode, ref: real, bound: real)
    requires |sarOrders| == |optOrder| && Stamped(optTs, optOrder)
    requires forall g :: 0 <= g < |optOrder| ==> Key(mode, ref, optOrder[g].timestamp) <= bound
    ensures forall p :: 0 <= p < |Candidates(optOrder, sarOrders, maxgap)| ==>
      var b := Candidates(optOrder, sarOrders, maxgap)[p].1;
      b < |optTs| && Key(mode, ref, optTs[b]) <= bound
  {
    if |optOrder| > 0 {
      var n := |optOrder| - 1;
      CandidatesBounded(optTs, optOrder[..n], sarOrders[..n], maxgap, mode, ref, bound);
      GroupOpt(sarOrders[n], optOrder[n], maxgap);
    }
  }

  /** No candidate pair names an optical index that `optOrder` does not hold. */
  lemma {:induction false} CandidatesAvoid(optOrder: seq<Stamp>, sarOrders: seq<seq<Stamp>>, maxgap: real, b: nat)
    requires |sarOrders| == |optOrder|
    requires forall g :: 0 <= g < |optOrder| ==> optOrder[g].index != b
    ensures forall p :: 0 <= p < |Candidates(optOrder, sarOrders, maxgap)| ==> Candidates(optOrder, sarOrders, maxgap)[p].1 != b
  {
    if |optOrder| > 0 {
      var n := |optOrder| - 1;
      CandidatesAvoid(optOrder[..n], sarOrders[..n], maxgap, b);
      GroupOpt(sarOrders[n], optOrder[n], maxgap);
    }
  }

  /** The candidate pairs come in the sorting order of their optical images. */
  lemma {:induction false} CandidatesOrdered(optTs: seq<real>, optOrder: seq<Stamp>, sarOrders: seq<seq<Stamp>>, maxgap: real, mode: SortMode, ref: real)
    requires |sarOrders| == |optOrder| && Stamped(optTs, optOrder) && SortedBy(optOrder, mode, ref)
    ensures forall p, q :: 0 <= p < q < |Candidates(optOrder, sarOrders, maxgap)| ==>
      var b, d := Candidates(optOrder, sarOrders, maxgap)[p].1, Candidates(optOrder, sarOrders, maxgap)[q].1;
      b < |optTs| && d < |optTs| && Key(mode, ref, optTs[b]) <= Key(mode, ref, optTs[d])
  {
    if |optOrder| > 0 {
      var n := |optOrder| - 1;
      assert SortedBy(optOrder[..n], mode, ref);
      CandidatesOrdered(optTs, optOrder[..n], sarOrders[..n], maxgap, mode, ref);
      CandidatesBounded(optTs, optOrder[..n], sarOrders[..n], maxgap, mode, ref, Key(mode, ref, optOrder[n].timestamp));
      GroupOpt(sarOrders[n], optOrder[n], maxgap);
    }
  }

  /**
   * Two candidate pairs of the same optical image come by non-decreasing
   * distance of their SAR images to it.
   */
  lemma {:induction false} CandidatesGrouped(sarTs: seq<real>, optTs: seq<real>, optOrder: seq<Stamp>, sarOrders: seq<seq<Stamp>>, maxgap: real)
    requires |sarOrders| == |optOrder| && Stamped(optTs, optOrder) && AllStamped(sarTs, sarOrders)
    requires DistinctIndices(optOrder)
    requires forall g :: 0 <= g < |optOrder| ==> SortedBy(sarOrders[g], Abs, optOrder[g].timestamp)
    ensures forall p, q :: 0 <= p < q < |Candidates(optOrder, sarOrders, maxgap)| ==>
      var (a, b) := Candidates(optOrder, sarOrders, maxgap)[p];
      var (c, d) := Candidates(optOrder, sarOrders, maxgap)[q];
      b == d ==> a < |sarTs| && c < |sarTs| && b < |optTs| && Dist(sarTs[a], optTs[b]) <= Dist(sarTs[c], optTs[b])
  {
    if |optOrder| > 0 {
      var n := |optOrder| - 1;
      CandidatesGrouped(sarTs, optTs, optOrder[..n], sarOrders[..n], maxgap);
      CandidatesAvoid(optOrder[..n], sarOrders[..n], maxgap, optOrder[n].index);
      CandidatesSound(sarTs, optTs, optOrder, sarOrders, maxgap);
      GroupOpt(sarOrders[n], optOrder[n], maxgap);
      GroupOrdered(sarTs, sarOrders[n], optOrder[n], maxgap);
    }
  }

  /**
   * The pairs `GetCandidatesPairs` promises: every (SAR, optical) pair of
   * the lists at most `maxgap` apart and no other, grouped by optical image
   * in sorting order, by non-decreasing gap within a group.
   */
  ghost predicate PairsExactly(pairs: seq<(nat, nat)>, sarTs: seq<real>, optTs: seq<real>, mode: SortMode, ref: real, maxgap: real) {
    && (forall a: nat, b: nat :: (a, b) in pairs <==> a < |sarTs| && b < |optTs| && Dist(sarTs[a], optTs[b]) <= maxgap)
    && (forall p, q :: 0 <= p < q < |pairs| ==>
          var (a, b) := pairs[p];
          var (c, d) := pairs[q];
          && a < |sarTs| && b < |optTs| && c < |sarTs| && d < |optTs|
          && Key(mode, ref, optTs[b]) <= Key(mode, ref, optTs[d])
          && (b == d ==> Dist(sarTs[a], optTs[b]) <= Dist(sarTs[c], optTs[b])))
  }

  /** What the sorting steps of `GetCandidatesPairs` leave for the SAR list of each optical image. */
  ghost predicate SarOrdered(sarTs: seq<real>, optOrder: seq<Stamp>, sarOrders: seq<seq<Stamp>>) {
    && |sarOrders| == |optOrder|
    && forall g :: 0 <= g < |sarOrders| ==>
         multiset(sarOrders[g]) == multiset(Stamps(sarTs)) && SortedBy(sarOrders[g], Abs, optOrder[g].timestamp)
  }

  /**
   * Whatever order the sorts leave ties in, the candidate pairs are exactly
   * the pairs of a SAR and an optical image of the lists at most `maxgap`
   * apart, grouped by optical image in the sorting order, and by
   * non-decreasing gap within a group.
   */
  lemma CandidatesExact(sarTs: seq<real>, optTs: seq<real>, mode: SortMode, ref: real, maxgap: real,
                        optOrder: seq<Stamp>, sarOrders: seq<seq<Stamp>>)
    requires multiset(optOrder) == multiset(Stamps(optTs)) && SortedBy(optOrder, mode, ref)
    requires SarOrdered(sarTs, optOrder, sarOrders)
    ensures forall a: nat, b: nat :: (a, b) in Candidates(optOrder, sarOrders, maxgap) <==>
      a < |sarTs| && b < |optTs| && Dist(sarTs[a], optTs[b]) <= maxgap
    ensures forall p, q :: 0 <= p < q < |Candidates(optOrder, sarOrders, maxgap)| ==>
      var (a, b) := Candidates(optOrder, sarOrders, maxgap)[p];
      var (c, d) := Candidates(optOrder, sarOrders, maxgap)[q];
      && a < |sarTs| && b < |optTs| && c < |sarTs| && d < |optTs|
      && Key(mode, ref, optTs[b]) <= Key(mode, ref, optTs[d])
      && (b == d ==> Dist(sarTs[a], optTs[b]) <= Dist(sarTs[c], optTs[b]))
  {
    PermutationStamped(optTs, optOrder);
    PermutationDistinct(optTs, optOrder);
    forall g | 0 <= g < |sarOrders|
      ensures Stamped(sarTs, sarOrders[g])
    {
      PermutationStamped(sarTs, sarOrders[g]);
    }
    CandidatesSound(sarTs, optTs, optOrder, sarOrders, maxgap);
    CandidatesOrdered(optTs, optOrder, sarOrders, maxgap, mode, ref);
    CandidatesGrouped(sarTs, optTs, optOrder, sarOrders, maxgap);
    forall a: nat, b: nat | a < |sarTs| && b < |optTs| && Dist(sarTs[a], optTs[b]) <= maxgap
      ensures (a, b) in Candidates(optOrder, sarOrders, maxgap)
    {
      assert Stamps(optTs)[b] == Stamp(optTs[b], b);
      assert Stamp(optTs[b], b) in multiset(optOrder);
      var g :| 0 <= g < |optOrder| && optOrder[g] == Stamp(optTs[b], b);
      assert Stamps(sarTs)[a] == Stamp(sarTs[a], a);
      assert Stamp(sarTs[a], a) in multiset(sarOrders[g]);
      var k :| 0 <= k < |sarOrders[g]| && sarOrders[g][k] == Stamp(sarTs[a], a);
      GroupComplete(sarOrders[g], optOrder[g], maxgap, k);
      CandidatesHaveGroup(optOrder, sarOrders, maxgap, g);
    }
  }

  /** `CandidatesExact` as `PairsExactly`, and what an empty result means. */
  lemma CandidatesPairsExactly(sarTs: seq<real>, optTs: seq<real>, mode: SortMode, ref: real, maxgap: real,
                               optOrder: seq<Stamp>, sarOrders: seq<seq<Stamp>>)
    requires multiset(optOrder) == multiset(Stamps(optTs)) && SortedBy(optOrder, mode, ref)
    requires SarOrdered(sarTs, optOrder, sarOrders)
    ensures PairsExactly(Candidates(optOrder, sarOrders, maxgap), sarTs, optTs, mode, ref, maxgap)
    ensures |Candidates(optOrder, sarOrders, maxgap)| == 0 ==>
      forall a, b :: 0 <= a < |sarTs| && 0 <= b < |optTs| ==> Dist(sarTs[a], optTs[b]) > maxgap
  {
    var c := Candidates(optOrder, sarOrders, maxgap);
    CandidatesExact(sarTs, optTs, mode, ref, maxgap, optOrder, sarOrders);
    assert forall a: nat, b: nat :: (a, b) in c <==> a < |sarTs| && b < |optTs| && Dist(sarTs[a], optTs[b]) <= maxgap;
    if |c| == 0 {
      forall a: nat, b: nat | a < |sarTs| && b < |optTs|
        ensures Dist(sarTs[a], optTs[b]) > maxgap
      {
        assert (a, b) !in c;
      }
    }
  }

  /** One more optical image, with the SAR order sorted for it. */
  lemma GroupStep(sarTs: seq<real>, optOrder: seq<Stamp>, sarOrders: seq<seq<Stamp>>, sars: seq<Stamp>, maxgap: real, g: nat)
    requires g < |optOrder| && SarOrdered(sarTs, optOrder[..g], sarOrders)
    requires multiset(sars) == multiset(Stamps(sarTs)) && SortedBy(sars, Abs, optOrder[g].timestamp)
    ensures SarOrdered(sarTs, optOrder[..g + 1], sarOrders + [sars])
    ensures Candidates(optOrder[..g + 1], sarOrders + [sars], maxgap)
         == Candidates(optOrder[..g], sarOrders, maxgap) + GroupPairs(sars, optOrder[g], maxgap)
  {
    assert optOrder[..g + 1][..g] == optOrder[..g];
    assert (sarOrders + [sars])[..g] == sarOrders;
  }

  /** The inner loop of `GetCandidatesPairs`: push the pairs one optical image makes. */
  method PushGroup(sars: array<Stamp>, opt: Stamp, maxgap: real, pairs: seq<(nat, nat)>) returns (r: seq<(nat, nat)>)
    ensures r == pairs + GroupPairs(sars[..], opt, maxgap)
  {
    r := pairs;
    for k := 0 to sars.Length
      invariant r == pairs + GroupPairs(sars[..k], opt, maxgap)
    {
      GroupPairsPrefix(sars[..], opt, maxgap, k);
      assert sars[..][..k] == sars[..k] && sars[..][..k + 1] == sars[..k + 1];
      if Dist(sars[k].timestamp, opt.timestamp) <= maxgap {
        r := r + [(sars[k].index, opt.index)];
      }
    }
    assert sars[..sars.Length] == sars[..];
  }

  /**
   * `GetCandidatesPairs`: sort the optical images, then for each of them
   * sort the SAR images by distance to it and keep those within `maxgap`.
   * The optical order and the SAR order each group used are returned as
   * ghosts, and `CandidatesExact` says what the pairs then are.
   */
  method GetCandidatesPairs(sarTs: seq<real>, optTs: seq<real>, mode: SortMode, ref: real, maxgap: real)
    returns (r: Result<seq<(nat, nat)>>, ghost optOrder: seq<Stamp>, ghost sarOrders: seq<seq<Stamp>>)
    ensures multiset(optOrder) == multiset(Stamps(optTs)) && SortedBy(optOrder, mode, ref)
    ensures SarOrdered(sarTs, optOrder, sarOrders)
    ensures r == if |Candidates(optOrder, sarOrders, maxgap)| == 0 then Err(NoPairsError)
                 else Ok(Candidates(optOrder, sarOrders, maxgap))
    ensures r.Ok? ==> PairsExactly(r.value, sarTs, optTs, mode, ref, maxgap)
    ensures r.Err? ==> r.msg == NoPairsError
    ensures r.Err? ==> forall a, b :: 0 <= a < |sarTs| && 0 <= b < |optTs| ==> Dist(sarTs[a], optTs[b]) > maxgap
  {
    var sar := GetTimestampsWithIndices(sarTs);
    var opt := GetTimestampsWithIndices(optTs);
    SortTimestampsWithIndices(opt, mode, ref);
    optOrder := opt[..];
    var pairs := [];
    sarOrders := [];
    for g := 0 to opt.Length
      invariant opt[..] == optOrder
      invariant multiset(sar[..]) == multiset(Stamps(sarTs))
      invariant SarOrdered(sarTs, optOrder[..g], sarOrders)
      invariant pairs == Candidates(optOrder[..g], sarOrders, maxgap)
    {
      SortStamps(sar, Abs, opt[g].timestamp);
      pairs := PushGroup(sar, opt[g], maxgap, pairs);
      GroupStep(sarTs, optOrder, sarOrders, sar[..], maxgap, g);
      sarOrders := sarOrders + [sar[..]];
    }
    assert optOrder[..opt.Length] == optOrder;
    CandidatesPairsExactly(sarTs, optTs, mode, ref, maxgap, optOrder, sarOrders);
    if |pairs| == 0 {
      r := Err(NoPairsError);
    } else {
      r := Ok(pairs);
    }
  }
  function Digit(d: nat): char
    requires d < 10
  {
    (('0' as int) + d) as char
  }

  /** Decimal digits of `n`, as the error messages print it. */
  function NatToString(n: nat): string
  {
    if n < 10 then [Digit(n)] else NatToString(n / 10) + [Digit(n % 10)]
  }

  /** The value of a string of decimal digits, most significant first. */
  function DigitsValue(s: string): nat
    requires forall i :: 0 <= i < |s| ==> '0' <= s[i] <= '9'
  {
    if |s| == 0 then 0 else DigitsValue(s[..|s| - 1]) * 10 + ((s[|s| - 1] as int) - ('0' as int))
  }

  /** The decimal form of `n` has no leading zero and reads back as `n`. */
  lemma {:induction false} NatToStringValue(n: nat)
    ensures var s := NatToString(n);
      && |s| >= 1 && (forall i :: 0 <= i < |s| ==> '0' <= s[i] <= '9')
      && (s[0] == '0' ==> n == 0)
      && DigitsValue(s) == n
  {
    var s := NatToString(n);
    if n >= 10 {
      NatToStringValue(n / 10);
      var f := NatToString(n / 10);
      assert s == f + [Digit(n % 10)];
      assert s[..|s| - 1] == f;
      assert DigitsValue(s) == DigitsValue(f) * 10 + n % 10;
    }
  }

  /**
   * `CheckNumbers`: an image list and its timestamp list must have as many
   * entries; otherwise the application stops with a message giving both counts.
   */
  function CheckNumbers(nImgs: nat, nTimestamps: nat, imgsKey: string, timestampKey: string): (r: Outcome)
    ensures r.Pass? <==> nImgs == nTimestamps
    ensures r.Fail? ==> PyStr.Contains(r.msg, NatToString(nImgs)) && PyStr.Contains(r.msg, imgsKey)
    ensures r.Fail? ==> PyStr.Contains(r.msg, NatToString(nTimestamps)) && PyStr.Contains(r.msg, timestampKey)
  {
    if nTimestamps != nImgs then
      var images := NatToString(nImgs);
      var stamps := NatToString(nTimestamps);
      var msg := "There is " + images + " input images at input " + imgsKey + " but " + stamps + " timestamps for " + timestampKey;
      PyStr.ContainsValues("There is ", images, " input images at input ", imgsKey, " but ", stamps, " timestamps for ", timestampKey);
      Fail(msg)
    else Pass
  }
}
