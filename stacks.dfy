/**
 * The image stacks of the SAR/optical pairing application
 * (`InstantiateSources` in `app/otbDecloudTimeSeriesPreProcessor.cxx`):
 * only the images some pair uses are stacked, in order of first use, and
 * the pairs are renumbered into the stacks.
 */
module ImageStacks {
  /** The first position of `x` in `s`. */
  function IndexOf(s: seq<nat>, x: nat): (r: nat)
    requires x in s
    ensures r < |s| && s[r] == x && forall k :: 0 <= k < r ==> s[k] != x
  {
    if s[0] == x then 0 else 1 + IndexOf(s[1..], x)
  }

  /** `std::find` over the old indices already used: the position of `x`, or `|s|`. */
  method Find(s: seq<nat>, x: nat) returns (i: nat)
    ensures i <= |s| && (i < |s| <==> x in s) && (i < |s| ==> i == IndexOf(s, x))
  {
    i := 0;
    while i < |s| && s[i] != x
      invariant i <= |s| && forall k :: 0 <= k < i ==> s[k] != x
    {
      i := i + 1;
    }
  }

  /**
   * The new index of old index `x` when the images `olds` are already
   * stacked, and the stacked images after it: an image already stacked
   * keeps its position, a new one goes on top.
   */
  function RenumberStep(olds: seq<nat>, x: nat): (nat, seq<nat>)
  {
    if x in olds then (IndexOf(olds, x), olds) else (|olds|, olds + [x])
  }

  /** The new indices of the old indices `xs`, in order, and the old indices of the stack. */
  function Renumber(xs: seq<nat>): (r: (seq<nat>, seq<nat>))
    ensures |r.0| == |xs|
  {
    if |xs| == 0 then ([], [])
    else
      var (news, olds) := Renumber(xs[..|xs| - 1]);
      var (k, olds') := RenumberStep(olds, xs[|xs| - 1]);
      (news + [k], olds')
  }

  lemma RenumberPrefix(xs: seq<nat>, p: nat)
    requires p < |xs|
    ensures Renumber(xs[..p + 1])
         == (Renumber(xs[..p]).0 + [RenumberStep(Renumber(xs[..p]).1, xs[p]).0], RenumberStep(Renumber(xs[..p]).1, xs[p]).1)
  {
    assert xs[..p + 1][..p] == xs[..p];
  }

  /** Every new index points, in the stack, to its old index. */
  lemma {:induction false} RenumberPoints(xs: seq<nat>)
    ensures forall i :: 0 <= i < |xs| ==> Renumber(xs).0[i] < |Renumber(xs).1| && Renumber(xs).1[Renumber(xs).0[i]] == xs[i]
  {
    if |xs| > 0 {
      RenumberPoints(xs[..|xs| - 1]);
    }
  }

  /** The stack holds exactly the old indices used, each once. */
  lemma {:induction false} RenumberStack(xs: seq<nat>)
    ensures forall j, k :: 0 <= j < k < |Renumber(xs).1| ==> Renumber(xs).1[j] != Renumber(xs).1[k]
    ensures forall j :: 0 <= j < |Renumber(xs).1| ==> Renumber(xs).1[j] in xs
  {
    if |xs| > 0 {
      var n := |xs| - 1;
      RenumberStack(xs[..n]);
      assert xs == xs[..n] + [xs[n]];
    }
  }

  /** An old index is already stacked exactly when an earlier pair used it. */
  lemma RenumberSeen(xs: seq<nat>, x: nat)
    ensures x in Renumber(xs).1 <==> x in xs
  {
    RenumberPoints(xs);
    RenumberStack(xs);
    if x in xs {
      var i :| 0 <= i < |xs| && xs[i] == x;
    }
  }

  /** The new indices are dense: every position of the stack is some pair's new index. */
  lemma {:induction false} RenumberDense(xs: seq<nat>)
    ensures forall j :: 0 <= j < |Renumber(xs).1| ==> j in Renumber(xs).0
  {
    if |xs| > 0 {
      var n := |xs| - 1;
      RenumberDense(xs[..n]);
      var news := Renumber(xs[..n]).0;
      forall j | 0 <= j < |Renumber(xs).1|
        ensures j in Renumber(xs).0
      {
        if j < |Renumber(xs[..n]).1| {
          assert Renumber(xs).0[..n] == news;
        } else {
          assert Renumber(xs).0[n] == j;
        }
      }
    }
  }

  /** The first pair using an old index gets a new index above those of all earlier pairs. */
  lemma {:induction false} RenumberFirst(xs: seq<nat>)
    ensures forall i, k :: 0 <= k < i < |xs| && xs[i] !in xs[..i] ==> Renumber(xs).0[k] < Renumber(xs).0[i]
  {
    if |xs| > 0 {
      var n := |xs| - 1;
      var front := xs[..n];
      RenumberFirst(front);
      RenumberPoints(front);
      RenumberSeen(front, xs[n]);
      var news := Renumber(xs).0;
      assert news[..n] == Renumber(front).0;
      forall i, k | 0 <= k < i < |xs| && xs[i] !in xs[..i]
        ensures news[k] < news[i]
      {
        if i < n {
          assert xs[..i] == front[..i];
          assert news[k] == Renumber(front).0[k] && news[i] == Renumber(front).0[i];
        } else {
          assert xs[..i] == front;
          assert news[i] == |Renumber(front).1|;
        }
      }
    }
  }

  /** Two pairs get the same new index exactly when they had the same old index. */
  lemma RenumberSame(xs: seq<nat>)
    ensures forall i, k :: 0 <= i < |xs| && 0 <= k < |xs| ==> (Renumber(xs).0[i] == Renumber(xs).0[k] <==> xs[i] == xs[k])
  {
    RenumberPoints(xs);
    RenumberStack(xs);
    var (news, olds) := Renumber(xs);
    forall i, k | 0 <= i < |xs| && 0 <= k < |xs|
      ensures news[i] == news[k] <==> xs[i] == xs[k]
    {
      assert olds[news[i]] == xs[i] && olds[news[k]] == xs[k];
    }
  }

  function Firsts(pairs: seq<(nat, nat)>): (r: seq<nat>)
    ensures |r| == |pairs| && forall p :: 0 <= p < |pairs| ==> r[p] == pairs[p].0
  {
    seq(|pairs|, p requires 0 <= p < |pairs| => pairs[p].0)
  }

  function Seconds(pairs: seq<(nat, nat)>): (r: seq<nat>)
    ensures |r| == |pairs| && forall p :: 0 <= p < |pairs| ==> r[p] == pairs[p].1
  {
    seq(|pairs|, p requires 0 <= p < |pairs| => pairs[p].1)
  }

  /** The images at the old indices `olds`, in that order. */
  function Gather<I>(images: seq<I>, olds: seq<nat>): (r: seq<I>)
    requires forall j :: 0 <= j < |olds| ==> olds[j] < |images|
    ensures |r| == |olds| && forall j :: 0 <= j < |olds| ==> r[j] == images[olds[j]]
  {
    seq(|olds|, j requires 0 <= j < |olds| => images[olds[j]])
  }

  /**
   * The renumbering of one image list: the new index of `x` and the stack
   * after it, with `std::find` over the old indices already stacked.
   */
  method Reindex<I>(images: seq<I>, olds: seq<nat>, stack: seq<I>, x: nat) returns (k: nat, olds': seq<nat>, stack': seq<I>)
    requires x < |images| && forall j :: 0 <= j < |olds| ==> olds[j] < |images|
    requires stack == Gather(images, olds)
    ensures (k, olds') == RenumberStep(olds, x)
    ensures (forall j :: 0 <= j < |olds'| ==> olds'[j] < |images|) && stack' == Gather(images, olds')
  {
    var i := Find(olds, x);
    if i == |olds| {
      olds' := olds + [x];
      stack' := stack + [images[x]];
      k := |olds|;
    } else {
      olds', stack' := olds, stack;
      k := i;
    }
  }

  /**
   * `InstantiateSources`: the stacks of the SAR and optical images the
   * pairs use, and the pairs with their indices in those stacks. The
   * callers give indices within the image lists.
   */
  method InstantiateSources<I>(pairs: seq<(nat, nat)>, sarImages: seq<I>, optImages: seq<I>)
    returns (sarStack: seq<I>, optStack: seq<I>, outPairs: seq<(nat, nat)>)
    requires forall p :: 0 <= p < |pairs| ==> pairs[p].0 < |sarImages| && pairs[p].1 < |optImages|
    ensures |outPairs| == |pairs|
    ensures forall p :: 0 <= p < |pairs| ==> outPairs[p] == (Renumber(Firsts(pairs)).0[p], Renumber(Seconds(pairs)).0[p])
    ensures forall j :: 0 <= j < |Renumber(Firsts(pairs)).1| ==> Renumber(Firsts(pairs)).1[j] < |sarImages|
    ensures forall j :: 0 <= j < |Renumber(Seconds(pairs)).1| ==> Renumber(Seconds(pairs)).1[j] < |optImages|
    ensures sarStack == Gather(sarImages, Renumber(Firsts(pairs)).1)
    ensures optStack == Gather(optImages, Renumber(Seconds(pairs)).1)
  {
    var sarOld: seq<nat>, optOld: seq<nat> := [], [];
    ghost var sarNew: seq<nat>, optNew: seq<nat> := [], [];
    sarStack, optStack, outPairs := [], [], [];
    for p := 0 to |pairs|
      invariant (sarNew, sarOld) == Renumber(Firsts(pairs)[..p])
      invariant (optNew, optOld) == Renumber(Seconds(pairs)[..p])
      invariant forall j :: 0 <= j < |sarOld| ==> sarOld[j] < |sarImages|
      invariant forall j :: 0 <= j < |optOld| ==> optOld[j] < |optImages|
      invariant sarStack == Gather(sarImages, sarOld) && optStack == Gather(optImages, optOld)
      invariant |outPairs| == p == |sarNew| == |optNew|
      invariant forall q :: 0 <= q < p ==> outPairs[q] == (sarNew[q], optNew[q])
    {
      RenumberPrefix(Firsts(pairs), p);
      RenumberPrefix(Seconds(pairs), p);
      var sarIdx, optIdx;
      sarIdx, sarOld, sarStack := Reindex(sarImages, sarOld, sarStack, pairs[p].0);
      optIdx, optOld, optStack := Reindex(optImages, optOld, optStack, pairs[p].1);
      sarNew, optNew := sarNew + [sarIdx], optNew + [optIdx];
      outPairs := outPairs + [(sarIdx, optIdx)];
    }
    assert Firsts(pairs)[..|pairs|] == Firsts(pairs);
    assert Seconds(pairs)[..|pairs|] == Seconds(pairs);
  }
}
