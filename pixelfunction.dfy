/**
 * The pixel function of the SAR/optical pairing application
 * (`PixelFunction` in `app/otbDecloudTimeSeriesPreProcessor.cxx`), and the
 * channel ranges its output is sliced into. Pixel values are `real`:
 * float32 rounding is not part of this model.
 */
module PixelFunctor {
  /** Bands `[idx * nb, idx * nb + nb)` of a stacked pixel: the pixel of image `idx`. */
  function Block(s: seq<real>, idx: nat, nb: nat): (r: seq<real>)
    requires idx * nb + nb <= |s|
    ensures |r| == nb
  {
    s[idx * nb .. idx * nb + nb]
  }

  predicate AllNoData(pix: seq<real>, v: real) {
    forall i :: 0 <= i < |pix| ==> pix[i] == v
  }

  /** Every pair names an image of each stacked pixel. */
  predicate Fits(pairs: seq<(nat, nat)>, inSar: seq<real>, inOpt: seq<real>, sarB: nat, optB: nat) {
    forall p :: 0 <= p < |pairs| ==> pairs[p].0 * sarB + sarB <= |inSar| && pairs[p].1 * optB + optB <= |inOpt|
  }

  /**
   * The output blocks the pairs give, in list order: the SAR pixel then the
   * optical pixel of each pair where neither is all no-data.
   */
  function Usable(pairs: seq<(nat, nat)>, inSar: seq<real>, inOpt: seq<real>,
                  sarB: nat, optB: nat, sarND: real, optND: real): seq<seq<real>>
    requires Fits(pairs, inSar, inOpt, sarB, optB)
  {
    if |pairs| == 0 then []
    else
      var n := |pairs| - 1;
      assert Fits(pairs[..n], inSar, inOpt, sarB, optB);
      var front := Usable(pairs[..n], inSar, inOpt, sarB, optB, sarND, optND);
      var sarPix := Block(inSar, pairs[n].0, sarB);
      var optPix := Block(inOpt, pairs[n].1, optB);
      if !AllNoData(sarPix, sarND) && !AllNoData(optPix, optND) then front + [sarPix + optPix] else front
  }

  /** Every usable block has the bands of one SAR and one optical image. */
  lemma {:induction false} UsableLengths(pairs: seq<(nat, nat)>, inSar: seq<real>, inOpt: seq<real>,
                                         sarB: nat, optB: nat, sarND: real, optND: real)
    requires Fits(pairs, inSar, inOpt, sarB, optB)
    ensures var u := Usable(pairs, inSar, inOpt, sarB, optB, sarND, optND);
      |u| <= |pairs| && forall k :: 0 <= k < |u| ==> |u[k]| == sarB + optB
  {
    if |pairs| > 0 {
      var n := |pairs| - 1;
      assert Fits(pairs[..n], inSar, inOpt, sarB, optB);
      UsableLengths(pairs[..n], inSar, inOpt, sarB, optB, sarND, optND);
    }
  }

  /** The blocks of the first pairs come first among the blocks of all pairs. */
  lemma {:induction false} UsablePrefix(pairs: seq<(nat, nat)>, inSar: seq<real>, inOpt: seq<real>,
                                        sarB: nat, optB: nat, sarND: real, optND: real, p: nat)
    requires Fits(pairs, inSar, inOpt, sarB, optB) && p <= |pairs|
    ensures Fits(pairs[..p], inSar, inOpt, sarB, optB)
    ensures var u := Usable(pairs, inSar, inOpt, sarB, optB, sarND, optND);
      var v := Usable(pairs[..p], inSar, inOpt, sarB, optB, sarND, optND);
      |v| <= |u| && v == u[..|v|]
  {
    assert Fits(pairs[..p], inSar, inOpt, sarB, optB);
    if p < |pairs| {
      var n := |pairs| - 1;
      assert Fits(pairs[..n], inSar, inOpt, sarB, optB);
      assert pairs[..n][..p] == pairs[..p];
      UsablePrefix(pairs[..n], inSar, inOpt, sarB, optB, sarND, optND, p);
    } else {
      assert pairs[..p] == pairs;
    }
  }

  /** The blocks of one more pair. */
  lemma UsableStep(pairs: seq<(nat, nat)>, inSar: seq<real>, inOpt: seq<real>,
                   sarB: nat, optB: nat, sarND: real, optND: real, p: nat)
    requires Fits(pairs, inSar, inOpt, sarB, optB) && p < |pairs|
    ensures Fits(pairs[..p], inSar, inOpt, sarB, optB) && Fits(pairs[..p + 1], inSar, inOpt, sarB, optB)
    ensures var sarPix, optPix := Block(inSar, pairs[p].0, sarB), Block(inOpt, pairs[p].1, optB);
      Usable(pairs[..p + 1], inSar, inOpt, sarB, optB, sarND, optND)
      == Usable(pairs[..p], inSar, inOpt, sarB, optB, sarND, optND)
         + (if !AllNoData(sarPix, sarND) && !AllNoData(optPix, optND) then [sarPix + optPix] else [])
  {
    assert Fits(pairs[..p], inSar, inOpt, sarB, optB);
    assert Fits(pairs[..p + 1], inSar, inOpt, sarB, optB);
    assert pairs[..p + 1][..p] == pairs[..p];
  }

  /** What one iteration of the pair loop of `operator()` needs to know about the pair `p`. */
  lemma PairStep(pairs: seq<(nat, nat)>, inSar: seq<real>, inOpt: seq<real>,
                 sarB: nat, optB: nat, sarND: real, optND: real, p: nat, usable: bool)
    requires Fits(pairs, inSar, inOpt, sarB, optB) && p < |pairs|
    requires usable <==> !AllNoData(Block(inSar, pairs[p].0, sarB), sarND) && !AllNoData(Block(inOpt, pairs[p].1, optB), optND)
    ensures Fits(pairs[..p], inSar, inOpt, sarB, optB) && Fits(pairs[..p + 1], inSar, inOpt, sarB, optB)
    ensures var front := Usable(pairs[..p], inSar, inOpt, sarB, optB, sarND, optND);
      && |Flatten(front)| == |front| * (sarB + optB)
      && Usable(pairs[..p + 1], inSar, inOpt, sarB, optB, sarND, optND)
         == if usable then front + [Block(inSar, pairs[p].0, sarB) + Block(inOpt, pairs[p].1, optB)] else front
  {
    UsableStep(pairs, inSar, inOpt, sarB, optB, sarND, optND, p);
    UsableLengths(pairs[..p], inSar, inOpt, sarB, optB, sarND, optND);
    FlattenBlockCount(Usable(pairs[..p], inSar, inOpt, sarB, optB, sarND, optND), sarB + optB);
  }

  /** The blocks laid end to end. */
  function Flatten(blocks: seq<seq<real>>): seq<real>
  {
    if |blocks| == 0 then [] else blocks[0] + Flatten(blocks[1..])
  }

  lemma {:induction false} FlattenAppend(a: seq<seq<real>>, b: seq<seq<real>>)
    ensures Flatten(a + b) == Flatten(a) + Flatten(b)
  {
    if |a| == 0 {
      assert a + b == b;
    } else {
      assert (a + b)[1..] == a[1..] + b;
      FlattenAppend(a[1..], b);
    }
  }

  /** Block `k` of blocks of `width` bands each is found at bands `[k * width, k * width + width)`. */
  lemma {:induction false} FlattenBlock(blocks: seq<seq<real>>, width: nat, k: nat)
    requires forall j :: 0 <= j < |blocks| ==> |blocks[j]| == width
    requires k < |blocks|
    ensures |Flatten(blocks)| == |blocks| * width
    ensures k * width + width <= |Flatten(blocks)| && Flatten(blocks)[k * width .. k * width + width] == blocks[k]
  {
    FlattenBlockCount(blocks, width);
    var rest := Flatten(blocks[1..]);
    assert Flatten(blocks) == blocks[0] + rest;
    if k > 0 {
      FlattenBlock(blocks[1..], width, k - 1);
      var m := (k - 1) * width;
      assert k * width == m + width;
      assert blocks[1..][k - 1] == blocks[k];
      assert Flatten(blocks)[m + width .. m + width + width] == rest[m .. m + width];
    }
  }

  function Repeat(b: seq<real>, k: nat): (r: seq<seq<real>>)
    ensures |r| == k && forall j :: 0 <= j < k ==> r[j] == b
  {
    seq(k, _ => b)
  }

  lemma RepeatMore(b: seq<real>, k: nat)
    ensures Flatten(Repeat(b, k + 1)) == b + Flatten(Repeat(b, k))
    ensures Flatten(Repeat(b, k + 1)) == Flatten(Repeat(b, k)) + b
  {
    assert Repeat(b, k + 1)[1..] == Repeat(b, k);
    assert Repeat(b, k + 1) == Repeat(b, k) + [b];
    FlattenAppend(Repeat(b, k), [b]);
    assert Flatten([b]) == b + Flatten([]);
  }

  /** A block of no-data values: the SAR no-data value on the SAR bands, the optical one on the others. */
  function NoDataBlock(sarB: nat, optB: nat, sarND: real, optND: real): (r: seq<real>)
    ensures |r| == sarB + optB
  {
    seq(sarB, _ => sarND) + seq(optB, _ => optND)
  }

  /**
   * The output pixel of `operator()`: the first `nbOut` usable blocks, then
   * no-data blocks up to `nbOut` blocks.
   */
  function OutputPixel(pairs: seq<(nat, nat)>, inSar: seq<real>, inOpt: seq<real>,
                       sarB: nat, optB: nat, sarND: real, optND: real, nbOut: nat): seq<real>
    requires Fits(pairs, inSar, inOpt, sarB, optB)
  {
    var u := Usable(pairs, inSar, inOpt, sarB, optB, sarND, optND);
    var c := if |u| < nbOut then |u| else nbOut;
    Flatten(u[..c]) + Flatten(Repeat(NoDataBlock(sarB, optB, sarND, optND), nbOut - c))
  }

  /**
   * The output pixel has `nbOut` blocks of `sarB + optB` bands; block `k` is
   * the SAR pixel then the optical pixel of the `k`-th pair, in list order,
   * where neither is all no-data, and the no-data block when fewer pairs are.
   */
  lemma OutputBlocks(pairs: seq<(nat, nat)>, inSar: seq<real>, inOpt: seq<real>,
                     sarB: nat, optB: nat, sarND: real, optND: real, nbOut: nat, k: nat)
    requires Fits(pairs, inSar, inOpt, sarB, optB) && k < nbOut
    ensures var out := OutputPixel(pairs, inSar, inOpt, sarB, optB, sarND, optND, nbOut);
      var u := Usable(pairs, inSar, inOpt, sarB, optB, sarND, optND);
      var width := sarB + optB;
      && |out| == nbOut * width
      && k * width + width <= |out|
      && out[k * width .. k * width + width] == if k < |u| then u[k] else NoDataBlock(sarB, optB, sarND, optND)
  {
    var u := Usable(pairs, inSar, inOpt, sarB, optB, sarND, optND);
    var nd := NoDataBlock(sarB, optB, sarND, optND);
    var width := sarB + optB;
    UsableLengths(pairs, inSar, inOpt, sarB, optB, sarND, optND);
    OutputIsPadded(pairs, inSar, inOpt, sarB, optB, sarND, optND, nbOut);
    PaddedBlocks(u, nd, nbOut, width);
    MulNat(k, width);
    FlattenBlock(Padded(u, nd, nbOut), width, k);
  }

  /** The first `n` blocks of `u`, then copies of `nd` up to `n` blocks. */
  function Padded(u: seq<seq<real>>, nd: seq<real>, n: nat): seq<seq<real>>
  {
    var c := if |u| < n then |u| else n;
    u[..c] + Repeat(nd, n - c)
  }

  lemma PaddedBlocks(u: seq<seq<real>>, nd: seq<real>, n: nat, width: nat)
    requires forall j :: 0 <= j < |u| ==> |u[j]| == width
    requires |nd| == width
    ensures |Padded(u, nd, n)| == n
    ensures forall j :: 0 <= j < n ==> |Padded(u, nd, n)[j]| == width
    ensures forall j :: 0 <= j < n ==> Padded(u, nd, n)[j] == if j < |u| then u[j] else nd
  {
  }

  lemma OutputIsPadded(pairs: seq<(nat, nat)>, inSar: seq<real>, inOpt: seq<real>,
                       sarB: nat, optB: nat, sarND: real, optND: real, nbOut: nat)
    requires Fits(pairs, inSar, inOpt, sarB, optB)
    ensures OutputPixel(pairs, inSar, inOpt, sarB, optB, sarND, optND, nbOut)
            == Flatten(Padded(Usable(pairs, inSar, inOpt, sarB, optB, sarND, optND), NoDataBlock(sarB, optB, sarND, optND), nbOut))
  {
    var u := Usable(pairs, inSar, inOpt, sarB, optB, sarND, optND);
    var c := if |u| < nbOut then |u| else nbOut;
    FlattenAppend(u[..c], Repeat(NoDataBlock(sarB, optB, sarND, optND), nbOut - c));
  }

  /** The bands `block` overwrites in `a`, from `start`. */
  function Overwrite(a: seq<real>, start: nat, block: seq<real>): seq<real>
    requires start + |block| <= |a|
  {
    a[..start] + block + a[start + |block|..]
  }

  /** Writing two blocks one after the other over a sequence of bands. */
  lemma OverwriteTwice(p: seq<real>, x: seq<real>, y: seq<real>, n: seq<real>, t: seq<real>)
    requires |n| == |x| + |y|
    ensures Overwrite(Overwrite(p + n + t, |p|, x), |p| + |x|, y) == p + x + y + t
  {
    var a := p + n + t;
    assert Overwrite(a, |p|, x) == p + x + n[|x|..] + t;
    var b := p + x + n[|x|..] + t;
    assert b[..|p| + |x|] == p + x;
    assert b[|p| + |x| + |y|..] == t;
  }

  /** `PixelFunction`: the functor set up with the pairs and the band counts. */
  class PixelFunction {
    var pairs: seq<(nat, nat)>
    var sarNbBands: nat
    var optNbBands: nat
    var sarNoData: real
    var optNoData: real
    var nbOutputImages: nat

    constructor ()
      ensures pairs == [] && sarNbBands == 0 && optNbBands == 0 && nbOutputImages == 0
    {
      pairs := [];
      sarNbBands, optNbBands := 0, 0;
      sarNoData, optNoData := 0.0, 0.0;
      nbOutputImages := 0;
    }

    method SetParameters(pairs: seq<(nat, nat)>, sarNbBands: nat, optNbBands: nat,
                         sarNdVal: real, optNdVal: real, nbOutputImages: nat)
      modifies this
      ensures this.pairs == pairs && this.sarNbBands == sarNbBands && this.optNbBands == optNbBands
      ensures sarNoData == sarNdVal && optNoData == optNdVal && this.nbOutputImages == nbOutputImages
    {
      this.pairs := pairs;
      this.sarNbBands := sarNbBands;
      this.optNbBands := optNbBands;
      sarNoData := sarNdVal;
      optNoData := optNdVal;
      this.nbOutputImages := nbOutputImages;
    }

    /** `OutputSize`: bands of one SAR and one optical image per output image. */
    function OutputSize(): (r: nat)
      reads this
      ensures r == nbOutputImages * (sarNbBands + optNbBands)
    {
      nbOutputImages * (sarNbBands + optNbBands)
    }

    /** `GetPixel`: the pixel of image `idx` in a stacked pixel. */
    static method GetPixel(inPix: seq<real>, idx: nat, nbBands: nat) returns (pix: seq<real>)
      requires idx * nbBands + nbBands <= |inPix|
      ensures pix == Block(inPix, idx, nbBands)
    {
      var out := new real[nbBands];
      var start := idx * nbBands;
      for i := 0 to nbBands
        invariant forall j :: 0 <= j < i ==> out[j] == inPix[start + j]
      {
        out[i] := inPix[start + i];
      }
      pix := out[..];
    }

    /** `IsNoData`: every band holds the no-data value. */
    static method IsNoData(pix: seq<real>, noDataValue: real) returns (b: bool)
      ensures b <==> AllNoData(pix, noDataValue)
    {
      for i := 0 to |pix|
        invariant forall j :: 0 <= j < i ==> pix[j] == noDataValue
      {
        if pix[i] != noDataValue {
          return false;
        }
      }
      return true;
    }

    /** One of the band-copying loops of `operator()`: `block` written from band `start`. */
    static method CopyInto(a: array<real>, start: nat, block: seq<real>)
      requires start + |block| <= a.Length
      modifies a
      ensures a[..] == Overwrite(old(a[..]), start, block)
    {
      for i := 0 to |block|
        invariant forall j :: 0 <= j < a.Length ==> a[j] == if start <= j < start + i then block[j - start] else old(a[j])
      {
        a[start + i] := block[i];
      }
    }

    /** Two blocks written one after the other over the bands `n`. */
    static method WriteTwo(outPix: array<real>, start: nat, x: seq<real>, y: seq<real>,
                           ghost p: seq<real>, ghost n: seq<real>, ghost t: seq<real>)
      requires outPix[..] == p + n + t && |p| == start && |n| == |x| + |y|
      modifies outPix
      ensures outPix[..] == p + (x + y) + t
    {
      OverwriteTwice(p, x, y, n, t);
      CopyInto(outPix, start, x);
      CopyInto(outPix, start + |x|, y);
      Regroup(p, x, y, t);
    }

    /** The first loop of `operator()`: a fresh pixel of `nbOutputImages` no-data blocks. */
    method NoDataPixel() returns (outPix: array<real>)
      ensures fresh(outPix)
      ensures outPix[..] == Flatten(Repeat(NoDataBlock(sarNbBands, optNbBands, sarNoData, optNoData), nbOutputImages))
    {
      var width := sarNbBands + optNbBands;
      outPix := new real[nbOutputImages * width];
      ghost var nd := NoDataBlock(sarNbBands, optNbBands, sarNoData, optNoData);
      var sarND, optND := sarNoData, optNoData;
      var sarBlock, optBlock := seq(sarNbBands, _ => sarND), seq(optNbBands, _ => optND);
      assert nd == sarBlock + optBlock;
      FillNoData(outPix, sarBlock, optBlock, nbOutputImages);
    }

    /** The first loop of `operator()` over a pixel of `n` blocks. */
    static method FillNoData(outPix: array<real>, sarBlock: seq<real>, optBlock: seq<real>, n: nat)
      requires outPix.Length == n * (|sarBlock| + |optBlock|)
      modifies outPix
      ensures outPix[..] == Flatten(Repeat(sarBlock + optBlock, n))
    {
      var width := |sarBlock| + |optBlock|;
      ghost var nd := sarBlock + optBlock;
      var outBand := 0;
      ghost var rest := outPix[..];
      for imgIdx := 0 to n
        invariant outBand == |Flatten(Repeat(nd, imgIdx))|
        invariant |rest| == (n - imgIdx) * width
        invariant outPix[..] == Flatten(Repeat(nd, imgIdx)) + rest
      {
        MulSucc(n - imgIdx - 1, width);
        MulNat(n - imgIdx - 1, width);
        PlaceNoData(outPix, outBand, sarBlock, optBlock, Flatten(Repeat(nd, imgIdx)), rest);
        RepeatMore(nd, imgIdx);
        rest := rest[width..];
        outBand := outBand + width;
      }
    }

    /** The body of the first loop of `operator()`: one no-data block written over the bands `rest`. */
    static method PlaceNoData(outPix: array<real>, outBand: nat, sarBlock: seq<real>, optBlock: seq<real>,
                              ghost f: seq<real>, ghost rest: seq<real>)
      requires outPix[..] == f + rest && |f| == outBand && |sarBlock| + |optBlock| <= |rest|
      modifies outPix
      ensures outPix[..] == (f + (sarBlock + optBlock)) + rest[|sarBlock| + |optBlock|..]
    {
      var w := |sarBlock| + |optBlock|;
      assert rest == rest[..w] + rest[w..];
      WriteTwo(outPix, outBand, sarBlock, optBlock, f, rest[..w], rest[w..]);
    }

    /**
     * The body of the pair loop of `operator()` for a usable pair: the SAR
     * pixel then the optical pixel written over the next no-data block.
     */
    static method PlaceBlock(outPix: array<real>, outBand: nat, sarPix: seq<real>, optPix: seq<real>,
                             ghost front: seq<seq<real>>, ghost nd: seq<real>, ghost k: nat)
      requires |nd| == |sarPix| + |optPix| && outBand == |Flatten(front)|
      requires Laid(outPix[..], front, nd, k + 1)
      modifies outPix
      ensures Laid(outPix[..], front + [sarPix + optPix], nd, k)
    {
      ghost var x, r := Flatten(front), Flatten(Repeat(nd, k));
      RepeatMore(nd, k);
      Regroup(x, [], nd, r);
      WriteTwo(outPix, outBand, sarPix, optPix, x, nd, r);
      FlattenSnoc(front, sarPix + optPix);
    }

    /**
     * `operator()`: no-data blocks, overwritten in turn by the SAR and
     * optical pixels of the pairs where neither is all no-data, until
     * `nbOutputImages` blocks are filled. The callers give pairs within the
     * stacked pixels.
     */
    method Apply(inSar: seq<real>, inOpt: seq<real>) returns (out: seq<real>)
      requires Fits(pairs, inSar, inOpt, sarNbBands, optNbBands)
      ensures |out| == OutputSize()
      ensures out == OutputPixel(pairs, inSar, inOpt, sarNbBands, optNbBands, sarNoData, optNoData, nbOutputImages)
    {
      var outPix := NoDataPixel();
      assert Flatten([]) == [];
      FillPairs(outPix, pairs, inSar, inOpt, sarNbBands, optNbBands, sarNoData, optNoData, nbOutputImages);
      out := outPix[..];
      OutputLength(pairs, inSar, inOpt, sarNbBands, optNbBands, sarNoData, optNoData, nbOutputImages);
    }

    /** The pair loop of `operator()`, over a pixel of `nbOut` no-data blocks. */
    static method FillPairs(outPix: array<real>, pairs: seq<(nat, nat)>, inSar: seq<real>, inOpt: seq<real>,
                            sarB: nat, optB: nat, sarND: real, optND: real, nbOut: nat)
      requires Fits(pairs, inSar, inOpt, sarB, optB)
      requires Laid(outPix[..], [], NoDataBlock(sarB, optB, sarND, optND), nbOut)
      modifies outPix
      ensures outPix[..] == OutputPixel(pairs, inSar, inOpt, sarB, optB, sarND, optND, nbOut)
    {
      var width := sarB + optB;
      ghost var nd := NoDataBlock(sarB, optB, sarND, optND);
      var currentNbOutput := 0;
      var outBand := 0;
      var p := 0;
      while p < |pairs| && currentNbOutput < nbOut
        invariant p <= |pairs| && Fits(pairs[..p], inSar, inOpt, sarB, optB)
        invariant currentNbOutput == |Usable(pairs[..p], inSar, inOpt, sarB, optB, sarND, optND)|
        invariant currentNbOutput <= nbOut && outBand == currentNbOutput * width
        invariant Laid(outPix[..], Usable(pairs[..p], inSar, inOpt, sarB, optB, sarND, optND), nd, nbOut - currentNbOutput)
      {
        var sarPix := GetPixel(inSar, pairs[p].0, sarB);
        var optPix := GetPixel(inOpt, pairs[p].1, optB);
        var sarIsNoData := IsNoData(sarPix, sarND);
        var optIsNoData := IsNoData(optPix, optND);
        ghost var front := Usable(pairs[..p], inSar, inOpt, sarB, optB, sarND, optND);
        PairStep(pairs, inSar, inOpt, sarB, optB, sarND, optND, p, !sarIsNoData && !optIsNoData);
        if !sarIsNoData && !optIsNoData {
          PlaceBlock(outPix, outBand, sarPix, optPix, front, nd, nbOut - currentNbOutput - 1);
          outBand := outBand + sarB + optB;
          MulSucc(currentNbOutput, width);
          currentNbOutput := currentNbOutput + 1;
        }
        p := p + 1;
      }
      ApplyDone(pairs, inSar, inOpt, sarB, optB, sarND, optND, nbOut, p, outPix[..]);
    }
  }

  /** When the pair loop of `operator()` stops, the pixel is the output pixel. */
  lemma ApplyDone(pairs: seq<(nat, nat)>, inSar: seq<real>, inOpt: seq<real>,
                  sarB: nat, optB: nat, sarND: real, optND: real, nbOut: nat, p: nat, out: seq<real>)
    requires Fits(pairs, inSar, inOpt, sarB, optB) && p <= |pairs|
    requires Fits(pairs[..p], inSar, inOpt, sarB, optB)
    requires |Usable(pairs[..p], inSar, inOpt, sarB, optB, sarND, optND)| <= nbOut
    requires p == |pairs| || |Usable(pairs[..p], inSar, inOpt, sarB, optB, sarND, optND)| == nbOut
    requires Laid(out, Usable(pairs[..p], inSar, inOpt, sarB, optB, sarND, optND), NoDataBlock(sarB, optB, sarND, optND),
                  nbOut - |Usable(pairs[..p], inSar, inOpt, sarB, optB, sarND, optND)|)
    ensures out == OutputPixel(pairs, inSar, inOpt, sarB, optB, sarND, optND, nbOut)
  {
    UsablePrefix(pairs, inSar, inOpt, sarB, optB, sarND, optND, p);
    if p == |pairs| {
      assert pairs[..p] == pairs;
    }
    OutputLength(pairs, inSar, inOpt, sarB, optB, sarND, optND, nbOut);
  }

  /** Bands `a` are `blocks` then `k` copies of `nd`. */
  ghost predicate Laid(a: seq<real>, blocks: seq<seq<real>>, nd: seq<real>, k: nat) {
    a == Flatten(blocks) + Flatten(Repeat(nd, k))
  }

  lemma MulSucc(c: nat, w: nat)
    ensures (c + 1) * w == c * w + w
  {
  }

  lemma Regroup(x: seq<real>, s: seq<real>, o: seq<real>, r: seq<real>)
    ensures x + s + o + r == (x + (s + o)) + r
  {
  }

  lemma MulNat(a: nat, b: nat)
    ensures a * b >= 0
  {
  }


  /** One more block after blocks laid end to end. */
  lemma FlattenSnoc(blocks: seq<seq<real>>, b: seq<real>)
    ensures Flatten(blocks + [b]) == Flatten(blocks) + b
  {
    FlattenAppend(blocks, [b]);
    assert Flatten([b]) == b + Flatten([]);
  }

  /** The output pixel has `nbOut` blocks of `sarB + optB` bands. */
  lemma OutputLength(pairs: seq<(nat, nat)>, inSar: seq<real>, inOpt: seq<real>,
                     sarB: nat, optB: nat, sarND: real, optND: real, nbOut: nat)
    requires Fits(pairs, inSar, inOpt, sarB, optB)
    ensures |OutputPixel(pairs, inSar, inOpt, sarB, optB, sarND, optND, nbOut)| == nbOut * (sarB + optB)
  {
    var u := Usable(pairs, inSar, inOpt, sarB, optB, sarND, optND);
    var c := if |u| < nbOut then |u| else nbOut;
    var nd := NoDataBlock(sarB, optB, sarND, optND);
    UsableLengths(pairs, inSar, inOpt, sarB, optB, sarND, optND);
    FlattenAppend(u[..c], Repeat(nd, nbOut - c));
    FlattenBlockCount(u[..c] + Repeat(nd, nbOut - c), sarB + optB);
  }

  /** Blocks of `width` bands each take `|blocks| * width` bands. */
  lemma {:induction false} FlattenBlockCount(blocks: seq<seq<real>>, width: nat)
    requires forall j :: 0 <= j < |blocks| ==> |blocks[j]| == width
    ensures |Flatten(blocks)| == |blocks| * width
  {
    if |blocks| > 0 {
      FlattenBlockCount(blocks[1..], width);
    }
  }

  /** The number of output image pairs: the environment's value, at least one. */
  function NbOutputs(env: int): (r: nat)
    ensures r >= 1 && r >= env && (r == env || r == 1)
  {
    if env > 1 then env else 1
  }

  /**
   * The channels, counted from 1 and both ends included, that the SAR and
   * optical slicers of output `i` take from the output pixel.
   */
  function SlicerRange(i: nat, sarB: nat, optB: nat): ((nat, nat), (nat, nat))
  {
    var start := i * (sarB + optB) + 1;
    ((start, start + sarB - 1), (start + sarB, start + sarB + optB - 1))
  }

  /**
   * The slicer loop of `InitFilter`: for each output, the SAR slicer's
   * channels, then the optical slicer's, from channel 1 on.
   */
  method SlicerRanges(sarB: nat, optB: nat, outputs: nat) returns (sar: seq<(nat, nat)>, opt: seq<(nat, nat)>)
    ensures |sar| == outputs && |opt| == outputs
    ensures forall i :: 0 <= i < outputs ==> (sar[i], opt[i]) == SlicerRange(i, sarB, optB)
  {
    sar, opt := [], [];
    var start: nat := 1;
    for i := 1 to outputs + 1
      invariant |sar| == i - 1 && |opt| == i - 1
      invariant start == (i - 1) * (sarB + optB) + 1
      invariant forall j :: 0 <= j < i - 1 ==> (sar[j], opt[j]) == SlicerRange(j, sarB, optB)
    {
      sar := sar + [(start, start + sarB - 1)];
      opt := opt + [(sarB + start, start + sarB + optB - 1)];
      MulSucc(i - 1, sarB + optB);
      start := start + sarB + optB;
    }
  }

  /**
   * The slicers of output `k` cut block `k` of an output pixel of `nbOut`
   * blocks in two: its first `sarB` bands go to the SAR output, the other
   * `optB` to the optical output.
   */
  lemma SlicerBlocks(out: seq<real>, sarB: nat, optB: nat, nbOut: nat, k: nat)
    requires |out| == nbOut * (sarB + optB) && k < nbOut
    ensures var (s, o) := SlicerRange(k, sarB, optB);
      var width := sarB + optB;
      && 1 <= s.0 && s.0 - 1 <= s.1 && s.1 + 1 == o.0 && o.0 - 1 <= o.1 && o.1 <= |out|
      && s.1 - s.0 + 1 == sarB && o.1 - o.0 + 1 == optB
      && s.0 - 1 == k * width && o.1 == k * width + width
      && out[s.0 - 1 .. s.1] + out[o.0 - 1 .. o.1] == out[k * width .. k * width + width]
  {
    var width := sarB + optB;
    MulNat(k, width);
    MulSucc(k, width);
    MulMono(k + 1, nbOut, width);
    var b := k * width;
    assert out[b .. b + width] == out[b .. b + sarB] + out[b + sarB .. b + width];
  }

  lemma MulMono(a: nat, b: nat, w: nat)
    requires a <= b
    ensures a * w <= b * w
  {
  }
}
