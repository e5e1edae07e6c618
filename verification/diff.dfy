/** Pairwise difference accumulation and binarisation
    (find_and_save_regions, the diff loop and the two masks). */
module DiffAccumulator {
  import opened Wrappers
  import opened Grids

  /** `ImageChops.difference` on one channel. */
  function AbsDiff(a: Byte, b: Byte): Byte {
    if a >= b then a - b else b - a
  }

  /** Saturation at the top of the 8-bit range. */
  function Clip(x: int): int {
    if x > 255 then 255 else x
  }

  /** `ImageChops.add` with the default scale 1 and offset 0 on one channel. */
  function SatAdd(a: Byte, b: Byte): Byte {
    Clip(a + b)
  }

  function PixelDifference(p: Pixel, q: Pixel): Pixel {
    Pixel(AbsDiff(p.red, q.red), AbsDiff(p.green, q.green), AbsDiff(p.blue, q.blue))
  }

  function PixelAdd(p: Pixel, q: Pixel): Pixel {
    Pixel(SatAdd(p.red, q.red), SatAdd(p.green, q.green), SatAdd(p.blue, q.blue))
  }

  /** Channelwise `ImageChops.difference` of two same-size images. */
  function Difference(x: Image, y: Image): (d: Image)
    requires SameShape(x, y)
    ensures SameShape(d, x)
  {
    seq(|x|, r requires 0 <= r < |x| =>
      seq(|x[r]|, c requires 0 <= c < |x[r]| => PixelDifference(x[r][c], y[r][c])))
  }

  /** Channelwise `ImageChops.add` of two same-size images. */
  function Add(x: Image, y: Image): (s: Image)
    requires SameShape(x, y)
    ensures SameShape(s, x)
  {
    seq(|x|, r requires 0 <= r < |x| =>
      seq(|x[r]|, c requires 0 <= c < |x[r]| => PixelAdd(x[r][c], y[r][c])))
  }

  /** The pairs (i, j), i < j < n, with i starting at `i0`, in the order of
      the nested loops `for i in range(n): for j in range(i + 1, n)`. */
  function PairsFrom(i0: nat, n: nat): seq<(int, int)>
    decreases n - i0
  {
    if i0 >= n then []
    else seq(n - i0 - 1, k => (i0, i0 + 1 + k)) + PairsFrom(i0 + 1, n)
  }

  function Pairs(n: nat): seq<(int, int)> {
    PairsFrom(0, n)
  }

  /** Exactly the pairs i0 <= i < j < n are listed. */
  lemma {:induction false} PairsFromMembers(i0: nat, n: nat)
    ensures forall i, j :: (i, j) in PairsFrom(i0, n) <==> i0 <= i < j < n
    decreases n - i0
  {
    if i0 < n {
      PairsFromMembers(i0 + 1, n);
      var row := seq(n - i0 - 1, k => (i0, i0 + 1 + k));
      forall i, j
        ensures (i, j) in PairsFrom(i0, n) <==> i0 <= i < j < n
      {
        if i == i0 && i0 < j < n {
          assert row[j - i0 - 1] == (i, j);
        }
      }
    }
  }

  /** The pairs index a sequence of length `n`. */
  predicate PairsIndex(pairs: seq<(int, int)>, n: nat) {
    forall p :: p in pairs ==> 0 <= p.0 < n && 0 <= p.1 < n
  }

  lemma PairsIndexBatch(n: nat)
    ensures PairsIndex(Pairs(n), n)
    ensures |Pairs(n)| == 0 <==> n < 2
  {
    PairsFromMembers(0, n);
    assert Pairs(n) == PairsFrom(0, n);
    forall p | p in Pairs(n)
      ensures 0 <= p.0 < p.1 < n
    {
      assert p == (p.0, p.1);
      assert (p.0, p.1) in PairsFrom(0, n);
      assert 0 <= p.0 < p.1 < n;
    }
    if n >= 2 {
      assert (0, 1) in Pairs(n);
    } else {
      assert |Pairs(n)| > 0 ==> Pairs(n)[0] in Pairs(n);
    }
  }

  /** Sum of |v[i] - v[j]| over the listed pairs. */
  function TermSum(v: seq<Byte>, pairs: seq<(int, int)>): (s: int)
    requires PairsIndex(pairs, |v|)
    ensures s >= 0
  {
    if |pairs| == 0 then 0
    else AbsDiff(v[pairs[0].0], v[pairs[0].1]) + TermSum(v, pairs[1..])
  }

  /** Sum of |v[i] - v[j]| over all pairs i < j. */
  function PairSum(v: seq<Byte>): int
  {
    PairsIndexBatch(|v|);
    TermSum(v, Pairs(|v|))
  }

  /** The values of channel `ch` at (r, c) across the batch. */
  function Values(images: seq<Image>, r: nat, c: nat, ch: Channel): seq<Byte>
    requires forall k :: 0 <= k < |images| ==> r < |images[k]| && c < |images[k][r]|
  {
    seq(|images|, k requires 0 <= k < |images| => ChannelOf(images[k][r][c], ch))
  }

  /** Every image of the batch is h by w. */
  predicate Uniform(images: seq<Image>, h: nat, w: nat) {
    forall k :: 0 <= k < |images| ==> IsGrid(images[k], h, w)
  }

  /** The accumulation loop from the pair `pairs[0]` onwards, `acc` being
      `diff_accumulated` so far (`None` before the first pair). */
  function AccumulateOver(images: seq<Image>, h: nat, w: nat, pairs: seq<(int, int)>, acc: Option<Image>): (res: Option<Image>)
    requires Uniform(images, h, w)
    requires PairsIndex(pairs, |images|)
    requires acc.Some? ==> IsGrid(acc.value, h, w)
    ensures res.Some? ==> IsGrid(res.value, h, w)
    ensures res.None? <==> acc.None? && |pairs| == 0
    decreases |pairs|
  {
    if |pairs| == 0 then acc
    else
      var d := Difference(images[pairs[0].0], images[pairs[0].1]);
      var acc' := if acc.None? then Some(d) else Some(Add(acc.value, d));
      AccumulateOver(images, h, w, pairs[1..], acc')
  }

  /** `diff_accumulated` after the pairwise loop: `None` when there is no pair. */
  function AccumulatedDiff(images: seq<Image>): (acc: Option<Image>)
    requires SameSize(images)
    ensures acc.None? <==> |images| < 2
    ensures acc.Some? ==> IsGrid(acc.value, BatchHeight(images), BatchWidth(images))
  {
    PairsIndexBatch(|images|);
    AccumulateOver(images, BatchHeight(images), BatchWidth(images), Pairs(|images|), None)
  }

  /** Saturating after every addition gives the saturated total, because
      every added term is non-negative. */
  lemma {:induction false} AccumulateOverChannel(images: seq<Image>, h: nat, w: nat, pairs: seq<(int, int)>, acc: Option<Image>, r: nat, c: nat, ch: Channel)
    requires Uniform(images, h, w)
    requires PairsIndex(pairs, |images|)
    requires acc.Some? ==> IsGrid(acc.value, h, w)
    requires acc.Some? || |pairs| > 0
    requires r < h && c < w
    ensures
      var res := AccumulateOver(images, h, w, pairs, acc);
      var base := if acc.Some? then ChannelOf(acc.value[r][c], ch) else 0;
      ChannelOf(res.value[r][c], ch) == Clip(base + TermSum(Values(images, r, c, ch), pairs))
    decreases |pairs|
  {
    var v := Values(images, r, c, ch);
    if |pairs| > 0 {
      var d := Difference(images[pairs[0].0], images[pairs[0].1]);
      var acc' := if acc.None? then Some(d) else Some(Add(acc.value, d));
      var t := AbsDiff(v[pairs[0].0], v[pairs[0].1]);
      assert ChannelOf(d[r][c], ch) == t by {
        match ch
        case Red =>
        case Green =>
        case Blue =>
      }
      if acc.Some? {
        assert ChannelOf(acc'.value[r][c], ch) == Clip(ChannelOf(acc.value[r][c], ch) + t) by {
          match ch
          case Red =>
          case Green =>
          case Blue =>
        }
      }
      if |pairs| > 1 {
        AccumulateOverChannel(images, h, w, pairs[1..], acc', r, c, ch);
      }
    }
  }

  /** Each channel of the accumulated difference is the sum over all pairs
      i < j of |a_i - a_j|, clipped at 255. */
  lemma AccumulatedDiffChannel(images: seq<Image>, r: nat, c: nat, ch: Channel)
    requires SameSize(images) && |images| >= 2
    requires r < BatchHeight(images) && c < BatchWidth(images)
    ensures ChannelOf(AccumulatedDiff(images).value[r][c], ch) == Clip(PairSum(Values(images, r, c, ch)))
  {
    PairsIndexBatch(|images|);
    AccumulateOverChannel(images, BatchHeight(images), BatchWidth(images), Pairs(|images|), None, r, c, ch);
  }

  lemma {:induction false} TermSumZero(v: seq<Byte>, pairs: seq<(int, int)>)
    requires PairsIndex(pairs, |v|)
    ensures TermSum(v, pairs) == 0 <==> forall p :: p in pairs ==> v[p.0] == v[p.1]
  {
    if |pairs| > 0 {
      TermSumZero(v, pairs[1..]);
      assert forall p :: p in pairs ==> p == pairs[0] || p in pairs[1..];
    }
  }

  /** The pair sum vanishes exactly where all values agree. */
  lemma PairSumZeroIffAgree(v: seq<Byte>)
    ensures PairSum(v) == 0 <==> forall i, j :: 0 <= i < |v| && 0 <= j < |v| ==> v[i] == v[j]
  {
    PairsIndexBatch(|v|);
    PairsFromMembers(0, |v|);
    TermSumZero(v, Pairs(|v|));
    if PairSum(v) == 0 {
      forall i, j | 0 <= i < |v| && 0 <= j < |v|
        ensures v[i] == v[j]
      {
        if i < j {
          assert (i, j) in Pairs(|v|);
        } else if j < i {
          assert (j, i) in Pairs(|v|);
        }
      }
    }
  }

  /** The accumulated difference is black at (r, c) exactly when every
      image of the batch has the same pixel there. */
  lemma AccumulatedDiffBlackIffAgree(images: seq<Image>, r: nat, c: nat)
    requires SameSize(images) && |images| >= 2
    requires r < BatchHeight(images) && c < BatchWidth(images)
    ensures AccumulatedDiff(images).value[r][c] == Black
        <==> forall i, j :: 0 <= i < |images| && 0 <= j < |images| ==> images[i][r][c] == images[j][r][c]
  {
    var acc := AccumulatedDiff(images).value;
    forall ch: Channel
      ensures ChannelOf(acc[r][c], ch) == 0
          <==> forall i, j :: 0 <= i < |images| && 0 <= j < |images|
                 ==> ChannelOf(images[i][r][c], ch) == ChannelOf(images[j][r][c], ch)
    {
      AccumulatedDiffChannel(images, r, c, ch);
      var v := Values(images, r, c, ch);
      PairSumZeroIffAgree(v);
      assert forall i :: 0 <= i < |images| ==> v[i] == ChannelOf(images[i][r][c], ch);
    }
    assert acc[r][c] == Black <==>
      ChannelOf(acc[r][c], Red) == 0 && ChannelOf(acc[r][c], Green) == 0 && ChannelOf(acc[r][c], Blue) == 0;
    if acc[r][c] == Black {
      forall i, j | 0 <= i < |images| && 0 <= j < |images|
        ensures images[i][r][c] == images[j][r][c]
      {
        assert ChannelOf(images[i][r][c], Red) == ChannelOf(images[j][r][c], Red);
        assert ChannelOf(images[i][r][c], Green) == ChannelOf(images[j][r][c], Green);
        assert ChannelOf(images[i][r][c], Blue) == ChannelOf(images[j][r][c], Blue);
      }
    }
  }

  /** The grayscale threshold of the "differs" mask. */
  const DiffThreshold := 30

  /** `(np.array(diff.convert('L')) > 30).astype(np.uint8) * 255` */
  function Binarise(acc: Image): Grid<Byte> {
    seq(|acc|, r requires 0 <= r < |acc| =>
      seq(|acc[r]|, c requires 0 <= c < |acc[r]| => if Luma(acc[r][c]) > DiffThreshold then 255 else 0))
  }

  /** `np.invert` on a uint8 array: bitwise complement of every byte. */
  function Invert(m: Grid<Byte>): Grid<Byte> {
    seq(|m|, r requires 0 <= r < |m| =>
      seq(|m[r]|, c requires 0 <= c < |m[r]| => 255 - m[r][c]))
  }

  /** The "differs" mask `binary_diff` and the "overlap" mask `inverse_binary_diff`. */
  datatype Masks = Masks(binaryDiff: Grid<Byte>, overlap: Grid<Byte>)

  /** `diff_accumulated` is still `None` when fewer than two images were given,
      and converting it raises. */
  datatype DiffError = NoAccumulatedDiff

  function ComputeMasks(images: seq<Image>): (res: Result<Masks, DiffError>)
    requires SameSize(images)
    ensures res.Failure? <==> |images| < 2
    ensures res.Success? ==>
      && IsGrid(res.value.binaryDiff, BatchHeight(images), BatchWidth(images))
      && IsGrid(res.value.overlap, BatchHeight(images), BatchWidth(images))
    ensures res.Success? ==>
      forall r, c :: 0 <= r < BatchHeight(images) && 0 <= c < BatchWidth(images) ==>
        && (res.value.binaryDiff[r][c] == 0 || res.value.binaryDiff[r][c] == 255)
        && (res.value.overlap[r][c] == 255 <==> res.value.binaryDiff[r][c] == 0)
        && (res.value.overlap[r][c] == 0 <==> res.value.binaryDiff[r][c] == 255)
  {
    match AccumulatedDiff(images)
    case None => Failure(NoAccumulatedDiff)
    case Some(acc) =>
      var binary := Binarise(acc);
      Success(Masks(binary, Invert(binary)))
  }

  /** What the overlap mask means: a pixel is overlap foreground exactly when
      the grayscale of the accumulated difference is at most 30; every pixel
      on which the whole batch agrees is overlap, and every non-overlap pixel
      has two images that disagree there. */
  lemma OverlapMaskMeaning(images: seq<Image>, r: nat, c: nat)
    requires SameSize(images) && |images| >= 2
    requires r < BatchHeight(images) && c < BatchWidth(images)
    ensures ComputeMasks(images).value.overlap[r][c] == 255
        <==> Luma(AccumulatedDiff(images).value[r][c]) <= DiffThreshold
    ensures (forall i, j :: 0 <= i < |images| && 0 <= j < |images| ==> images[i][r][c] == images[j][r][c])
        ==> ComputeMasks(images).value.overlap[r][c] == 255
    ensures ComputeMasks(images).value.overlap[r][c] == 0
        ==> exists i, j :: 0 <= i < |images| && 0 <= j < |images| && images[i][r][c] != images[j][r][c]
  {
    AccumulatedDiffBlackIffAgree(images, r, c);
  }
}
