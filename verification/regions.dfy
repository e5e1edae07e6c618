/** Connected regions of a binary mask and the fragments cropped from them:
    the `label` / `regionprops` step, the area filter, and the
    crop-and-composite that turns a region into a fragment image. */
module Regions {
  import opened Wrappers
  import opened Grids

  /** A label array as `skimage.measure.label` returns it: 0 is background,
      1, 2, ... name the connected components. */
  type Labels = Grid<nat>

  /** `region.bbox`: rows minr..maxr-1 and columns minc..maxc-1 (half-open). */
  datatype BBox = BBox(minr: nat, minc: nat, maxr: nat, maxc: nat)

  /** One entry of `regionprops`: its label, its pixel count and its bbox. */
  datatype Region = Region(labelId: nat, area: nat, bbox: BBox)

  /** The minimum-area condition of both passes: only regions of more than
      four pixels produce fragments. */
  const MinArea := 4

  predicate Kept(region: Region) {
    region.area > MinArea
  }

  predicate Inside(b: BBox, r: int, c: int) {
    b.minr <= r < b.maxr && b.minc <= c < b.maxc
  }

  /** A non-empty box inside an h-by-w grid. */
  predicate FitsIn(b: BBox, h: nat, w: nat) {
    b.minr < b.maxr <= h && b.minc < b.maxc <= w
  }

  // ---------------------------------------------------------------------------
  // The labeling oracle

  /** 8-connectivity (`connectivity=2` in two dimensions). */
  predicate Adjacent(r1: int, c1: int, r2: int, c2: int) {
    -1 <= r1 - r2 <= 1 && -1 <= c1 - c2 <= 1
  }

  /** Some pixel carries label `l`. */
  ghost predicate Present(labels: Labels, l: nat) {
    exists r, c :: InGrid(labels, r, c) && labels[r][c] == l
  }

  /** A chain of 8-adjacent pixels all carrying the label of its first pixel. */
  ghost predicate IsPath(labels: Labels, path: seq<(int, int)>) {
    && |path| > 0
    && (forall k :: 0 <= k < |path| ==> InGrid(labels, path[k].0, path[k].1))
    && (forall k :: 0 <= k < |path| ==>
          labels[path[k].0][path[k].1] == labels[path[0].0][path[0].1])
    && (forall k :: 0 < k < |path| ==> Adjacent(path[k - 1].0, path[k - 1].1, path[k].0, path[k].1))
  }

  ghost predicate Linked(labels: Labels, p: (int, int), q: (int, int)) {
    exists path :: IsPath(labels, path) && path[0] == p && path[|path| - 1] == q
  }

  /** What `label(mask, connectivity=2)` promises: an array of the mask's
      shape that is 0 exactly on the background, numbers its components
      1..max without gaps, gives 8-adjacent foreground pixels the same label
      (so each component is maximal) and links any two pixels of one label by
      a path inside that label (so each component is connected). */
  ghost predicate IsLabeling(mask: Grid<Byte>, labels: Labels) {
    && SameShape(mask, labels)
    && (forall r, c :: InGrid(labels, r, c) ==> (labels[r][c] == 0 <==> mask[r][c] == 0))
    && (forall l :: 1 <= l <= MaxLabel(labels) ==> Present(labels, l))
    && (forall r1, c1, r2, c2 ::
          InGrid(labels, r1, c1) && InGrid(labels, r2, c2) && Adjacent(r1, c1, r2, c2)
          && labels[r1][c1] != 0 && labels[r2][c2] != 0
          ==> labels[r1][c1] == labels[r2][c2])
    && (forall r1, c1, r2, c2 ::
          InGrid(labels, r1, c1) && InGrid(labels, r2, c2)
          && labels[r1][c1] != 0 && labels[r1][c1] == labels[r2][c2]
          ==> Linked(labels, (r1, c1), (r2, c2)))
  }

  function RowMax(row: seq<nat>): (m: nat)
    ensures forall c :: 0 <= c < |row| ==> row[c] <= m
    ensures m == 0 || exists c :: 0 <= c < |row| && row[c] == m
  {
    if |row| == 0 then 0
    else
      var m := RowMax(row[..|row| - 1]);
      if row[|row| - 1] > m then row[|row| - 1] else m
  }

  /** The largest label, 0 for an all-background array. */
  function MaxLabel(labels: Labels): (m: nat)
    ensures forall r, c :: InGrid(labels, r, c) ==> labels[r][c] <= m
    ensures m == 0 || Present(labels, m)
  {
    if |labels| == 0 then 0
    else
      var m := MaxLabel(labels[..|labels| - 1]);
      var last := RowMax(labels[|labels| - 1]);
      if last > m then last else m
  }

  /** An all-background mask has no components at all. */
  lemma BackgroundHasNoLabels(mask: Grid<Byte>, labels: Labels)
    requires IsLabeling(mask, labels)
    requires forall r, c :: InGrid(mask, r, c) ==> mask[r][c] == 0
    ensures MaxLabel(labels) == 0
  {
  }

  // ---------------------------------------------------------------------------
  // regionprops: bounding box and area of every label

  /** Columns [c0, c1) of a row: the smallest span holding every `l` in it. */
  function RowSpan(row: seq<nat>, l: nat): (s: Option<(nat, nat)>)
    ensures s.None? <==> forall c :: 0 <= c < |row| ==> row[c] != l
    ensures s.Some? ==>
      && s.value.0 < s.value.1 <= |row|
      && row[s.value.0] == l && row[s.value.1 - 1] == l
      && forall c :: 0 <= c < |row| && row[c] == l ==> s.value.0 <= c < s.value.1
  {
    if |row| == 0 then None
    else
      var s := RowSpan(row[..|row| - 1], l);
      if row[|row| - 1] != l then s
      else if s.None? then Some((|row| - 1, |row|))
      else Some((s.value.0, |row|))
  }

  ghost predicate HasInRow(labels: Labels, l: nat, r: int) {
    0 <= r < |labels| && exists c :: 0 <= c < |labels[r]| && labels[r][c] == l
  }

  ghost predicate HasInCol(labels: Labels, l: nat, n: nat, c: int) {
    exists r :: 0 <= r < n && InGrid(labels, r, c) && labels[r][c] == l
  }

  /** `b` is the smallest box holding every `l` among the first `n` rows:
      it holds them all and each of its four edges touches one. */
  ghost predicate IsBoxOfRows(labels: Labels, l: nat, n: nat, b: BBox) {
    && FitsIn(b, n, Width(labels))
    && (forall r, c :: 0 <= r < n && InGrid(labels, r, c) && labels[r][c] == l ==> Inside(b, r, c))
    && HasInRow(labels, l, b.minr) && HasInRow(labels, l, b.maxr - 1)
    && HasInCol(labels, l, n, b.minc) && HasInCol(labels, l, n, b.maxc - 1)
  }

  ghost predicate IsTightBox(labels: Labels, l: nat, b: BBox) {
    IsBoxOfRows(labels, l, |labels|, b)
  }

  /** The box of `prev` grown to take in columns [c0, c1) of row r. */
  function Grow(prev: Option<BBox>, r: nat, span: Option<(nat, nat)>): Option<BBox> {
    match span
    case None => prev
    case Some((c0, c1)) =>
      match prev
      case None => Some(BBox(r, c0, r + 1, c1))
      case Some(p) =>
        Some(BBox(p.minr, if c0 < p.minc then c0 else p.minc, r + 1, if c1 > p.maxc then c1 else p.maxc))
  }

  /** The bbox of label `l` among the first `n` rows, scanning top to bottom. */
  function ExtentRows(labels: Labels, l: nat, n: nat): Option<BBox>
    requires n <= |labels|
  {
    if n == 0 then None
    else Grow(ExtentRows(labels, l, n - 1), n - 1, RowSpan(labels[n - 1], l))
  }

  /** The scan finds nothing exactly when no row holds `l`, and otherwise the
      smallest box holding every `l`. */
  lemma {:induction false} ExtentRowsIsTight(labels: Labels, l: nat, n: nat)
    requires Rectangular(labels) && n <= |labels|
    ensures ExtentRows(labels, l, n).None? <==>
      forall r, c :: 0 <= r < n && InGrid(labels, r, c) ==> labels[r][c] != l
    ensures ExtentRows(labels, l, n).Some? ==> IsBoxOfRows(labels, l, n, ExtentRows(labels, l, n).value)
  {
    if n > 0 {
      ExtentRowsIsTight(labels, l, n - 1);
      var prev := ExtentRows(labels, l, n - 1);
      var row := labels[n - 1];
      match RowSpan(row, l)
      case None =>
        if prev.Some? {
          GrowKeepsBox(labels, l, n, prev.value, row);
        }
      case Some((c0, c1)) =>
        assert row[c0] == l && row[c1 - 1] == l;
        if prev.None? {
          var b := BBox(n - 1, c0, n, c1);
          assert HasInRow(labels, l, n - 1);
          assert InGrid(labels, n - 1, c0) && InGrid(labels, n - 1, c1 - 1);
          assert HasInCol(labels, l, n, c0);
          assert HasInCol(labels, l, n, c1 - 1);
        } else {
          GrowWidensBox(labels, l, n, prev.value, c0, c1, row);
        }
    }
  }

  /** A row without `l` leaves the box as it was. */
  lemma GrowKeepsBox(labels: Labels, l: nat, n: nat, b: BBox, row: seq<nat>)
    requires Rectangular(labels) && 0 < n <= |labels| && row == labels[n - 1]
    requires IsBoxOfRows(labels, l, n - 1, b)
    requires forall c :: 0 <= c < |row| ==> row[c] != l
    ensures IsBoxOfRows(labels, l, n, b)
  {
    var r0 :| 0 <= r0 < n - 1 && InGrid(labels, r0, b.minc) && labels[r0][b.minc] == l;
    var r1 :| 0 <= r1 < n - 1 && InGrid(labels, r1, b.maxc - 1) && labels[r1][b.maxc - 1] == l;
    assert HasInCol(labels, l, n, b.minc);
    assert HasInCol(labels, l, n, b.maxc - 1);
  }

  /** A row holding `l` in columns [c0, c1) widens the box to take them in. */
  lemma GrowWidensBox(labels: Labels, l: nat, n: nat, p: BBox, c0: nat, c1: nat, row: seq<nat>)
    requires Rectangular(labels) && 0 < n <= |labels| && row == labels[n - 1]
    requires IsBoxOfRows(labels, l, n - 1, p)
    requires c0 < c1 <= |row|
    requires row[c0] == l && row[c1 - 1] == l
    requires forall c :: 0 <= c < |row| && row[c] == l ==> c0 <= c < c1
    ensures IsBoxOfRows(labels, l, n, Grow(Some(p), n - 1, Some((c0, c1))).value)
  {
    var b := Grow(Some(p), n - 1, Some((c0, c1))).value;
    assert HasInRow(labels, l, n - 1) by { assert labels[n - 1][c0] == l; }
    var r0 :| 0 <= r0 < n - 1 && InGrid(labels, r0, p.minc) && labels[r0][p.minc] == l;
    var r1 :| 0 <= r1 < n - 1 && InGrid(labels, r1, p.maxc - 1) && labels[r1][p.maxc - 1] == l;
    assert HasInCol(labels, l, n, b.minc) by {
      if c0 < p.minc { assert InGrid(labels, n - 1, c0); }
      else { assert InGrid(labels, r0, p.minc); }
    }
    assert HasInCol(labels, l, n, b.maxc - 1) by {
      if c1 > p.maxc { assert InGrid(labels, n - 1, c1 - 1); }
      else { assert InGrid(labels, r1, p.maxc - 1); }
    }
  }

  /** The bbox of label `l`, `None` when no pixel carries it. */
  function Extent(labels: Labels, l: nat): (b: Option<BBox>)
    requires Rectangular(labels)
    ensures b.None? <==> !Present(labels, l)
    ensures b.Some? ==> IsTightBox(labels, l, b.value)
  {
    ExtentRowsIsTight(labels, l, |labels|);
    ExtentRows(labels, l, |labels|)
  }

  function RowCount(row: seq<nat>, l: nat): (k: nat)
    ensures k > 0 <==> exists c :: 0 <= c < |row| && row[c] == l
  {
    if |row| == 0 then 0
    else
      RowCount(row[..|row| - 1], l) + (if row[|row| - 1] == l then 1 else 0)
  }

  /** `region.area`: the number of pixels carrying label `l`. */
  function Count(labels: Labels, l: nat): (k: nat)
    ensures k > 0 <==> Present(labels, l)
  {
    if |labels| == 0 then 0
    else
      var k := Count(labels[..|labels| - 1], l);
      var last := RowCount(labels[|labels| - 1], l);
      assert last > 0 ==> Present(labels, l) by {
        if last > 0 {
          var c :| 0 <= c < |labels[|labels| - 1]| && labels[|labels| - 1][c] == l;
          assert InGrid(labels, |labels| - 1, c);
        }
      }
      k + last
  }

  /** The positions (k, c) of row `k` that carry label `l`. */
  ghost function RowPixels(k: int, row: seq<nat>, l: nat): set<(int, int)> {
    set c | 0 <= c < |row| && row[c] == l :: (k, c)
  }

  /** The positions of `labels` that carry label `l`. */
  ghost function Pixels(labels: Labels, l: nat): set<(int, int)> {
    set r, c | 0 <= r < |labels| && 0 <= c < |labels[r]| && labels[r][c] == l :: (r, c)
  }

  /** A row's count is the number of its positions carrying the label. */
  lemma {:induction false} RowCountIsPixelCount(k: int, row: seq<nat>, l: nat)
    ensures RowCount(row, l) == |RowPixels(k, row, l)|
    decreases |row|
  {
    if |row| == 0 {
      assert RowPixels(k, row, l) == {};
    } else {
      var n := |row| - 1;
      var init := row[..n];
      RowCountIsPixelCount(k, init, l);
      var extra: set<(int, int)> := if row[n] == l then {(k, n)} else {};
      forall p ensures p in RowPixels(k, row, l) <==> p in RowPixels(k, init, l) + extra {
        if 0 <= p.1 < n { assert init[p.1] == row[p.1]; }
      }
      assert RowPixels(k, row, l) == RowPixels(k, init, l) + extra;
      assert RowPixels(k, init, l) * extra == {};
    }
  }

  /** `region.area` is the number of positions that carry the region's
      label. */
  lemma {:induction false} AreaIsPixelCount(labels: Labels, l: nat)
    ensures Count(labels, l) == |Pixels(labels, l)|
    decreases |labels|
  {
    if |labels| == 0 {
      assert Pixels(labels, l) == {};
    } else {
      var n := |labels| - 1;
      var init := labels[..n];
      var last := RowPixels(n, labels[n], l);
      AreaIsPixelCount(init, l);
      RowCountIsPixelCount(n, labels[n], l);
      forall p ensures p in Pixels(labels, l) <==> p in Pixels(init, l) + last {
        if 0 <= p.0 < n { assert init[p.0] == labels[p.0]; }
      }
      assert Pixels(labels, l) == Pixels(init, l) + last;
      assert Pixels(init, l) * last == {};
    }
  }

  /** The regions of labels 1..k, in increasing label order, skipping labels
      no pixel carries. */
  function RegionsUpTo(labels: Labels, k: nat): seq<Region>
    requires Rectangular(labels)
  {
    if k == 0 then []
    else
      var prev := RegionsUpTo(labels, k - 1);
      match Extent(labels, k)
      case None => prev
      case Some(b) => prev + [Region(k, Count(labels, k), b)]
  }

  /** Each region has a label in 1..k and records that label's pixel count
      and tight bbox. */
  ghost predicate RegionsDescribe(labels: Labels, regions: seq<Region>, k: nat) {
    forall i :: 0 <= i < |regions| ==>
      && 1 <= regions[i].labelId <= k
      && regions[i].area == Count(labels, regions[i].labelId) >= 1
      && IsTightBox(labels, regions[i].labelId, regions[i].bbox)
  }

  predicate SortedByLabel(regions: seq<Region>) {
    forall i, j :: 0 <= i < j < |regions| ==> regions[i].labelId < regions[j].labelId
  }

  /** Every label in 1..k that some pixel carries has a region. */
  ghost predicate CoversLabels(labels: Labels, regions: seq<Region>, k: nat) {
    forall l :: 1 <= l <= k && Present(labels, l) ==>
      exists i :: 0 <= i < |regions| && regions[i].labelId == l
  }

  /** Each region of labels 1..k records its label, its pixel count and its
      tight bbox. */
  lemma {:induction false} RegionsUpToFields(labels: Labels, k: nat)
    requires Rectangular(labels)
    ensures RegionsDescribe(labels, RegionsUpTo(labels, k), k)
  {
    if k > 0 {
      RegionsUpToFields(labels, k - 1);
      var prev := RegionsUpTo(labels, k - 1);
      match Extent(labels, k)
      case None =>
      case Some(b) =>
        var regions := prev + [Region(k, Count(labels, k), b)];
        forall i | 0 <= i < |regions|
          ensures 1 <= regions[i].labelId <= k
          ensures regions[i].area == Count(labels, regions[i].labelId) >= 1
          ensures IsTightBox(labels, regions[i].labelId, regions[i].bbox)
        {
          if i < |prev| {
            assert regions[i] == prev[i];
          }
        }
    }
  }

  /** The regions of labels 1..k come in increasing label order. */
  lemma {:induction false} RegionsUpToSorted(labels: Labels, k: nat)
    requires Rectangular(labels)
    ensures SortedByLabel(RegionsUpTo(labels, k))
  {
    if k > 0 {
      RegionsUpToSorted(labels, k - 1);
      RegionsUpToFields(labels, k - 1);
      var prev := RegionsUpTo(labels, k - 1);
      match Extent(labels, k)
      case None =>
      case Some(b) =>
        var regions := prev + [Region(k, Count(labels, k), b)];
        forall i, j | 0 <= i < j < |regions|
          ensures regions[i].labelId < regions[j].labelId
        {
          assert regions[i] == prev[i];
          if j < |prev| {
            assert regions[j] == prev[j];
          }
        }
    }
  }

  /** Each label 1..k that some pixel carries has a region. */
  lemma {:induction false} RegionsUpToComplete(labels: Labels, k: nat)
    requires Rectangular(labels)
    ensures CoversLabels(labels, RegionsUpTo(labels, k), k)
  {
    if k > 0 {
      RegionsUpToComplete(labels, k - 1);
      var prev := RegionsUpTo(labels, k - 1);
      match Extent(labels, k)
      case None =>
      case Some(b) =>
        var regions := prev + [Region(k, Count(labels, k), b)];
        assert regions == RegionsUpTo(labels, k);
        assert regions[|prev|].labelId == k;
        forall l | 1 <= l <= k && Present(labels, l)
          ensures exists i :: 0 <= i < |regions| && regions[i].labelId == l
        {
          if l < k {
            var i :| 0 <= i < |prev| && prev[i].labelId == l;
            assert regions[i] == prev[i];
          }
        }
    }
  }

  /** `regionprops(labels)`: one region per label present, in label order.
      Every foreground pixel lies in exactly one region, the one whose label
      it carries, and inside that region's bbox. */
  function RegionProps(labels: Labels): (regions: seq<Region>)
    requires Rectangular(labels)
    ensures forall i :: 0 <= i < |regions| ==>
      && regions[i].labelId >= 1
      && regions[i].area == Count(labels, regions[i].labelId) >= 1
      && IsTightBox(labels, regions[i].labelId, regions[i].bbox)
    ensures forall i, j :: 0 <= i < j < |regions| ==> regions[i].labelId < regions[j].labelId
    ensures forall r, c :: InGrid(labels, r, c) && labels[r][c] != 0 ==>
      exists i :: 0 <= i < |regions| && regions[i].labelId == labels[r][c] && Inside(regions[i].bbox, r, c)
  {
    var regions := RegionsUpTo(labels, MaxLabel(labels));
    RegionsUpToFields(labels, MaxLabel(labels));
    RegionsUpToSorted(labels, MaxLabel(labels));
    RegionsUpToComplete(labels, MaxLabel(labels));
    assert forall r, c :: InGrid(labels, r, c) && labels[r][c] != 0 ==> Present(labels, labels[r][c]);
    regions
  }

  /** A labeling of an all-background mask yields no region at all. */
  lemma BackgroundHasNoRegions(mask: Grid<Byte>, labels: Labels)
    requires Rectangular(labels)
    requires IsLabeling(mask, labels)
    requires forall r, c :: InGrid(mask, r, c) ==> mask[r][c] == 0
    ensures RegionProps(labels) == []
  {
    BackgroundHasNoLabels(mask, labels);
  }

  // ---------------------------------------------------------------------------
  // Fragments

  /** Each region's area is the number of positions carrying its label, so
      the `area > 4` filter keeps exactly the regions of more than four
      pixels. */
  lemma RegionAreaIsPixelCount(labels: Labels, i: nat)
    requires Rectangular(labels) && i < |RegionProps(labels)|
    ensures RegionProps(labels)[i].area == |Pixels(labels, RegionProps(labels)[i].labelId)|
    ensures Kept(RegionProps(labels)[i]) <==> |Pixels(labels, RegionProps(labels)[i].labelId)| > MinArea
  {
    AreaIsPixelCount(labels, RegionProps(labels)[i].labelId);
  }

  /** `img.crop((minc, minr, maxc, maxr))`: the bbox's rectangle, black where
      it leaves the image. */
  function Crop(img: Image, b: BBox): (out: Image)
    requires b.minr <= b.maxr && b.minc <= b.maxc
    ensures IsGrid(out, b.maxr - b.minr, b.maxc - b.minc)
  {
    seq(b.maxr - b.minr, r =>
      seq(b.maxc - b.minc, c =>
        if InGrid(img, b.minr + r, b.minc + c) then img[b.minr + r][b.minc + c] else Black))
  }

  /** `(labels[minr:maxr, minc:maxc] == region.labelId) * 255` as a mode "L" image. */
  function RegionMask(labels: Labels, region: Region): (m: Grid<Byte>)
    requires Rectangular(labels) && FitsIn(region.bbox, |labels|, Width(labels))
    ensures IsGrid(m, region.bbox.maxr - region.bbox.minr, region.bbox.maxc - region.bbox.minc)
  {
    var b := region.bbox;
    seq(b.maxr - b.minr, r requires 0 <= r < b.maxr - b.minr =>
      seq(b.maxc - b.minc, c requires 0 <= c < b.maxc - b.minc =>
        if labels[b.minr + r][b.minc + c] == region.labelId then 255 else 0))
  }

  /** One channel of `Image.composite(a, b, mask)`: `x` where the mask is 255,
      `y` where it is 0, linear in between. */
  function Blend(x: Byte, y: Byte, m: Byte): (v: Byte)
    ensures m == 255 ==> v == x
    ensures m == 0 ==> v == y
    ensures x <= y ==> x <= v <= y
    ensures y <= x ==> y <= v <= x
  {
    if m == 255 then x
    else if m == 0 then y
    else
      WeightedBetween(x, y, m);
      WeightedBetween(y, x, 255 - m);
      (x * m + y * (255 - m)) / 255
  }

  /** A weighted sum of two bytes with weights adding up to 255 lies
      between 255 times the smaller and 255 times the larger. */
  lemma WeightedBetween(a: Byte, b: Byte, w: Byte)
    ensures a <= b ==> 255 * a <= a * w + b * (255 - w) <= 255 * b
    ensures 0 <= a * w + b * (255 - w) <= 255 * 255
  {
    ScaledBound(a, w);
    ScaledBound(b, 255 - w);
    if a <= b {
      MulMono(a, b, 255 - w);
      MulMono(a, b, w);
      Distribute(a, w);
      Distribute(b, w);
    }
  }

  /** Multiplying by a non-negative weight keeps order. */
  lemma MulMono(a: int, b: int, w: nat)
    requires a <= b
    ensures a * w <= b * w
  {
    assert b * w - a * w == (b - a) * w;
  }

  /** A byte's two weighted parts add up to 255 times the byte. */
  lemma Distribute(a: int, w: int)
    ensures a * w + a * (255 - w) == 255 * a
  {
  }

  /** A byte times a weight is at most 255 times that weight. */
  lemma ScaledBound(a: Byte, w: nat)
    ensures 0 <= a * w <= 255 * w
  {
    assert (255 - a) * w >= 0;
  }

  function Composite(a: Image, b: Image, mask: Grid<Byte>): (out: Image)
    requires SameShape(a, b) && SameShape(a, mask)
    ensures SameShape(out, a)
  {
    seq(|a|, r requires 0 <= r < |a| =>
      seq(|a[r]|, c requires 0 <= c < |a[r]| =>
        var p, q, m := a[r][c], b[r][c], mask[r][c];
        Pixel(Blend(p.red, q.red, m), Blend(p.green, q.green, m), Blend(p.blue, q.blue, m))))
  }

  /** The fragment of `img` for `region`: its bbox cropped out of the image and
      composited over a black rectangle of the same size through the region's
      mask (`overlap_part` / `non_overlap_part`). */
  function Fragment(img: Image, labels: Labels, region: Region): (f: Image)
    requires Rectangular(labels) && FitsIn(region.bbox, |labels|, Width(labels))
    ensures IsGrid(f, region.bbox.maxr - region.bbox.minr, region.bbox.maxc - region.bbox.minc)
  {
    var b := region.bbox;
    var h, w := b.maxr - b.minr, b.maxc - b.minc;
    Composite(Crop(img, b), Blank(h, w), RegionMask(labels, region))
  }

  /** A fragment is as large as its region's bbox, and its pixel (r, c) is the
      image's pixel (minr + r, minc + c) where that position carries the
      region's label, and black everywhere else. */
  lemma FragmentPixels(img: Image, labels: Labels, region: Region)
    requires Rectangular(labels) && FitsIn(region.bbox, |labels|, Width(labels))
    requires IsGrid(img, |labels|, Width(labels))
    ensures var b := region.bbox;
      var f := Fragment(img, labels, region);
      && IsGrid(f, b.maxr - b.minr, b.maxc - b.minc)
      && forall r, c :: 0 <= r < b.maxr - b.minr && 0 <= c < b.maxc - b.minc ==>
           f[r][c] == if labels[b.minr + r][b.minc + c] == region.labelId
                      then img[b.minr + r][b.minc + c] else Black
  {
    var b := region.bbox;
    var h, w := b.maxr - b.minr, b.maxc - b.minc;
    var crop, blank, mask := Crop(img, b), Blank(h, w), RegionMask(labels, region);
    var f := Fragment(img, labels, region);
    forall r, c | 0 <= r < h && 0 <= c < w
      ensures f[r][c] == if labels[b.minr + r][b.minc + c] == region.labelId
                         then img[b.minr + r][b.minc + c] else Black
    {
      FragmentPixelAt(img, labels, region, b.minr + r, b.minc + c);
    }
  }

  /** The fragment's pixel for image position (r, c) inside the bbox: the
      image's pixel where the position carries the region's label, black
      elsewhere. */
  lemma FragmentPixelAt(img: Image, labels: Labels, region: Region, r: int, c: int)
    requires Rectangular(labels) && FitsIn(region.bbox, |labels|, Width(labels))
    requires IsGrid(img, |labels|, Width(labels))
    requires Inside(region.bbox, r, c)
    ensures InGrid(labels, r, c) && InGrid(img, r, c)
    ensures InGrid(Fragment(img, labels, region), r - region.bbox.minr, c - region.bbox.minc)
    ensures Fragment(img, labels, region)[r - region.bbox.minr][c - region.bbox.minc]
      == if labels[r][c] == region.labelId then img[r][c] else Black
  {
    var b := region.bbox;
    var h, w := b.maxr - b.minr, b.maxc - b.minc;
    var fr, fc := r - b.minr, c - b.minc;
    var crop, blank, mask := Crop(img, b), Blank(h, w), RegionMask(labels, region);
    assert Fragment(img, labels, region) == Composite(crop, blank, mask);
    assert InGrid(img, r, c) && InGrid(labels, r, c);
    assert crop[fr][fc] == img[r][c];
    assert blank[fr][fc] == Black;
    var p, m := crop[fr][fc], mask[fr][fc];
    assert Composite(crop, blank, mask)[fr][fc] == Pixel(Blend(p.red, 0, m), Blend(p.green, 0, m), Blend(p.blue, 0, m));
    assert m == if labels[r][c] == region.labelId then 255 else 0;
  }
}
