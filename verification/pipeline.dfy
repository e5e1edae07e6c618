/** `find_and_save_regions`: the overlap pass over the regions of the
    overlap mask, then the non-overlap pass over every image, both feeding
    one shared catalog. */
module Pipeline {
  import opened Grids
  import opened Regions
  import opened FileNames
  import opened Catalog

  /** The label array has the batch's dimensions. */
  predicate LabelsMatch(images: seq<Image>, labels: Labels) {
    Rectangular(labels) && |labels| == BatchHeight(images) && Width(labels) == BatchWidth(images)
  }

  predicate RegionsFit(labels: Labels, regions: seq<Region>) {
    forall i :: 0 <= i < |regions| ==> FitsIn(regions[i].bbox, |labels|, Width(labels))
  }

  /** The regions at positions `pos` on that pass the area filter, in their
      original order. */
  function KeptFrom(regions: seq<Region>, pos: nat): (kept: seq<Region>)
    requires pos <= |regions|
    ensures |kept| <= |regions| - pos
    ensures forall i :: 0 <= i < |kept| ==> Kept(kept[i])
    decreases |regions| - pos
  {
    if pos == |regions| then []
    else (if Kept(regions[pos]) then [regions[pos]] else []) + KeptFrom(regions, pos + 1)
  }

  /** The regions that pass the area filter, in their original order. */
  function KeptRegions(regions: seq<Region>): seq<Region> {
    KeptFrom(regions, 0)
  }

  /** A prefix of a prefix is a prefix, and the records past the shorter one
      keep their places. */
  lemma PrefixThrough(a: seq<FragmentRecord>, b: seq<FragmentRecord>, c: seq<FragmentRecord>)
    requires |a| <= |b| <= |c| && b[..|a|] == a && c[..|b|] == b
    ensures c[..|a|] == a
    ensures forall t :: 0 <= t < |b| ==> c[t] == b[t]
  {
    assert c[..|b|][..|a|] == a;
    forall t | 0 <= t < |b|
      ensures c[t] == b[t]
    {
      assert c[..|b|][t] == b[t];
    }
  }

  /** Cut out `region` of `img` and place the fragment under `key`. */
  function PlaceRegion(similar: Similarity, dir: string, img: Image, labels: Labels, region: Region,
                       key: FileKey, st: RunState): (st': RunState)
    requires Rectangular(labels) && FitsIn(region.bbox, |labels|, Width(labels))
    requires Backed(st.catalog, st.store)
    ensures Backed(st'.catalog, st'.store)
    ensures |st'.records| == |st.records| + 1 && st'.records[..|st.records|] == st.records
    ensures RecordKey(st'.records[|st.records|]) == key && st'.records[|st.records|].bbox == region.bbox
  {
    Place(similar, dir, st, Fragment(img, labels, region), key, region.bbox)
  }

  // ---------------------------------------------------------------------------
  // The overlap pass

  /** From position `from` on, `records` are overlap records of region id
      `id` with bbox `bbox`, for the images after image `m` in order. */
  predicate ImageRun(records: seq<FragmentRecord>, from: nat, m: nat, id: nat, bbox: BBox) {
    forall t :: from <= t < |records| ==>
      && records[t].kind == Overlap && records[t].imageIndex == m + 1 + (t - from)
      && records[t].regionId == id && records[t].bbox == bbox
  }

  lemma ImageRunCons(records: seq<FragmentRecord>, from: nat, m: nat, id: nat, bbox: BBox)
    requires from < |records| && ImageRun(records, from + 1, m + 1, id, bbox)
    requires RecordKey(records[from]) == FileKey(Overlap, m + 1, id) && records[from].bbox == bbox
    ensures ImageRun(records, from, m, id, bbox)
  {
  }

  /** `for img_index, img in enumerate(images)` for one kept overlap region
      with region id `id`, from image `m` on. */
  function OverlapImages(similar: Similarity, dir: string, images: seq<Image>, labels: Labels,
                         region: Region, id: nat, m: nat, st: RunState): (st': RunState)
    requires SameSize(images) && LabelsMatch(images, labels)
    requires FitsIn(region.bbox, |labels|, Width(labels))
    requires m <= |images| && Backed(st.catalog, st.store)
    ensures Backed(st'.catalog, st'.store)
    ensures |st'.records| == |st.records| + (|images| - m)
    ensures st'.records[..|st.records|] == st.records
    ensures ImageRun(st'.records, |st.records|, m, id, region.bbox)
    decreases |images| - m
  {
    if m == |images| then st
    else
      var st1 := PlaceRegion(similar, dir, images[m], labels, region, FileKey(Overlap, m + 1, id), st);
      var st' := OverlapImages(similar, dir, images, labels, region, id, m + 1, st1);
      var n := |st.records|;
      PrefixThrough(st.records, st1.records, st'.records);
      ImageRunCons(st'.records, n, m, id, region.bbox);
      st'
  }

  /** The overlap record `rec` belongs to a kept region at a position after
      `pos`: its region id is that position plus one, its bbox the region's,
      and its image index one of the batch's. */
  predicate OverlapRecordOk(n: nat, regions: seq<Region>, pos: nat, rec: FragmentRecord) {
    && rec.kind == Overlap
    && 1 <= rec.imageIndex <= n
    && pos < rec.regionId <= |regions|
    && Kept(regions[rec.regionId - 1])
    && rec.bbox == regions[rec.regionId - 1].bbox
  }

  /** From position `from` on, every record is an overlap record of a kept
      region after position `pos`. */
  predicate OverlapRecords(records: seq<FragmentRecord>, from: nat, n: nat, regions: seq<Region>, pos: nat) {
    forall t :: from <= t < |records| ==> OverlapRecordOk(n, regions, pos, records[t])
  }

  /** The records of the region at position `pos` followed by those of the
      regions after it are all records of regions from `pos` on. */
  lemma OverlapRecordsStep(r1: seq<FragmentRecord>, r2: seq<FragmentRecord>, from: nat, n: nat,
                           regions: seq<Region>, pos: nat)
    requires pos < |regions| && from <= |r1| <= |r2| && r2[..|r1|] == r1
    requires Kept(regions[pos]) ==> |r1| == from + n && ImageRun(r1, from, 0, pos + 1, regions[pos].bbox)
    requires !Kept(regions[pos]) ==> |r1| == from
    requires OverlapRecords(r2, |r1|, n, regions, pos + 1)
    ensures OverlapRecords(r2, from, n, regions, pos)
  {
    forall t | from <= t < |r2|
      ensures OverlapRecordOk(n, regions, pos, r2[t])
    {
      if t < |r1| {
        assert r2[t] == r2[..|r1|][t];
      }
    }
  }

  /** `for i, region in enumerate(regions, start=1)` from position `pos` on:
      the region id is the 1-based position among all regions, filtered ones
      included. */
  function OverlapPass(similar: Similarity, dir: string, images: seq<Image>, labels: Labels,
                       regions: seq<Region>, pos: nat, st: RunState): (st': RunState)
    requires SameSize(images) && LabelsMatch(images, labels) && RegionsFit(labels, regions)
    requires pos <= |regions| && Backed(st.catalog, st.store)
    ensures Backed(st'.catalog, st'.store)
    ensures |st'.records| >= |st.records| && st'.records[..|st.records|] == st.records
    ensures OverlapRecords(st'.records, |st.records|, |images|, regions, pos)
    decreases |regions| - pos
  {
    if pos == |regions| then st
    else
      var region := regions[pos];
      var st1 := if Kept(region)
        then OverlapImages(similar, dir, images, labels, region, pos + 1, 0, st)
        else st;
      var st' := OverlapPass(similar, dir, images, labels, regions, pos + 1, st1);
      PrefixThrough(st.records, st1.records, st'.records);
      OverlapRecordsStep(st1.records, st'.records, |st.records|, |images|, regions, pos);
      st'
  }

  // ---------------------------------------------------------------------------
  // The non-overlap pass

  /** From position `from` on, `records` are non-overlap records of image
      `ix`, one per region of `kept` in order, numbered on from `counter`
      without gaps. */
  predicate NumberedRun(records: seq<FragmentRecord>, from: nat, ix: nat, counter: nat, kept: seq<Region>) {
    forall t :: from <= t < |records| ==>
      && t - from < |kept|
      && records[t].kind == NonOverlap && records[t].imageIndex == ix
      && records[t].regionId == counter + (t - from)
      && records[t].bbox == kept[t - from].bbox
  }

  lemma NumberedRunCons(records: seq<FragmentRecord>, from: nat, ix: nat, counter: nat,
                        region: Region, kept: seq<Region>)
    requires from < |records| && NumberedRun(records, from + 1, ix, counter + 1, kept)
    requires RecordKey(records[from]) == FileKey(NonOverlap, ix, counter)
    requires records[from].bbox == region.bbox
    ensures NumberedRun(records, from, ix, counter, [region] + kept)
  {
  }

  /** `for region in regions` for one image with 1-based index `ix`, from
      position `pos` on, `counter` being `region_counter`: it moves on only
      for regions that pass the area filter. */
  function NonOverlapRegions(similar: Similarity, dir: string, img: Image, ix: nat, labels: Labels,
                             regions: seq<Region>, pos: nat, counter: nat, st: RunState): (st': RunState)
    requires Rectangular(labels) && RegionsFit(labels, regions)
    requires pos <= |regions| && Backed(st.catalog, st.store)
    ensures Backed(st'.catalog, st'.store)
    ensures |st'.records| == |st.records| + |KeptFrom(regions, pos)|
    ensures st'.records[..|st.records|] == st.records
    ensures NumberedRun(st'.records, |st.records|, ix, counter, KeptFrom(regions, pos))
    decreases |regions| - pos
  {
    if pos == |regions| then st
    else
      var region := regions[pos];
      if Kept(region) then
        var st1 := PlaceRegion(similar, dir, img, labels, region, FileKey(NonOverlap, ix, counter), st);
        var st' := NonOverlapRegions(similar, dir, img, ix, labels, regions, pos + 1, counter + 1, st1);
        var n := |st.records|;
        PrefixThrough(st.records, st1.records, st'.records);
        NumberedRunCons(st'.records, n, ix, counter, region, KeptFrom(regions, pos + 1));
        st'
      else
        NonOverlapRegions(similar, dir, img, ix, labels, regions, pos + 1, counter, st)
  }

  /** The non-overlap record `rec` is the `regionId`-th kept region's record
      for an image of the batch, with that region's bbox. */
  predicate NonOverlapRecordOk(n: nat, kept: seq<Region>, rec: FragmentRecord) {
    && rec.kind == NonOverlap
    && 1 <= rec.imageIndex <= n
    && 1 <= rec.regionId <= |kept|
    && rec.bbox == kept[rec.regionId - 1].bbox
  }

  /** From position `from` on, every record is a non-overlap record of a
      kept region for an image after image `m`. */
  predicate NonOverlapRecords(records: seq<FragmentRecord>, from: nat, n: nat, kept: seq<Region>, m: nat) {
    forall t :: from <= t < |records| ==> NonOverlapRecordOk(n, kept, records[t]) && records[t].imageIndex > m
  }

  /** One image's numbered records followed by those of the images after it
      are all records of images after the one before it. */
  lemma NonOverlapRecordsStep(r1: seq<FragmentRecord>, r2: seq<FragmentRecord>, from: nat, n: nat,
                              kept: seq<Region>, m: nat)
    requires m < n && from <= |r1| <= |r2| && r2[..|r1|] == r1
    requires NumberedRun(r1, from, m + 1, 1, kept)
    requires NonOverlapRecords(r2, |r1|, n, kept, m + 1)
    ensures NonOverlapRecords(r2, from, n, kept, m)
  {
    forall t | from <= t < |r2|
      ensures NonOverlapRecordOk(n, kept, r2[t]) && r2[t].imageIndex > m
    {
      if t < |r1| {
        assert r2[t] == r2[..|r1|][t];
      }
    }
  }

  /** `for img_index, img in enumerate(images)` of the non-overlap pass, from
      image `m` on. The label array does not depend on the image, so every
      image sees the same region list. */
  function NonOverlapPass(similar: Similarity, dir: string, images: seq<Image>, labels: Labels,
                          regions: seq<Region>, m: nat, st: RunState): (st': RunState)
    requires SameSize(images) && LabelsMatch(images, labels) && RegionsFit(labels, regions)
    requires m <= |images| && Backed(st.catalog, st.store)
    ensures Backed(st'.catalog, st'.store)
    ensures |st'.records| >= |st.records| && st'.records[..|st.records|] == st.records
    decreases |images| - m
  {
    if m == |images| then st
    else
      var st1 := NonOverlapRegions(similar, dir, images[m], m + 1, labels, regions, 0, 1, st);
      var st' := NonOverlapPass(similar, dir, images, labels, regions, m + 1, st1);
      PrefixThrough(st.records, st1.records, st'.records);
      st'
  }

  /** Every record the non-overlap pass adds from image `m` on is a
      non-overlap record of a kept region for an image after image `m`. */
  lemma {:induction false} NonOverlapPassRecords(similar: Similarity, dir: string, images: seq<Image>,
                                                 labels: Labels, regions: seq<Region>, m: nat, st: RunState)
    requires SameSize(images) && LabelsMatch(images, labels) && RegionsFit(labels, regions)
    requires m <= |images| && Backed(st.catalog, st.store)
    ensures NonOverlapRecords(NonOverlapPass(similar, dir, images, labels, regions, m, st).records,
                              |st.records|, |images|, KeptRegions(regions), m)
    decreases |images| - m
  {
    if m < |images| {
      var st1 := NonOverlapRegions(similar, dir, images[m], m + 1, labels, regions, 0, 1, st);
      NonOverlapPassRecords(similar, dir, images, labels, regions, m + 1, st1);
      var st' := NonOverlapPass(similar, dir, images, labels, regions, m + 1, st1);
      assert st' == NonOverlapPass(similar, dir, images, labels, regions, m, st);
      NonOverlapRecordsStep(st1.records, st'.records, |st.records|, |images|, KeptRegions(regions), m);
    }
  }

  // ---------------------------------------------------------------------------
  // The whole extraction

  /** A label array of a mask of the batch's dimensions has them too. */
  lemma LabelingMatches(images: seq<Image>, mask: Grid<Byte>, labels: Labels)
    requires IsGrid(mask, BatchHeight(images), BatchWidth(images))
    requires IsLabeling(mask, labels)
    requires SameSize(images)
    ensures LabelsMatch(images, labels)
  {
  }

  lemma RegionPropsFit(labels: Labels)
    requires Rectangular(labels)
    ensures RegionsFit(labels, RegionProps(labels))
  {
  }

  /** Both passes on a batch whose two label arrays have its dimensions:
      every record is an overlap record of a kept overlap region or a
      non-overlap record of a kept difference region. */
  function ExtractRegions(similar: Similarity, dir: string, images: seq<Image>,
                          overlapLabels: Labels, diffLabels: Labels): (st: RunState)
    requires SameSize(images) && LabelsMatch(images, overlapLabels) && LabelsMatch(images, diffLabels)
    ensures Backed(st.catalog, st.store)
    ensures forall t :: 0 <= t < |st.records| ==>
      OverlapRecordOk(|images|, RegionProps(overlapLabels), 0, st.records[t])
      || NonOverlapRecordOk(|images|, KeptRegions(RegionProps(diffLabels)), st.records[t])
  {
    var overlapRegions := RegionProps(overlapLabels);
    var diffRegions := RegionProps(diffLabels);
    RegionPropsFit(overlapLabels);
    RegionPropsFit(diffLabels);
    var st1 := OverlapPass(similar, dir, images, overlapLabels, overlapRegions, 0, EmptyRun);
    var st2 := NonOverlapPass(similar, dir, images, diffLabels, diffRegions, 0, st1);
    NonOverlapPassRecords(similar, dir, images, diffLabels, diffRegions, 0, st1);
    assert forall t :: 0 <= t < |st1.records| ==> st2.records[t] == st1.records[t] by {
      assert st2.records[..|st1.records|] == st1.records;
    }
    st2
  }
}
