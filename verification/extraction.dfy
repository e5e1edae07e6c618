/** What one whole run of `find_and_save_regions` guarantees: every expected
    (kind, image, region) key gets exactly one record, the keys come in the
    order the loops visit them, catalog names are distinct, and every
    record points at a saved file. */
module ExtractionProperties {
  import opened Grids
  import opened Regions
  import opened FileNames
  import opened Catalog
  import opened Pipeline

  // ---------------------------------------------------------------------------
  // The run invariant along both passes

  lemma PlaceRegionKeepsInvariant(similar: Similarity, dir: string, img: Image, labels: Labels,
                                  region: Region, key: FileKey, st: RunState)
    requires Rectangular(labels) && FitsIn(region.bbox, |labels|, Width(labels))
    requires RunInvariant(dir, st, key)
    ensures RunInvariant(dir, PlaceRegion(similar, dir, img, labels, region, key, st), Succ(key))
  {
    PlaceKeepsInvariant(similar, dir, st, Fragment(img, labels, region), key, region.bbox);
  }

  lemma {:induction false} OverlapImagesInvariant(similar: Similarity, dir: string, images: seq<Image>,
                                                  labels: Labels, region: Region, id: nat, m: nat, st: RunState)
    requires SameSize(images) && LabelsMatch(images, labels)
    requires FitsIn(region.bbox, |labels|, Width(labels))
    requires m <= |images| && RunInvariant(dir, st, FileKey(Overlap, m + 1, id))
    ensures RunInvariant(dir, OverlapImages(similar, dir, images, labels, region, id, m, st),
                         FileKey(Overlap, 1, id + 1))
    decreases |images| - m
  {
    if m == |images| {
      InvariantWeakens(dir, st, FileKey(Overlap, m + 1, id), FileKey(Overlap, 1, id + 1));
    } else {
      var key := FileKey(Overlap, m + 1, id);
      PlaceRegionKeepsInvariant(similar, dir, images[m], labels, region, key, st);
      var st1 := PlaceRegion(similar, dir, images[m], labels, region, key, st);
      OverlapImagesInvariant(similar, dir, images, labels, region, id, m + 1, st1);
    }
  }

  lemma {:induction false} OverlapPassInvariant(similar: Similarity, dir: string, images: seq<Image>,
                                                labels: Labels, regions: seq<Region>, pos: nat, st: RunState)
    requires SameSize(images) && LabelsMatch(images, labels) && RegionsFit(labels, regions)
    requires pos <= |regions| && RunInvariant(dir, st, FileKey(Overlap, 1, pos + 1))
    ensures RunInvariant(dir, OverlapPass(similar, dir, images, labels, regions, pos, st),
                         FileKey(Overlap, 1, |regions| + 1))
    decreases |regions| - pos, 1
  {
    if pos < |regions| {
      if Kept(regions[pos]) {
        OverlapPassKeptInvariant(similar, dir, images, labels, regions, pos, st);
      } else {
        assert OverlapPass(similar, dir, images, labels, regions, pos, st)
            == OverlapPass(similar, dir, images, labels, regions, pos + 1, st);
        InvariantWeakens(dir, st, FileKey(Overlap, 1, pos + 1), FileKey(Overlap, 1, pos + 2));
        OverlapPassInvariant(similar, dir, images, labels, regions, pos + 1, st);
      }
    }
  }

  lemma {:induction false} OverlapPassKeptInvariant(similar: Similarity, dir: string, images: seq<Image>,
                                                    labels: Labels, regions: seq<Region>, pos: nat, st: RunState)
    requires SameSize(images) && LabelsMatch(images, labels) && RegionsFit(labels, regions)
    requires pos < |regions| && Kept(regions[pos])
    requires RunInvariant(dir, st, FileKey(Overlap, 1, pos + 1))
    ensures RunInvariant(dir, OverlapPass(similar, dir, images, labels, regions, pos, st),
                         FileKey(Overlap, 1, |regions| + 1))
    decreases |regions| - pos, 0
  {
    var region := regions[pos];
    OverlapImagesInvariant(similar, dir, images, labels, region, pos + 1, 0, st);
    var st1 := OverlapImages(similar, dir, images, labels, region, pos + 1, 0, st);
    assert OverlapPass(similar, dir, images, labels, regions, pos, st)
        == OverlapPass(similar, dir, images, labels, regions, pos + 1, st1);
    OverlapPassInvariant(similar, dir, images, labels, regions, pos + 1, st1);
  }

  lemma {:induction false} NonOverlapRegionsInvariant(similar: Similarity, dir: string, img: Image, ix: nat,
                                                      labels: Labels, regions: seq<Region>, pos: nat,
                                                      counter: nat, st: RunState)
    requires Rectangular(labels) && RegionsFit(labels, regions)
    requires pos <= |regions| && RunInvariant(dir, st, FileKey(NonOverlap, ix, counter))
    ensures RunInvariant(dir, NonOverlapRegions(similar, dir, img, ix, labels, regions, pos, counter, st),
                         FileKey(NonOverlap, ix + 1, 1))
    decreases |regions| - pos
  {
    if pos == |regions| {
      InvariantWeakens(dir, st, FileKey(NonOverlap, ix, counter), FileKey(NonOverlap, ix + 1, 1));
    } else if Kept(regions[pos]) {
      var key := FileKey(NonOverlap, ix, counter);
      PlaceRegionKeepsInvariant(similar, dir, img, labels, regions[pos], key, st);
      var st1 := PlaceRegion(similar, dir, img, labels, regions[pos], key, st);
      NonOverlapRegionsInvariant(similar, dir, img, ix, labels, regions, pos + 1, counter + 1, st1);
    } else {
      NonOverlapRegionsInvariant(similar, dir, img, ix, labels, regions, pos + 1, counter, st);
    }
  }

  lemma {:induction false} NonOverlapPassInvariant(similar: Similarity, dir: string, images: seq<Image>,
                                                   labels: Labels, regions: seq<Region>, m: nat, st: RunState)
    requires SameSize(images) && LabelsMatch(images, labels) && RegionsFit(labels, regions)
    requires m <= |images| && RunInvariant(dir, st, FileKey(NonOverlap, m + 1, 1))
    ensures RunInvariant(dir, NonOverlapPass(similar, dir, images, labels, regions, m, st),
                         FileKey(NonOverlap, |images| + 1, 1))
    decreases |images| - m, 1
  {
    if m < |images| {
      NonOverlapImageInvariant(similar, dir, images, labels, regions, m, st);
    } else {
      assert NonOverlapPass(similar, dir, images, labels, regions, m, st) == st;
    }
  }

  lemma {:induction false} NonOverlapImageInvariant(similar: Similarity, dir: string, images: seq<Image>,
                                                    labels: Labels, regions: seq<Region>, m: nat, st: RunState)
    requires SameSize(images) && LabelsMatch(images, labels) && RegionsFit(labels, regions)
    requires m < |images| && RunInvariant(dir, st, FileKey(NonOverlap, m + 1, 1))
    ensures RunInvariant(dir, NonOverlapPass(similar, dir, images, labels, regions, m, st),
                         FileKey(NonOverlap, |images| + 1, 1))
    decreases |images| - m, 0
  {
    NonOverlapRegionsInvariant(similar, dir, images[m], m + 1, labels, regions, 0, 1, st);
    var st1 := NonOverlapRegions(similar, dir, images[m], m + 1, labels, regions, 0, 1, st);
    NonOverlapPassInvariant(similar, dir, images, labels, regions, m + 1, st1);
  }

  /** A whole run ends with the invariant towards the key after the last
      non-overlap key. */
  lemma ExtractRegionsInvariant(similar: Similarity, dir: string, images: seq<Image>,
                                overlapLabels: Labels, diffLabels: Labels)
    requires SameSize(images) && LabelsMatch(images, overlapLabels) && LabelsMatch(images, diffLabels)
    ensures RunInvariant(dir, ExtractRegions(similar, dir, images, overlapLabels, diffLabels),
                         FileKey(NonOverlap, |images| + 1, 1))
  {
    var overlapRegions := RegionProps(overlapLabels);
    var diffRegions := RegionProps(diffLabels);
    RegionPropsFit(overlapLabels);
    RegionPropsFit(diffLabels);
    EmptyRunInvariant(dir, FileKey(Overlap, 1, 1));
    OverlapPassInvariant(similar, dir, images, overlapLabels, overlapRegions, 0, EmptyRun);
    var st1 := OverlapPass(similar, dir, images, overlapLabels, overlapRegions, 0, EmptyRun);
    InvariantWeakens(dir, st1, FileKey(Overlap, 1, |overlapRegions| + 1), FileKey(NonOverlap, 1, 1));
    NonOverlapPassInvariant(similar, dir, images, diffLabels, diffRegions, 0, st1);
  }

  // ---------------------------------------------------------------------------
  // Every expected key gets a record

  /** Some record carries `key`. */
  ghost predicate HasKey(records: seq<FragmentRecord>, key: FileKey) {
    exists t :: 0 <= t < |records| && RecordKey(records[t]) == key
  }

  /** A key recorded once stays recorded as records are added. */
  lemma HasKeyExtends(a: seq<FragmentRecord>, b: seq<FragmentRecord>, key: FileKey)
    requires |a| <= |b| && b[..|a|] == a && HasKey(a, key)
    ensures HasKey(b, key)
  {
    var t :| 0 <= t < |a| && RecordKey(a[t]) == key;
    assert b[t] == b[..|a|][t];
  }

  /** One kept overlap region gets a record for every image from image `m` on. */
  lemma OverlapImagesCovers(similar: Similarity, dir: string, images: seq<Image>, labels: Labels,
                            region: Region, id: nat, m: nat, st: RunState)
    requires SameSize(images) && LabelsMatch(images, labels)
    requires FitsIn(region.bbox, |labels|, Width(labels))
    requires m <= |images| && Backed(st.catalog, st.store)
    ensures forall j :: m < j <= |images| ==>
      HasKey(OverlapImages(similar, dir, images, labels, region, id, m, st).records, FileKey(Overlap, j, id))
  {
    var st' := OverlapImages(similar, dir, images, labels, region, id, m, st);
    forall j | m < j <= |images|
      ensures HasKey(st'.records, FileKey(Overlap, j, id))
    {
      var t := |st.records| + (j - m - 1);
      assert RecordKey(st'.records[t]) == FileKey(Overlap, j, id);
    }
  }

  /** The overlap pass from position `pos` on gets a record for every kept
      region after `pos` and every image. */
  lemma {:induction false} OverlapPassCovers(similar: Similarity, dir: string, images: seq<Image>,
                                             labels: Labels, regions: seq<Region>, pos: nat, st: RunState)
    requires SameSize(images) && LabelsMatch(images, labels) && RegionsFit(labels, regions)
    requires pos <= |regions| && Backed(st.catalog, st.store)
    ensures forall id, j :: pos < id <= |regions| && Kept(regions[id - 1]) && 1 <= j <= |images| ==>
      HasKey(OverlapPass(similar, dir, images, labels, regions, pos, st).records, FileKey(Overlap, j, id))
    decreases |regions| - pos
  {
    if pos < |regions| {
      var region := regions[pos];
      var st1 := if Kept(region) then OverlapImages(similar, dir, images, labels, region, pos + 1, 0, st) else st;
      var st' := OverlapPass(similar, dir, images, labels, regions, pos + 1, st1);
      assert st' == OverlapPass(similar, dir, images, labels, regions, pos, st);
      OverlapPassCovers(similar, dir, images, labels, regions, pos + 1, st1);
      if Kept(region) {
        var id := pos + 1;
        OverlapImagesCovers(similar, dir, images, labels, region, id, 0, st);
        forall j | 1 <= j <= |images|
          ensures HasKey(st'.records, FileKey(Overlap, j, id))
        {
          HasKeyExtends(st1.records, st'.records, FileKey(Overlap, j, id));
        }
      }
    }
  }

  /** One image gets a record for every kept region from position `pos` on,
      numbered on from `counter`. */
  lemma NonOverlapRegionsCovers(similar: Similarity, dir: string, img: Image, ix: nat, labels: Labels,
                                regions: seq<Region>, pos: nat, counter: nat, st: RunState)
    requires Rectangular(labels) && RegionsFit(labels, regions)
    requires pos <= |regions| && Backed(st.catalog, st.store)
    ensures forall id :: counter <= id < counter + |KeptFrom(regions, pos)| ==>
      HasKey(NonOverlapRegions(similar, dir, img, ix, labels, regions, pos, counter, st).records,
             FileKey(NonOverlap, ix, id))
  {
    var st' := NonOverlapRegions(similar, dir, img, ix, labels, regions, pos, counter, st);
    forall id | counter <= id < counter + |KeptFrom(regions, pos)|
      ensures HasKey(st'.records, FileKey(NonOverlap, ix, id))
    {
      assert RecordKey(st'.records[|st.records| + (id - counter)]) == FileKey(NonOverlap, ix, id);
    }
  }

  /** The non-overlap pass from image `m` on gets a record for every later
      image and every kept difference region. */
  lemma {:induction false} NonOverlapPassCovers(similar: Similarity, dir: string, images: seq<Image>,
                                                labels: Labels, regions: seq<Region>, m: nat, st: RunState)
    requires SameSize(images) && LabelsMatch(images, labels) && RegionsFit(labels, regions)
    requires m <= |images| && Backed(st.catalog, st.store)
    ensures forall j, k :: m < j <= |images| && 1 <= k <= |KeptRegions(regions)| ==>
      HasKey(NonOverlapPass(similar, dir, images, labels, regions, m, st).records, FileKey(NonOverlap, j, k))
    decreases |images| - m
  {
    if m < |images| {
      var st1 := NonOverlapRegions(similar, dir, images[m], m + 1, labels, regions, 0, 1, st);
      var st' := NonOverlapPass(similar, dir, images, labels, regions, m + 1, st1);
      assert st' == NonOverlapPass(similar, dir, images, labels, regions, m, st);
      NonOverlapPassCovers(similar, dir, images, labels, regions, m + 1, st1);
      NonOverlapRegionsCovers(similar, dir, images[m], m + 1, labels, regions, 0, 1, st);
      var ix := m + 1;
      forall k | 1 <= k <= |KeptRegions(regions)|
        ensures HasKey(st'.records, FileKey(NonOverlap, ix, k))
      {
        HasKeyExtends(st1.records, st'.records, FileKey(NonOverlap, ix, k));
      }
    }
  }

  // ---------------------------------------------------------------------------
  // The whole run

  /** The keys a run over `n` images must record: every image with every
      kept overlap region, by its position among all overlap regions, and
      every image with every kept difference region, numbered 1, 2, ... */
  predicate ExpectedKey(n: nat, overlapRegions: seq<Region>, keptDiff: seq<Region>, key: FileKey) {
    && 1 <= key.imageIndex <= n && 1 <= key.regionId
    && if key.kind == Overlap then key.regionId <= |overlapRegions| && Kept(overlapRegions[key.regionId - 1])
       else key.regionId <= |keptDiff|
  }

  /** The records carry exactly the expected keys, each key once. */
  ghost predicate OneRecordPerKey(records: seq<FragmentRecord>, n: nat, overlapRegions: seq<Region>, keptDiff: seq<Region>) {
    && (forall key :: HasKey(records, key) <==> ExpectedKey(n, overlapRegions, keptDiff, key))
    && (forall s, t :: 0 <= s < t < |records| ==> RecordKey(records[s]) != RecordKey(records[t]))
  }

  /** A whole run records every expected key exactly once and nothing else. */
  lemma ExtractRegionsExact(similar: Similarity, dir: string, images: seq<Image>,
                            overlapLabels: Labels, diffLabels: Labels)
    requires SameSize(images) && LabelsMatch(images, overlapLabels) && LabelsMatch(images, diffLabels)
    ensures OneRecordPerKey(ExtractRegions(similar, dir, images, overlapLabels, diffLabels).records,
                            |images|, RegionProps(overlapLabels), KeptRegions(RegionProps(diffLabels)))
  {
    var records := ExtractRegions(similar, dir, images, overlapLabels, diffLabels).records;
    ExtractKeysCovered(similar, dir, images, overlapLabels, diffLabels);
    ExtractKeysExpected(similar, dir, images, overlapLabels, diffLabels);
    ExtractRegionsInvariant(similar, dir, images, overlapLabels, diffLabels);
    forall s, t | 0 <= s < t < |records|
      ensures RecordKey(records[s]) != RecordKey(records[t])
    {
      assert KeyLess(RecordKey(records[s]), RecordKey(records[t]));
    }
  }

  /** Every expected key is recorded by a whole run. */
  lemma ExtractKeysCovered(similar: Similarity, dir: string, images: seq<Image>,
                           overlapLabels: Labels, diffLabels: Labels)
    requires SameSize(images) && LabelsMatch(images, overlapLabels) && LabelsMatch(images, diffLabels)
    ensures forall key :: ExpectedKey(|images|, RegionProps(overlapLabels), KeptRegions(RegionProps(diffLabels)), key) ==>
      HasKey(ExtractRegions(similar, dir, images, overlapLabels, diffLabels).records, key)
  {
    forall key | ExpectedKey(|images|, RegionProps(overlapLabels), KeptRegions(RegionProps(diffLabels)), key)
      ensures HasKey(ExtractRegions(similar, dir, images, overlapLabels, diffLabels).records, key)
    {
      ExpectedKeyCovered(similar, dir, images, overlapLabels, diffLabels, key);
    }
  }

  /** A whole run records one expected key. */
  lemma ExpectedKeyCovered(similar: Similarity, dir: string, images: seq<Image>,
                           overlapLabels: Labels, diffLabels: Labels, key: FileKey)
    requires SameSize(images) && LabelsMatch(images, overlapLabels) && LabelsMatch(images, diffLabels)
    requires ExpectedKey(|images|, RegionProps(overlapLabels), KeptRegions(RegionProps(diffLabels)), key)
    ensures HasKey(ExtractRegions(similar, dir, images, overlapLabels, diffLabels).records, key)
  {
    if key.kind == Overlap {
      OverlapKeyCovered(similar, dir, images, overlapLabels, diffLabels, key);
    } else {
      NonOverlapKeyCovered(similar, dir, images, overlapLabels, diffLabels, key);
    }
  }

  /** A whole run records every expected overlap key: one image with one kept overlap region. */
  lemma OverlapKeyCovered(similar: Similarity, dir: string, images: seq<Image>,
                          overlapLabels: Labels, diffLabels: Labels, key: FileKey)
    requires SameSize(images) && LabelsMatch(images, overlapLabels) && LabelsMatch(images, diffLabels)
    requires key.kind == Overlap && ExpectedKey(|images|, RegionProps(overlapLabels), KeptRegions(RegionProps(diffLabels)), key)
    ensures HasKey(ExtractRegions(similar, dir, images, overlapLabels, diffLabels).records, key)
  {
    var j, id := key.imageIndex, key.regionId;
    assert key == FileKey(Overlap, j, id);
    var overlapRegions := RegionProps(overlapLabels);
    var diffRegions := RegionProps(diffLabels);
    RegionPropsFit(overlapLabels);
    RegionPropsFit(diffLabels);
    var st1 := OverlapPass(similar, dir, images, overlapLabels, overlapRegions, 0, EmptyRun);
    var st := NonOverlapPass(similar, dir, images, diffLabels, diffRegions, 0, st1);
    assert st == ExtractRegions(similar, dir, images, overlapLabels, diffLabels);
    OverlapPassCovers(similar, dir, images, overlapLabels, overlapRegions, 0, EmptyRun);
    HasKeyExtends(st1.records, st.records, FileKey(Overlap, j, id));
  }

  /** A whole run records every expected non-overlap key: one image with one kept difference region. */
  lemma NonOverlapKeyCovered(similar: Similarity, dir: string, images: seq<Image>,
                             overlapLabels: Labels, diffLabels: Labels, key: FileKey)
    requires SameSize(images) && LabelsMatch(images, overlapLabels) && LabelsMatch(images, diffLabels)
    requires key.kind == NonOverlap && ExpectedKey(|images|, RegionProps(overlapLabels), KeptRegions(RegionProps(diffLabels)), key)
    ensures HasKey(ExtractRegions(similar, dir, images, overlapLabels, diffLabels).records, key)
  {
    var j, k := key.imageIndex, key.regionId;
    assert key == FileKey(NonOverlap, j, k);
    var overlapRegions := RegionProps(overlapLabels);
    var diffRegions := RegionProps(diffLabels);
    RegionPropsFit(overlapLabels);
    RegionPropsFit(diffLabels);
    var st1 := OverlapPass(similar, dir, images, overlapLabels, overlapRegions, 0, EmptyRun);
    var st := NonOverlapPass(similar, dir, images, diffLabels, diffRegions, 0, st1);
    NonOverlapPassCovers(similar, dir, images, diffLabels, diffRegions, 0, st1);
    assert HasKey(st.records, FileKey(NonOverlap, j, k));
    assert st == ExtractRegions(similar, dir, images, overlapLabels, diffLabels);
  }

  /** A whole run records expected keys only. */
  lemma ExtractKeysExpected(similar: Similarity, dir: string, images: seq<Image>,
                            overlapLabels: Labels, diffLabels: Labels)
    requires SameSize(images) && LabelsMatch(images, overlapLabels) && LabelsMatch(images, diffLabels)
    ensures forall key :: HasKey(ExtractRegions(similar, dir, images, overlapLabels, diffLabels).records, key) ==>
      ExpectedKey(|images|, RegionProps(overlapLabels), KeptRegions(RegionProps(diffLabels)), key)
  {
    var overlapRegions := RegionProps(overlapLabels);
    var keptDiff := KeptRegions(RegionProps(diffLabels));
    var records := ExtractRegions(similar, dir, images, overlapLabels, diffLabels).records;
    forall key | HasKey(records, key)
      ensures ExpectedKey(|images|, overlapRegions, keptDiff, key)
    {
      var t :| 0 <= t < |records| && RecordKey(records[t]) == key;
      RecordKeyExpected(|images|, overlapRegions, keptDiff, records[t]);
    }
  }

  /** The key of a record that passes either pass's check is expected. */
  lemma RecordKeyExpected(n: nat, overlapRegions: seq<Region>, keptDiff: seq<Region>, rec: FragmentRecord)
    requires OverlapRecordOk(n, overlapRegions, 0, rec) || NonOverlapRecordOk(n, keptDiff, rec)
    ensures ExpectedKey(n, overlapRegions, keptDiff, RecordKey(rec))
  {
  }
}
