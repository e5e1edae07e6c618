/** `find_and_save_regions` as a whole: the masks, then both region passes,
    with what a successful run records and saves. */
module FindAndSave {
  import opened Wrappers
  import opened Grids
  import opened DiffAccumulator
  import opened Regions
  import opened FileNames
  import opened Catalog
  import opened Pipeline
  import opened ExtractionProperties

  /** `find_and_save_regions` on decoded images, with the two label arrays
      `label` returns for the overlap mask and for `binary_diff`. It fails
      exactly when there are fewer than two images (`diff_accumulated` stays
      `None`). A successful run records every expected (kind, image, region)
      key exactly once and nothing else, in the order the loops visit them,
      saves its files under distinct names, and points every record at a
      saved file. */
  function FindAndSaveRegions(similar: Similarity, dir: string, images: seq<Image>,
                              overlapLabels: Labels, diffLabels: Labels): (res: Result<RunState, DiffError>)
    requires SameSize(images)
    requires |images| >= 2 ==>
      && IsLabeling(ComputeMasks(images).value.overlap, overlapLabels)
      && IsLabeling(ComputeMasks(images).value.binaryDiff, diffLabels)
    ensures res.Failure? <==> |images| < 2
    ensures res.Success? ==> LabelsMatch(images, overlapLabels) && LabelsMatch(images, diffLabels)
    ensures res.Success? ==>
      OneRecordPerKey(res.value.records, |images|, RegionProps(overlapLabels), KeptRegions(RegionProps(diffLabels)))
    ensures res.Success? ==> RunInvariant(dir, res.value, FileKey(NonOverlap, |images| + 1, 1))
  {
    match ComputeMasks(images)
    case Failure(e) => Failure(e)
    case Success(masks) =>
      LabelingMatches(images, masks.overlap, overlapLabels);
      LabelingMatches(images, masks.binaryDiff, diffLabels);
      ExtractRegionsExact(similar, dir, images, overlapLabels, diffLabels);
      ExtractRegionsInvariant(similar, dir, images, overlapLabels, diffLabels);
      Success(ExtractRegions(similar, dir, images, overlapLabels, diffLabels))
  }

  /** A batch of identical images has no difference pixel, so the run
      records overlap fragments only. */
  lemma IdenticalBatchOverlapOnly(similar: Similarity, dir: string, images: seq<Image>,
                                  overlapLabels: Labels, diffLabels: Labels)
    requires SameSize(images) && |images| >= 2
    requires IsLabeling(ComputeMasks(images).value.overlap, overlapLabels)
    requires IsLabeling(ComputeMasks(images).value.binaryDiff, diffLabels)
    requires forall k :: 0 <= k < |images| ==> images[k] == images[0]
    ensures FindAndSaveRegions(similar, dir, images, overlapLabels, diffLabels).Success?
    ensures forall t :: 0 <= t < |FindAndSaveRegions(similar, dir, images, overlapLabels, diffLabels).value.records| ==>
      FindAndSaveRegions(similar, dir, images, overlapLabels, diffLabels).value.records[t].kind == Overlap
  {
    var masks := ComputeMasks(images).value;
    LabelingMatches(images, masks.overlap, overlapLabels);
    LabelingMatches(images, masks.binaryDiff, diffLabels);
    forall r, c | InGrid(masks.binaryDiff, r, c)
      ensures masks.binaryDiff[r][c] == 0
    {
      OverlapMaskMeaning(images, r, c);
    }
    BackgroundHasNoRegions(masks.binaryDiff, diffLabels);
    assert KeptRegions(RegionProps(diffLabels)) == [];
    var st := ExtractRegions(similar, dir, images, overlapLabels, diffLabels);
    assert FindAndSaveRegions(similar, dir, images, overlapLabels, diffLabels) == Success(st);
  }
}
