/** How the fragments the extraction cuts meet on a reconstruction canvas:
    each one carries exactly its region's non-black pixels, so fragments of
    distinct regions of one label array, and an overlap fragment and a
    difference fragment, never both paint a position. */
module FragmentMarks {
  import opened Wrappers
  import opened Grids
  import opened DiffAccumulator
  import opened Regions
  import opened Reconstruction

  /** Pasted through its region at its bbox origin, the fragment of `region`
      paints exactly the pixels of the image that carry the region's label
      and are not black, each with the image's own pixel. */
  lemma FragmentMarksItsRegion(img: Image, labels: Labels, region: Region, r: int, c: int)
    requires Rectangular(labels) && FitsIn(region.bbox, |labels|, Width(labels))
    requires IsGrid(img, |labels|, Width(labels))
    ensures Mark(Masked, Fragment(img, labels, region), region.bbox.minr, region.bbox.minc, r, c)
      == if Inside(region.bbox, r, c) && labels[r][c] == region.labelId && img[r][c] != Black
         then Some(img[r][c]) else None
  {
    if Inside(region.bbox, r, c) {
      FragmentMarksInside(img, labels, region, r, c);
    } else {
      FragmentMarksOutside(img, labels, region, r, c);
    }
  }

  /** Inside its bbox, a fragment pasted through its region paints the
      image's pixel exactly where the region's label is and the pixel is not
      black. */
  lemma FragmentMarksInside(img: Image, labels: Labels, region: Region, r: int, c: int)
    requires Rectangular(labels) && FitsIn(region.bbox, |labels|, Width(labels))
    requires IsGrid(img, |labels|, Width(labels))
    requires Inside(region.bbox, r, c)
    ensures InGrid(labels, r, c) && InGrid(img, r, c)
    ensures Mark(Masked, Fragment(img, labels, region), region.bbox.minr, region.bbox.minc, r, c)
      == if labels[r][c] == region.labelId && img[r][c] != Black then Some(img[r][c]) else None
  {
    FragmentPixelAt(img, labels, region, r, c);
    MaskedMarkOf(Fragment(img, labels, region), img, labels, region, r, c);
  }

  /** What a masked paste at the bbox origin paints at (r, c), for any
      fragment whose pixel there is the image's pixel under the region's
      label and black elsewhere. */
  lemma MaskedMarkOf(f: Image, img: Image, labels: Labels, region: Region, r: int, c: int)
    requires Inside(region.bbox, r, c) && InGrid(labels, r, c) && InGrid(img, r, c)
    requires InGrid(f, r - region.bbox.minr, c - region.bbox.minc)
    requires f[r - region.bbox.minr][c - region.bbox.minc]
      == if labels[r][c] == region.labelId then img[r][c] else Black
    ensures Mark(Masked, f, region.bbox.minr, region.bbox.minc, r, c)
      == if labels[r][c] == region.labelId && img[r][c] != Black then Some(img[r][c]) else None
  {
  }

  /** Outside its bbox, a fragment paints nothing. */
  lemma FragmentMarksOutside(img: Image, labels: Labels, region: Region, r: int, c: int)
    requires Rectangular(labels) && FitsIn(region.bbox, |labels|, Width(labels))
    requires !Inside(region.bbox, r, c)
    ensures Mark(Masked, Fragment(img, labels, region), region.bbox.minr, region.bbox.minc, r, c).None?
  {
    var b := region.bbox;
    assert !InGrid(Fragment(img, labels, region), r - b.minr, c - b.minc);
  }

  /** Fragments of two regions with different labels in one label array
      never paint the same position. */
  lemma DistinctLabelsApart(img1: Image, img2: Image, labels: Labels, region1: Region, region2: Region, r: int, c: int)
    requires Rectangular(labels) && IsGrid(img1, |labels|, Width(labels)) && IsGrid(img2, |labels|, Width(labels))
    requires FitsIn(region1.bbox, |labels|, Width(labels)) && FitsIn(region2.bbox, |labels|, Width(labels))
    requires region1.labelId != region2.labelId
    ensures Mark(Masked, Fragment(img1, labels, region1), region1.bbox.minr, region1.bbox.minc, r, c).None?
         || Mark(Masked, Fragment(img2, labels, region2), region2.bbox.minr, region2.bbox.minc, r, c).None?
  {
    FragmentMarksItsRegion(img1, labels, region1, r, c);
    FragmentMarksItsRegion(img2, labels, region2, r, c);
  }

  /** An overlap fragment and a difference fragment never paint the same
      position: the overlap mask and `binary_diff` are complementary, so no
      pixel carries a label in both label arrays. */
  lemma PassesApart(images: seq<Image>, overlapLabels: Labels, diffLabels: Labels,
                    img1: Image, img2: Image, i: nat, j: nat, r: int, c: int)
    requires SameSize(images) && |images| >= 2
    requires IsLabeling(ComputeMasks(images).value.overlap, overlapLabels)
    requires IsLabeling(ComputeMasks(images).value.binaryDiff, diffLabels)
    requires IsGrid(img1, BatchHeight(images), BatchWidth(images))
    requires IsGrid(img2, BatchHeight(images), BatchWidth(images))
    requires Rectangular(overlapLabels) && Rectangular(diffLabels)
    requires i < |RegionProps(overlapLabels)| && j < |RegionProps(diffLabels)|
    ensures var ro, rd := RegionProps(overlapLabels)[i], RegionProps(diffLabels)[j];
      Mark(Masked, Fragment(img1, overlapLabels, ro), ro.bbox.minr, ro.bbox.minc, r, c).None?
      || Mark(Masked, Fragment(img2, diffLabels, rd), rd.bbox.minr, rd.bbox.minc, r, c).None?
  {
    var ro, rd := RegionProps(overlapLabels)[i], RegionProps(diffLabels)[j];
    assert FitsIn(ro.bbox, |overlapLabels|, Width(overlapLabels));
    assert FitsIn(rd.bbox, |diffLabels|, Width(diffLabels));
    FragmentMarksItsRegion(img1, overlapLabels, ro, r, c);
    FragmentMarksItsRegion(img2, diffLabels, rd, r, c);
    if Inside(ro.bbox, r, c) && Inside(rd.bbox, r, c) {
      NoPixelInBothLabelings(images, overlapLabels, diffLabels, r, c);
    }
  }

  /** No pixel carries a label in both the overlap labels and the difference
      labels. */
  lemma NoPixelInBothLabelings(images: seq<Image>, overlapLabels: Labels, diffLabels: Labels, r: int, c: int)
    requires SameSize(images) && |images| >= 2
    requires IsLabeling(ComputeMasks(images).value.overlap, overlapLabels)
    requires IsLabeling(ComputeMasks(images).value.binaryDiff, diffLabels)
    requires 0 <= r < BatchHeight(images) && 0 <= c < BatchWidth(images)
    ensures InGrid(overlapLabels, r, c) && InGrid(diffLabels, r, c)
    ensures overlapLabels[r][c] == 0 || diffLabels[r][c] == 0
  {
    var masks := ComputeMasks(images).value;
    assert InGrid(masks.overlap, r, c) && InGrid(masks.binaryDiff, r, c);
  }
}
