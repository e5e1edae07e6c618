# Region extraction, dedup and reconstruction — a Dafny model

This project models the image pipeline of `hackathon/hackathon.py`.

`find_and_save_regions` does the following:

1. It accumulates the channelwise difference of every pair of images in a batch.
2. It turns the luma of that sum into a 0/255 difference mask, thresholded at 30, and inverts it to get the overlap mask.
3. It labels both masks into 8-connected regions.
4. For every region of area above 4, it cuts one fragment per image: the region's bbox cropped out of the image and composited over black through the region's mask.
5. Each fragment goes through a first-match dedup scan of the fragments saved so far. On a hit, the record references the earlier file. On a miss, the fragment is saved under `overlap_image<i>_<id>.avif` or `non_overlap_image<i>_<id>.avif` and recorded.

`reconstruct_image` selects one image's records, sizes a black canvas to the largest bbox edges, and pastes the overlap fragments and then the non-overlap fragments at their bbox origins.

The modules follow the program's structure:

| module | what it models |
|---|---|
| `Grids` | pixels, images, black canvases, luma |
| `DiffAccumulator` | the pair loop, `ImageChops.difference`/`add`, and the two masks |
| `Regions` | `regionprops` read off a label array, crop, region mask, composite, fragment |
| `FileNames` | the fragment file names and their parsing |
| `Catalog` | the dedup scan, one placement, and the run invariant |
| `Pipeline` | the two region passes |
| `ExtractionProperties` | the invariant and exact key coverage of a whole run |
| `FindAndSave` | `find_and_save_regions` as a whole |
| `Reconstruction` | `reconstruct_image` |
| `FragmentMarks` | how the extracted fragments meet on a canvas |

Three collaborators are parameters rather than code:

- **Similarity:** `similar: (Image, Image) -> bool` stands for `calculate_image_similarity(...) > 0.95`.
- **Labeling:** the label arrays produced by `label` are parameters. They are constrained by `Regions.IsLabeling`: the shape matches, foreground exactly where the label is non-zero, labels are consecutive from 1, and labels are exactly the 8-connected components.
- **Storage:** a map from file name to fragment. The fragment database is the sequence of records in insertion order.

## Model

| member | source | states |
|---|---|---|
| Grids.Luma | hackathon/hackathon.py:58 | `convert('L')` in Pillow's 16-bit fixed point: black maps to 0 and a grey pixel to its own level |
| DiffAccumulator.PairsFromMembers | hackathon/hackathon.py:50-51 | the pairs visited by the nested loop are exactly the `(i, j)` with `i < j < n` |
| DiffAccumulator.PairsIndexBatch | hackathon/hackathon.py:49-56 | every visited pair indexes the batch, and there is no pair at all exactly when the batch has fewer than two images |
| DiffAccumulator.AccumulatedDiff | hackathon/hackathon.py:49-56 | `diff_accumulated` stays `None` exactly when there are fewer than two images; otherwise it has the batch's dimensions |
| DiffAccumulator.AccumulatedDiffChannel | hackathon/hackathon.py:52-56 | each channel of the accumulated image is the clipped sum over all pairs of the absolute channel differences |
| DiffAccumulator.AccumulatedDiffBlackIffAgree | hackathon/hackathon.py:49-56 | an accumulated pixel is black if and only if all images agree at that position |
| DiffAccumulator.ComputeMasks | hackathon/hackathon.py:59-64 | fails exactly for fewer than two images; otherwise both masks have the batch's size, `binary_diff` is 0 or 255, and the overlap mask is its complement |
| DiffAccumulator.OverlapMaskMeaning | hackathon/hackathon.py:59-64 | a position is overlap iff its accumulated luma is at most 30; positions where all images agree are overlap; an overlap-0 position has two images that differ there |
| Regions.Extent | hackathon/hackathon.py:73-76 | the bbox of a label is absent iff the label does not occur, and otherwise is the tightest half-open box around its pixels |
| Regions.Count | hackathon/hackathon.py:75 | a region's area is positive iff its label occurs |
| Regions.AreaIsPixelCount | hackathon/hackathon.py:73-75 | `region.area` is the number of positions carrying the region's label |
| Regions.RegionAreaIsPixelCount | hackathon/hackathon.py:75 | each region's area is the number of its label's positions, so `area > 4` keeps exactly the regions of more than four pixels |
| Regions.RegionProps | hackathon/hackathon.py:72-73 | one region per occurring label, with labels in increasing order; each has a label of at least 1, an area equal to its pixel count, and a tight bbox; every labelled pixel lies in its region's bbox |
| Regions.BackgroundHasNoRegions | hackathon/hackathon.py:72-73 | labelling an all-zero mask yields no regions |
| Regions.Blend | hackathon/hackathon.py:81 | the composite takes the image's channel where the mask is 255 and the black background's where it is 0, and for any mask value lies between the two channels |
| Regions.FragmentPixelAt | hackathon/hackathon.py:76-81 | at an image position inside the bbox, the fragment holds the image's pixel where the region's label is and black elsewhere |
| Regions.FragmentPixels | hackathon/hackathon.py:76-81 | a fragment is the size of the bbox; each pixel is the image's pixel where the region's label is and black elsewhere |
| FileNames.DecimalRoundTrip | hackathon/hackathon.py:100 | the decimal digits written into a file name read back as the same number |
| FileNames.FileNameRoundTrip | hackathon/hackathon.py:100 | parsing a fragment's file name recovers its kind, image index and region id |
| FileNames.FileNameInjective | hackathon/hackathon.py:147 | distinct (kind, image, region) keys never share a file name |
| Catalog.FirstMatch | hackathon/hackathon.py:83-86 | the scan returns the first saved fragment the candidate is similar to, and none iff it is similar to none |
| Catalog.IdenticalFragmentIsReferenced | hackathon/hackathon.py:83-97 | when the candidate is similar to itself, a candidate identical to a saved fragment is found no later than that fragment's entry |
| Catalog.Place | hackathon/hackathon.py:82-114 | placing a fragment appends exactly one record with its key and bbox and a reference to a saved file, and keeps the earlier records |
| Catalog.PlaceOutcome | hackathon/hackathon.py:83-114 | a hit references the first similar saved fragment and changes neither catalog nor files; a miss saves the fragment under its own name and appends that catalog entry |
| Catalog.PlaceKeepsInvariant | hackathon/hackathon.py:99-114 | placing keeps records in key order, keeps catalog names distinct and below the next key, and keeps every reference saved; it never overwrites a file saved earlier in the run |
| Catalog.AppendEntryNamed | hackathon/hackathon.py:100-105 | the name of the key being visited is not taken yet, and appending it keeps the catalog well named |
| Pipeline.OverlapImages | hackathon/hackathon.py:80-114 | one overlap region adds one record per image, for images m+1..n in order, with the region's id and bbox |
| Pipeline.OverlapPass | hackathon/hackathon.py:74-114 | the overlap pass keeps the earlier records, and each record it adds is an overlap record for an image 1..n of a region of area above 4, numbered by the region's position among all regions and carrying its bbox |
| Pipeline.NonOverlapRegions | hackathon/hackathon.py:120-163 | one image's difference pass adds one record per kept region, numbered consecutively from the counter |
| Pipeline.NonOverlapPassRecords | hackathon/hackathon.py:117-163 | each record the difference pass adds is a non-overlap record for an image not visited earlier, of a kept difference region numbered by its place among the kept regions (small regions do not use up a number), carrying its bbox |
| Pipeline.ExtractRegions | hackathon/hackathon.py:72-163 | every record of a run is a well-formed overlap record or difference record, and every catalog entry is saved |
| FindAndSave.FindAndSaveRegions | hackathon/hackathon.py:39-165 | the run fails exactly when fewer than two images are given; a successful run records every expected (kind, image, region) key exactly once and no other key, keeps records in visiting order, saves files under distinct names, and points every record at a saved file |
| ExtractionProperties.ExtractRegionsInvariant | hackathon/hackathon.py:72-163 | after a whole run, the records are in visiting order, the saved files are exactly the catalog's with distinct names, and every reference is saved |
| ExtractionProperties.OverlapPassCovers | hackathon/hackathon.py:74-114 | every kept overlap region gets a record for every image |
| ExtractionProperties.NonOverlapPassCovers | hackathon/hackathon.py:117-163 | every image gets a record for every kept difference region |
| ExtractionProperties.ExtractRegionsExact | hackathon/hackathon.py:72-163 | a run records each expected (kind, image, region) key exactly once and no other key |
| FindAndSave.IdenticalBatchOverlapOnly | hackathon/hackathon.py:49-163 | a batch of identical images succeeds and records overlap fragments only |
| Reconstruction.RecordsOfMembers | hackathon/hackathon.py:173-174 | a record is selected iff it is in the database with the queried kind and image index |
| Reconstruction.RecordsOfAppend | hackathon/hackathon.py:173-174 | selection keeps insertion order: selecting from two batches equals selecting from each in turn |
| Reconstruction.MaxOf | hackathon/hackathon.py:176-177 | `max` bounds every element and is one of them |
| Reconstruction.CanvasFitsBoxes | hackathon/hackathon.py:176-179 | the canvas is black, every bbox lies inside it, and some bbox reaches each far edge |
| Reconstruction.Paste | hackathon/hackathon.py:184 | a paste keeps the canvas size, leaves everything outside the fragment untouched, and in whole mode copies the fragment over its rectangle |
| Reconstruction.ReconstructWith | hackathon/hackathon.py:168-191 | fails with no records exactly when the image has none; fails exactly when it has none or one is not saved; a missing fragment names the first unsaved reference |
| Reconstruction.PasteAllPixel | hackathon/hackathon.py:181-189 | after a sequence of pastes, a position shows the last fragment that marks it, or the canvas if none does |
| Reconstruction.ReconstructPixel | hackathon/hackathon.py:176-189 | a reconstruction is as large as the canvas; at each position the non-overlap pastes are layered over what the overlap pastes left on black |
| Reconstruction.MaskedPasteKeepsRegions | hackathon/hackathon.py:181-189 | when regions do not share a position, pasting through the regions shows each region's own pixel there, and the canvas where none marks |
| Reconstruction.ReconstructKeepsRegions | hackathon/hackathon.py:181-189 | when regions do not share a position, the corrected reconstruction shows each region's pixel there, and black where none marks |
| Reconstruction.WholePasteErasesRegion | hackathon/hackathon.py:181-189 | on a two-fragment image the regions do not share a position; pasting whole rectangles leaves the overlap region's white centre black, and pasting through the regions restores it |
| FragmentMarks.FragmentMarksInside | hackathon/hackathon.py:76-81 | inside its bbox, a fragment pasted through its region paints the image's pixel exactly where the region's label is and the pixel is not black |
| FragmentMarks.FragmentMarksOutside | hackathon/hackathon.py:76-81 | outside its bbox, a fragment paints nothing |
| FragmentMarks.FragmentMarksItsRegion | hackathon/hackathon.py:76-81 | pasted through its region, a fragment marks exactly the image's non-black pixels carrying its label, each with the image's own pixel |
| FragmentMarks.DistinctLabelsApart | hackathon/hackathon.py:76-81 | fragments of two regions with different labels never mark the same position |
| FragmentMarks.PassesApart | hackathon/hackathon.py:59-64 | an overlap fragment and a difference fragment never mark the same position, because the two masks are complementary |

## Left out

- AVIF compression (lines 15-22) and file I/O. Images are already-decoded RGB grids. Saving and `Image.open` are exact map writes and reads, so the lossy AVIF round trip is not modelled.
- `calculate_image_similarity` (SSIM on 256×256 grayscale resizes, lines 25-36) is a parameter. No property of it is assumed, except `similar(candidate, candidate)` as a hypothesis of `Catalog.IdenticalFragmentIsReferenced`. The program's test is not reflexive on uniform fragments: line 35 passes the data range `max - min`, which is 0 for an all-black or single-colour fragment, so the score is NaN and `> 0.95` fails. Two identical uniform fragments are therefore both saved.
- skimage's `label` is not computed; the label arrays are parameters characterised by `Regions.IsLabeling`. The per-image relabel at line 118 of the unchanged `binary_diff` gives the same array every time, so the model labels it once.
- The SQLAlchemy session, `add` and `commit` (lines 40-42, 87-114, 134-161, 165, 169-174) are a sequence of records. Queries return records in insertion order.
- `os.makedirs` (lines 66-68) and the final `save` of the reconstruction (line 191) are output only.
- A run starts from an empty output directory and database (`Catalog.EmptyRun`). Files and rows left by earlier runs into the same directory are not modelled. The source overwrites same-named files (lines 101 and 148), and `create_all` keeps the old rows, which then point at the new run's pixels.
- Batches whose images differ in size are excluded by the `SameSize` precondition. The code does not check this.
- Regions.Blend: for intermediate mask values it states only that the result lies between the two channels. The pipeline's masks are 0 or 255, and the truncating linear blend used for other values is a model choice, not Pillow's exact rounding.
- Reconstruction.Reconstruct: the corrected paste skips every black fragment pixel, not just the pixels outside the region mask, so a region pixel that is black in the image is left to the black canvas underneath; where regions do not meet, the two rules give the same image, and that is the case `Reconstruction.ReconstructKeepsRegions` states.
- Reconstruction.ReconstructAsWritten and Reconstruction.Reconstruct have no contracts of their own. Their properties are stated through `Reconstruction.ReconstructWith`, `Reconstruction.ReconstructPixel`, `Reconstruction.ReconstructKeepsRegions` and `Reconstruction.WholePasteErasesRegion`.
- A reconstruction equals the original image only where each reference holds that record's own fragment. A dedup hit under a similarity that is not equality substitutes a similar fragment, so no whole-image round trip is stated.
- `hackathon/main.py` (the GUI) and `hackathon/database.py` (table definitions) are not part of this model.

## Findings

| source | as written | input that shows it | evidently intended | confidence | as-written member | corrected member |
|---|---|---|---|---|---|---|
| hackathon/hackathon.py:181-189 | every fragment is pasted as its whole bbox rectangle, black background included | 5×5 images that agree on a white 3×3 centre and differ on the border ring: the ring's region has the whole image as bbox, so its black inside is pasted after the centre and blacks it out | each fragment restores only its region's pixels; the corrected model pastes the fragment's non-black pixels, which lie inside its region | not executed | Reconstruction.WholePasteErasesRegion | Reconstruction.ReconstructKeepsRegions |
