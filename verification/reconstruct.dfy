/** `reconstruct_image`: rebuilding one image of the batch from its records
    and the saved fragments, by pasting every fragment at its bbox origin
    onto a black canvas. */
module Reconstruction {
  import opened Wrappers
  import opened Grids
  import opened Regions
  import opened FileNames
  import opened Catalog

  datatype ReconstructError =
    | NoRecords                          // `max` over an empty list of records
    | MissingFragment(reference: string) // `Image.open` of a file never saved

  /** How a fragment goes onto the canvas: `Whole` pastes its full rectangle,
      as `reconstructed_image.paste(fragment, (minc, minr))` does; `Masked`
      pastes only the fragment's non-black pixels (the fragment is black
      outside its region, so these are the region's non-black pixels; a
      region pixel that is black in the image is left to the black canvas). */
  datatype PasteMode = Whole | Masked

  // ---------------------------------------------------------------------------
  // Selecting the records of one image

  /** `session.query(table).filter_by(image_index=ix).all()`: the records of
      one kind for image `ix`, in insertion order. */
  function RecordsOf(records: seq<FragmentRecord>, kind: Kind, ix: nat): (sel: seq<FragmentRecord>)
    ensures |sel| <= |records|
    ensures forall t :: 0 <= t < |sel| ==> sel[t].kind == kind && sel[t].imageIndex == ix
  {
    if records == [] then []
    else
      (if records[0].kind == kind && records[0].imageIndex == ix then [records[0]] else [])
      + RecordsOf(records[1..], kind, ix)
  }

  /** A record is selected exactly when it is one of the records of that kind
      and image. */
  lemma {:induction false} RecordsOfMembers(records: seq<FragmentRecord>, kind: Kind, ix: nat, rec: FragmentRecord)
    ensures rec in RecordsOf(records, kind, ix) <==> rec in records && rec.kind == kind && rec.imageIndex == ix
    decreases |records|
  {
    if records != [] {
      RecordsOfMembers(records[1..], kind, ix, rec);
      assert records == [records[0]] + records[1..];
    }
  }

  /** Selecting from two batches of records one after the other selects from
      each in turn: the selection keeps the insertion order. */
  lemma {:induction false} RecordsOfAppend(a: seq<FragmentRecord>, b: seq<FragmentRecord>, kind: Kind, ix: nat)
    ensures RecordsOf(a + b, kind, ix) == RecordsOf(a, kind, ix) + RecordsOf(b, kind, ix)
    decreases |a|
  {
    if a != [] {
      var head := if a[0].kind == kind && a[0].imageIndex == ix then [a[0]] else [];
      assert (a + b)[0] == a[0];
      assert (a + b)[1..] == a[1..] + b;
      assert RecordsOf(a + b, kind, ix) == head + RecordsOf(a[1..] + b, kind, ix);
      RecordsOfAppend(a[1..], b, kind, ix);
      assert RecordsOf(a, kind, ix) == head + RecordsOf(a[1..], kind, ix);
    } else {
      assert a + b == b;
    }
  }

  /** The records one reconstruction of image `ix` pastes, in paste order:
      the overlap records first, then the non-overlap records. */
  function PasteOrder(records: seq<FragmentRecord>, ix: nat): seq<FragmentRecord> {
    RecordsOf(records, Overlap, ix) + RecordsOf(records, NonOverlap, ix)
  }

  // ---------------------------------------------------------------------------
  // The canvas

  /** `max(xs)` of a non-empty list. */
  function MaxOf(xs: seq<nat>): (m: nat)
    requires |xs| > 0
    ensures forall i :: 0 <= i < |xs| ==> xs[i] <= m
    ensures m in xs
  {
    if |xs| == 1 then xs[0]
    else
      var rest := MaxOf(xs[1..]);
      assert rest in xs;
      if xs[0] >= rest then xs[0] else rest
  }

  function Bottoms(recs: seq<FragmentRecord>): seq<nat> {
    seq(|recs|, t requires 0 <= t < |recs| => recs[t].bbox.maxr)
  }

  function Rights(recs: seq<FragmentRecord>): seq<nat> {
    seq(|recs|, t requires 0 <= t < |recs| => recs[t].bbox.maxc)
  }

  /** `max_height`: the lowest bbox bottom. */
  function CanvasHeight(recs: seq<FragmentRecord>): nat
    requires |recs| > 0
  {
    MaxOf(Bottoms(recs))
  }

  /** `max_width`: the rightmost bbox edge. */
  function CanvasWidth(recs: seq<FragmentRecord>): nat
    requires |recs| > 0
  {
    MaxOf(Rights(recs))
  }

  /** `Image.new('RGB', (max_width, max_height))`: the black canvas. */
  function Canvas(recs: seq<FragmentRecord>): Image
    requires |recs| > 0
  {
    Blank(CanvasHeight(recs), CanvasWidth(recs))
  }

  /** The canvas is black and exactly as large as the bboxes need: every
      bbox lies within it, and some bbox reaches each of its two far edges. */
  lemma CanvasFitsBoxes(recs: seq<FragmentRecord>)
    requires |recs| > 0
    ensures IsGrid(Canvas(recs), CanvasHeight(recs), CanvasWidth(recs))
    ensures forall r, c :: InGrid(Canvas(recs), r, c) ==> Canvas(recs)[r][c] == Black
    ensures forall t :: 0 <= t < |recs| ==>
      recs[t].bbox.maxr <= CanvasHeight(recs) && recs[t].bbox.maxc <= CanvasWidth(recs)
    ensures exists t :: 0 <= t < |recs| && recs[t].bbox.maxr == CanvasHeight(recs)
    ensures exists t :: 0 <= t < |recs| && recs[t].bbox.maxc == CanvasWidth(recs)
  {
    assert forall t :: 0 <= t < |recs| ==> Bottoms(recs)[t] == recs[t].bbox.maxr;
    assert forall t :: 0 <= t < |recs| ==> Rights(recs)[t] == recs[t].bbox.maxc;
    var i :| 0 <= i < |recs| && Bottoms(recs)[i] == CanvasHeight(recs);
    var j :| 0 <= j < |recs| && Rights(recs)[j] == CanvasWidth(recs);
  }

  // ---------------------------------------------------------------------------
  // Pasting

  /** What pasting `fragment` at (r0, c0) puts at canvas position (r, c):
      nothing outside the fragment's rectangle, and inside it the fragment's
      pixel, unless the paste is masked and that pixel is black. */
  function Mark(mode: PasteMode, fragment: Image, r0: nat, c0: nat, r: int, c: int): Option<Pixel> {
    var fr, fc := r - r0, c - c0;
    if !InGrid(fragment, fr, fc) then None
    else if mode == Masked && fragment[fr][fc] == Black then None
    else Some(fragment[fr][fc])
  }

  /** `canvas.paste(fragment, (c0, r0))`, clipped to the canvas. */
  function Paste(mode: PasteMode, canvas: Image, fragment: Image, r0: nat, c0: nat): (out: Image)
    ensures SameShape(out, canvas)
    ensures forall r, c :: InGrid(canvas, r, c) && !InGrid(fragment, r - r0, c - c0) ==> out[r][c] == canvas[r][c]
    ensures mode == Whole ==>
      forall r, c :: InGrid(canvas, r, c) && InGrid(fragment, r - r0, c - c0) ==> out[r][c] == fragment[r - r0][c - c0]
  {
    seq(|canvas|, r requires 0 <= r < |canvas| =>
      seq(|canvas[r]|, c requires 0 <= c < |canvas[r]| =>
        match Mark(mode, fragment, r0, c0, r, c)
        case Some(p) => p
        case None => canvas[r][c]))
  }

  /** Every record's fragment is saved. */
  predicate Stored(recs: seq<FragmentRecord>, store: map<string, Image>) {
    forall t :: 0 <= t < |recs| ==> recs[t].reference in store
  }

  /** What pasting the fragment of `rec` puts at canvas position (r, c). */
  function RecordMark(mode: PasteMode, store: map<string, Image>, rec: FragmentRecord, r: int, c: int): Option<Pixel>
    requires rec.reference in store
  {
    Mark(mode, store[rec.reference], rec.bbox.minr, rec.bbox.minc, r, c)
  }

  /** The paste loops `for info in infos: reconstructed_image.paste(...)`,
      one record after the other. */
  function PasteAll(mode: PasteMode, canvas: Image, recs: seq<FragmentRecord>, store: map<string, Image>): (out: Image)
    requires Stored(recs, store)
    ensures SameShape(out, canvas)
    decreases |recs|
  {
    if recs == [] then canvas
    else
      var last := recs[|recs| - 1];
      var under := PasteAll(mode, canvas, recs[..|recs| - 1], store);
      Paste(mode, under, store[last.reference], last.bbox.minr, last.bbox.minc)
  }

  /** No record after position `t` marks (r, c). */
  predicate UnmarkedAfter(mode: PasteMode, store: map<string, Image>, recs: seq<FragmentRecord>, t: int, r: int, c: int)
    requires Stored(recs, store)
  {
    forall u :: 0 <= u < |recs| && t < u ==> RecordMark(mode, store, recs[u], r, c).None?
  }

  /** `p` is what position (r, c) shows after pasting `recs` over a canvas
      pixel `under`: the pixel of the last record that marks the position,
      and `under` when no record marks it. */
  predicate ShowsLastMark(mode: PasteMode, store: map<string, Image>, recs: seq<FragmentRecord>,
                          r: int, c: int, under: Pixel, p: Pixel)
    requires Stored(recs, store)
  {
    && (UnmarkedAfter(mode, store, recs, -1, r, c) ==> p == under)
    && forall t ::
         (0 <= t < |recs| && RecordMark(mode, store, recs[t], r, c).Some? && UnmarkedAfter(mode, store, recs, t, r, c))
         ==> p == RecordMark(mode, store, recs[t], r, c).value
  }

  /** After the pastes, each canvas position shows the pixel of the last
      record that marks it, and keeps the canvas's pixel when none does. */
  lemma {:induction false} PasteAllPixel(mode: PasteMode, canvas: Image, recs: seq<FragmentRecord>,
                                         store: map<string, Image>, r: int, c: int)
    requires Stored(recs, store) && InGrid(canvas, r, c)
    ensures InGrid(PasteAll(mode, canvas, recs, store), r, c)
    ensures ShowsLastMark(mode, store, recs, r, c, canvas[r][c], PasteAll(mode, canvas, recs, store)[r][c])
    decreases |recs|
  {
    if recs != [] {
      var n := |recs| - 1;
      PasteAllLast(mode, canvas, recs, store);
      var under := PasteAll(mode, canvas, recs[..n], store);
      PasteAllPixel(mode, canvas, recs[..n], store, r, c);
      var last := recs[n];
      PastePixel(mode, under, store[last.reference], last.bbox.minr, last.bbox.minc, r, c);
      if RecordMark(mode, store, last, r, c).None? {
        LastUnmarked(mode, store, recs, r, c, canvas[r][c], under[r][c]);
      } else {
        LastMarked(mode, store, recs, r, c, canvas[r][c]);
      }
    }
  }

  /** Pasting a batch pastes all but its last record, then the last. */
  lemma PasteAllLast(mode: PasteMode, canvas: Image, recs: seq<FragmentRecord>, store: map<string, Image>)
    requires Stored(recs, store) && |recs| > 0
    ensures Stored(recs[..|recs| - 1], store)
    ensures var last := recs[|recs| - 1];
      PasteAll(mode, canvas, recs, store)
        == Paste(mode, PasteAll(mode, canvas, recs[..|recs| - 1], store), store[last.reference], last.bbox.minr, last.bbox.minc)
  {
  }

  /** The pixel one paste leaves at (r, c). */
  lemma PastePixel(mode: PasteMode, canvas: Image, fragment: Image, r0: nat, c0: nat, r: int, c: int)
    requires InGrid(canvas, r, c)
    ensures InGrid(Paste(mode, canvas, fragment, r0, c0), r, c)
    ensures Paste(mode, canvas, fragment, r0, c0)[r][c] ==
      if Mark(mode, fragment, r0, c0, r, c).Some? then Mark(mode, fragment, r0, c0, r, c).value else canvas[r][c]
  {
  }

  /** When the last record does not mark (r, c), the position shows what it
      showed before that record was pasted. */
  lemma LastUnmarked(mode: PasteMode, store: map<string, Image>, recs: seq<FragmentRecord>,
                     r: int, c: int, under: Pixel, p: Pixel)
    requires Stored(recs, store) && |recs| > 0
    requires RecordMark(mode, store, recs[|recs| - 1], r, c).None?
    requires Stored(recs[..|recs| - 1], store)
    requires ShowsLastMark(mode, store, recs[..|recs| - 1], r, c, under, p)
    ensures ShowsLastMark(mode, store, recs, r, c, under, p)
  {
    var n := |recs| - 1;
    var init := recs[..n];
    forall t | -1 <= t < n && UnmarkedAfter(mode, store, recs, t, r, c)
      ensures UnmarkedAfter(mode, store, init, t, r, c)
    {
      forall u | 0 <= u < n && t < u ensures RecordMark(mode, store, init[u], r, c).None? {
        assert init[u] == recs[u];
      }
    }
    forall t | 0 <= t < |recs| && RecordMark(mode, store, recs[t], r, c).Some? && UnmarkedAfter(mode, store, recs, t, r, c)
      ensures p == RecordMark(mode, store, recs[t], r, c).value
    {
      assert t < n;
      assert init[t] == recs[t];
    }
  }

  /** When the last record marks (r, c), the position shows its mark. */
  lemma LastMarked(mode: PasteMode, store: map<string, Image>, recs: seq<FragmentRecord>, r: int, c: int, under: Pixel)
    requires Stored(recs, store) && |recs| > 0
    requires RecordMark(mode, store, recs[|recs| - 1], r, c).Some?
    ensures ShowsLastMark(mode, store, recs, r, c, under, RecordMark(mode, store, recs[|recs| - 1], r, c).value)
  {
    var n := |recs| - 1;
    assert !UnmarkedAfter(mode, store, recs, -1, r, c);
    forall t | 0 <= t < n ensures !UnmarkedAfter(mode, store, recs, t, r, c) {
    }
  }

  // ---------------------------------------------------------------------------
  // One reconstruction

  /** The position of the first record, in paste order, whose fragment is not
      saved; `None` when every fragment is. */
  function FirstMissing(recs: seq<FragmentRecord>, store: map<string, Image>, i: nat): (k: Option<nat>)
    requires i <= |recs|
    ensures k.None? <==> forall t :: i <= t < |recs| ==> recs[t].reference in store
    ensures k.Some? ==>
      && i <= k.value < |recs| && recs[k.value].reference !in store
      && forall t :: i <= t < k.value ==> recs[t].reference in store
    decreases |recs| - i
  {
    if i == |recs| then None
    else if recs[i].reference !in store then Some(i)
    else FirstMissing(recs, store, i + 1)
  }

  /** `reconstruct_image(ix, ...)` with the given paste mode: fails when image
      `ix` has no records or when a fragment file is missing, and otherwise
      pastes the fragments onto the canvas in paste order. */
  function ReconstructWith(mode: PasteMode, records: seq<FragmentRecord>, store: map<string, Image>, ix: nat)
    : (res: Result<Image, ReconstructError>)
    ensures res == Failure(NoRecords) <==> PasteOrder(records, ix) == []
    ensures res.Failure? <==> PasteOrder(records, ix) == [] || !Stored(PasteOrder(records, ix), store)
    ensures res.Failure? && res.error.MissingFragment? ==>
      exists t :: 0 <= t < |PasteOrder(records, ix)|
        && PasteOrder(records, ix)[t].reference == res.error.reference
        && PasteOrder(records, ix)[t].reference !in store
        && Stored(PasteOrder(records, ix)[..t], store)
  {
    var recs := PasteOrder(records, ix);
    if recs == [] then Failure(NoRecords)
    else match FirstMissing(recs, store, 0)
      case Some(t) =>
        assert Stored(recs[..t], store) by {
          forall u | 0 <= u < t ensures recs[..t][u].reference in store {
            assert recs[..t][u] == recs[u];
          }
        }
        Failure(MissingFragment(recs[t].reference))
      case None => Success(PasteAll(mode, Canvas(recs), recs, store))
  }

  /** `reconstruct_image` as written: whole rectangles. */
  function ReconstructAsWritten(records: seq<FragmentRecord>, store: map<string, Image>, ix: nat)
    : Result<Image, ReconstructError>
  {
    ReconstructWith(Whole, records, store, ix)
  }

  /** `reconstruct_image` pasting each fragment through its own region. */
  function Reconstruct(records: seq<FragmentRecord>, store: map<string, Image>, ix: nat)
    : Result<Image, ReconstructError>
  {
    ReconstructWith(Masked, records, store, ix)
  }

  // ---------------------------------------------------------------------------
  // What a reconstruction shows

  /** Pasting two batches of records one after the other is pasting the first
      batch and then the second onto the result. */
  lemma {:induction false} PasteAllAppend(mode: PasteMode, canvas: Image, a: seq<FragmentRecord>,
                                          b: seq<FragmentRecord>, store: map<string, Image>)
    requires Stored(a, store) && Stored(b, store)
    ensures Stored(a + b, store)
    ensures PasteAll(mode, canvas, a + b, store) == PasteAll(mode, PasteAll(mode, canvas, a, store), b, store)
    decreases |b|
  {
    if b == [] {
      assert a + b == a;
    } else {
      var n := |b| - 1;
      assert Stored(b[..n], store);
      assert (a + b)[..|a + b| - 1] == a + b[..n];
      assert (a + b)[|a + b| - 1] == b[n];
      PasteAllAppend(mode, canvas, a, b[..n], store);
    }
  }

  /** The image a successful reconstruction of image `ix` returns: as large
      as the canvas, and at each position the pixel of the last non-overlap
      record that marks it; where no non-overlap record does, that of the
      last overlap record that does; black where no record marks it. */
  lemma ReconstructPixel(mode: PasteMode, records: seq<FragmentRecord>, store: map<string, Image>, ix: nat, r: int, c: int)
    requires ReconstructWith(mode, records, store, ix).Success?
    requires InGrid(ReconstructWith(mode, records, store, ix).value, r, c)
    ensures Stored(RecordsOf(records, Overlap, ix), store) && Stored(RecordsOf(records, NonOverlap, ix), store)
    ensures IsGrid(ReconstructWith(mode, records, store, ix).value,
                   CanvasHeight(PasteOrder(records, ix)), CanvasWidth(PasteOrder(records, ix)))
    ensures exists p ::
      && ShowsLastMark(mode, store, RecordsOf(records, Overlap, ix), r, c, Black, p)
      && ShowsLastMark(mode, store, RecordsOf(records, NonOverlap, ix), r, c, p,
                       ReconstructWith(mode, records, store, ix).value[r][c])
  {
    var recs := PasteOrder(records, ix);
    ReconstructValue(mode, records, store, ix);
    CanvasFitsBoxes(recs);
    PasteGroupsPixel(mode, Canvas(recs), RecordsOf(records, Overlap, ix), RecordsOf(records, NonOverlap, ix), store, r, c);
  }

  /** A successful reconstruction is the canvas with every fragment pasted. */
  lemma ReconstructValue(mode: PasteMode, records: seq<FragmentRecord>, store: map<string, Image>, ix: nat)
    requires ReconstructWith(mode, records, store, ix).Success?
    ensures PasteOrder(records, ix) != [] && Stored(PasteOrder(records, ix), store)
    ensures ReconstructWith(mode, records, store, ix).value
      == PasteAll(mode, Canvas(PasteOrder(records, ix)), PasteOrder(records, ix), store)
  {
  }

  /** Pasting one group of records and then another: each position shows the
      second group's last mark, else the first group's, else the canvas. */
  lemma PasteGroupsPixel(mode: PasteMode, canvas: Image, a: seq<FragmentRecord>, b: seq<FragmentRecord>,
                         store: map<string, Image>, r: int, c: int)
    requires Stored(a + b, store) && InGrid(canvas, r, c)
    ensures Stored(a, store) && Stored(b, store)
    ensures InGrid(PasteAll(mode, canvas, a + b, store), r, c)
    ensures exists p ::
      && ShowsLastMark(mode, store, a, r, c, canvas[r][c], p)
      && ShowsLastMark(mode, store, b, r, c, p, PasteAll(mode, canvas, a + b, store)[r][c])
  {
    StoredSplit(a, b, store);
    PasteAllAppend(mode, canvas, a, b, store);
    var mid := PasteAll(mode, canvas, a, store);
    PasteAllPixel(mode, canvas, a, store, r, c);
    PasteAllPixel(mode, mid, b, store, r, c);
    assert ShowsLastMark(mode, store, a, r, c, canvas[r][c], mid[r][c]);
  }

  /** The two halves of a batch whose fragments are all saved have their
      fragments saved. */
  lemma StoredSplit(a: seq<FragmentRecord>, b: seq<FragmentRecord>, store: map<string, Image>)
    requires Stored(a + b, store)
    ensures Stored(a, store) && Stored(b, store)
  {
    forall t | 0 <= t < |a| ensures a[t].reference in store { assert a[t] == (a + b)[t]; }
    forall t | 0 <= t < |b| ensures b[t].reference in store { assert b[t] == (a + b)[|a| + t]; }
  }

  /** At position (r, c) no two records' regions meet: at most one of the
      fragments has a non-black pixel there. */
  predicate RegionsApartAt(store: map<string, Image>, recs: seq<FragmentRecord>, r: int, c: int)
    requires Stored(recs, store)
  {
    forall t, u :: 0 <= t < u < |recs| ==>
      RecordMark(Masked, store, recs[t], r, c).None? || RecordMark(Masked, store, recs[u], r, c).None?
  }

  /** Pasting through the regions brings back every region pixel, whatever
      the paste order: where the regions do not meet, each position shows the
      one fragment pixel painted there, and black where none is. */
  lemma {:induction false} MaskedPasteKeepsRegions(canvas: Image, recs: seq<FragmentRecord>, store: map<string, Image>, r: int, c: int)
    requires Stored(recs, store) && InGrid(canvas, r, c)
    requires RegionsApartAt(store, recs, r, c)
    ensures InGrid(PasteAll(Masked, canvas, recs, store), r, c)
    ensures forall t :: 0 <= t < |recs| && RecordMark(Masked, store, recs[t], r, c).Some? ==>
      PasteAll(Masked, canvas, recs, store)[r][c] == RecordMark(Masked, store, recs[t], r, c).value
    ensures UnmarkedAfter(Masked, store, recs, -1, r, c) ==> PasteAll(Masked, canvas, recs, store)[r][c] == canvas[r][c]
  {
    PasteAllPixel(Masked, canvas, recs, store, r, c);
    forall t | 0 <= t < |recs| && RecordMark(Masked, store, recs[t], r, c).Some?
      ensures UnmarkedAfter(Masked, store, recs, t, r, c)
    {
    }
  }

  /** A successful reconstruction through the regions shows, at every
      position where the records' regions do not meet, the region pixel some
      fragment carries there, and black where no fragment carries one. */
  lemma ReconstructKeepsRegions(records: seq<FragmentRecord>, store: map<string, Image>, ix: nat, r: int, c: int)
    requires Reconstruct(records, store, ix).Success?
    requires InGrid(Reconstruct(records, store, ix).value, r, c)
    ensures Stored(PasteOrder(records, ix), store)
    ensures RegionsApartAt(store, PasteOrder(records, ix), r, c) ==>
      && (forall t :: 0 <= t < |PasteOrder(records, ix)| && RecordMark(Masked, store, PasteOrder(records, ix)[t], r, c).Some? ==>
            Reconstruct(records, store, ix).value[r][c] == RecordMark(Masked, store, PasteOrder(records, ix)[t], r, c).value)
      && (UnmarkedAfter(Masked, store, PasteOrder(records, ix), -1, r, c) ==> Reconstruct(records, store, ix).value[r][c] == Black)
  {
    var recs := PasteOrder(records, ix);
    CanvasFitsBoxes(recs);
    if RegionsApartAt(store, recs, r, c) {
      MaskedPasteKeepsRegions(Canvas(recs), recs, store, r, c);
    }
  }

  const White := Pixel(255, 255, 255)
  const RedPixel := Pixel(255, 0, 0)

  /** The difference fragment of a 5 by 5 image whose border differs across
      the batch: red on the border ring, black inside. */
  const Ring: Image := seq(5, r => seq(5, c => if r == 0 || r == 4 || c == 0 || c == 4 then RedPixel else Black))

  /** The overlap fragment of the 3 by 3 centre the batch agrees on. */
  const Centre: Image := seq(3, _ => seq(3, _ => White))

  /** The records of image 1 for a batch of 5 by 5 images that agree on the
      centre 3 by 3 block and differ on every border pixel: one overlap region
      (the centre, area 9) and one difference region (the ring, area 16,
      whose bbox is the whole image). */
  const SampleRecords := [
    FragmentRecord(Overlap, 1, 1, BBox(1, 1, 4, 4), "overlap_image1_1.avif"),
    FragmentRecord(NonOverlap, 1, 1, BBox(0, 0, 5, 5), "non_overlap_image1_1.avif")]
  const SampleStore := map[
    "overlap_image1_1.avif" := Centre,
    "non_overlap_image1_1.avif" := Ring]

  /** Pasting whole rectangles loses region pixels: in the sample the two
      regions meet nowhere, yet the centre comes back black, overwritten by
      the black inside of the ring fragment's rectangle. Pasting through the
      regions brings the centre back. */
  lemma WholePasteErasesRegion()
    ensures PasteOrder(SampleRecords, 1) == SampleRecords && Stored(SampleRecords, SampleStore)
    ensures forall r, c :: RegionsApartAt(SampleStore, SampleRecords, r, c)
    ensures RecordMark(Masked, SampleStore, SampleRecords[0], 2, 2) == Some(White)
    ensures ReconstructAsWritten(SampleRecords, SampleStore, 1).Success?
    ensures InGrid(ReconstructAsWritten(SampleRecords, SampleStore, 1).value, 2, 2)
    ensures ReconstructAsWritten(SampleRecords, SampleStore, 1).value[2][2] == Black
    ensures Reconstruct(SampleRecords, SampleStore, 1).Success?
    ensures InGrid(Reconstruct(SampleRecords, SampleStore, 1).value, 2, 2)
    ensures Reconstruct(SampleRecords, SampleStore, 1).value[2][2] == White
  {
    SampleOrder();
    SampleApart();
    SampleSize(Whole);
    SampleSize(Masked);
    ReconstructPixel(Whole, SampleRecords, SampleStore, 1, 2, 2);
    assert RecordMark(Whole, SampleStore, SampleRecords[1], 2, 2) == Some(Black);
    ReconstructKeepsRegions(SampleRecords, SampleStore, 1, 2, 2);
  }

  lemma SampleOrder()
    ensures RecordsOf(SampleRecords, Overlap, 1) == [SampleRecords[0]]
    ensures RecordsOf(SampleRecords, NonOverlap, 1) == [SampleRecords[1]]
    ensures PasteOrder(SampleRecords, 1) == SampleRecords
    ensures Stored(SampleRecords, SampleStore)
  {
    var recs := SampleRecords;
    assert recs[1..][1..] == [];
  }

  lemma SampleApart()
    ensures Stored(SampleRecords, SampleStore)
    ensures RecordMark(Masked, SampleStore, SampleRecords[0], 2, 2) == Some(White)
    ensures forall r, c :: RegionsApartAt(SampleStore, SampleRecords, r, c)
  {
    forall r, c ensures RegionsApartAt(SampleStore, SampleRecords, r, c) {
      if RecordMark(Masked, SampleStore, SampleRecords[0], r, c).Some? {
        assert 1 <= r < 4 && 1 <= c < 4;
        assert Ring[r][c] == Black;
      }
    }
  }

  /** The sample reconstructs, in either mode, to a 5 by 5 image. */
  lemma SampleSize(mode: PasteMode)
    ensures ReconstructWith(mode, SampleRecords, SampleStore, 1).Success?
    ensures |ReconstructWith(mode, SampleRecords, SampleStore, 1).value| == 5
    ensures InGrid(ReconstructWith(mode, SampleRecords, SampleStore, 1).value, 2, 2)
  {
    SampleOrder();
    var recs := SampleRecords;
    assert FirstMissing(recs, SampleStore, 0).None?;
    assert Bottoms(recs) == [4, 5] && [4, 5][1..] == [5];
    assert Rights(recs) == [4, 5];
    assert CanvasHeight(recs) == 5 && CanvasWidth(recs) == 5;
    assert ReconstructWith(mode, SampleRecords, SampleStore, 1) == Success(PasteAll(mode, Canvas(recs), recs, SampleStore));
    assert |Canvas(recs)[2]| == 5;
  }
}
