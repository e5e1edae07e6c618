/** The in-memory catalog `saved_images`, the fragment store, and the
    first-match dedup step shared by both passes. */
module Catalog {
  import opened Wrappers
  import opened Grids
  import opened Regions
  import opened FileNames

  /** One `OverlapInfo` or `NonOverlapInfo` row; `kind` says which table. */
  datatype FragmentRecord = FragmentRecord(
    kind: Kind,
    imageIndex: nat,
    regionId: nat,
    bbox: BBox,
    reference: string)

  /** One entry of `saved_images`: `{"filename": ..., "region_id": ...}`. */
  datatype CatalogEntry = CatalogEntry(filename: string, regionId: nat)

  /** The state one run of the extraction carries along: the catalog, the
      saved fragment files (file name to pixels), and the records added to the
      session so far, in order. */
  datatype RunState = RunState(
    catalog: seq<CatalogEntry>,
    store: map<string, Image>,
    records: seq<FragmentRecord>)

  const EmptyRun := RunState([], map[], [])

  /** `calculate_image_similarity(candidate, saved) > 0.95`. */
  type Similarity = (Image, Image) -> bool

  /** Every catalog entry names a saved file. */
  predicate Backed(catalog: seq<CatalogEntry>, store: map<string, Image>) {
    forall i :: 0 <= i < |catalog| ==> catalog[i].filename in store
  }

  /** The scan `for saved_image_info in saved_images` from entry `i` on. */
  function FirstMatchFrom(similar: Similarity, candidate: Image, catalog: seq<CatalogEntry>,
                          store: map<string, Image>, i: nat): (k: Option<nat>)
    requires Backed(catalog, store) && i <= |catalog|
    ensures k.Some? ==>
      && i <= k.value < |catalog|
      && similar(candidate, store[catalog[k.value].filename])
      && forall j :: i <= j < k.value ==> !similar(candidate, store[catalog[j].filename])
    ensures k.None? ==> forall j :: i <= j < |catalog| ==> !similar(candidate, store[catalog[j].filename])
    decreases |catalog| - i
  {
    if i == |catalog| then None
    else if similar(candidate, store[catalog[i].filename]) then Some(i)
    else FirstMatchFrom(similar, candidate, catalog, store, i + 1)
  }

  /** The position of the first catalog entry, in insertion order, whose saved
      fragment the candidate is similar to; `None` when there is none. */
  function FirstMatch(similar: Similarity, candidate: Image, catalog: seq<CatalogEntry>,
                      store: map<string, Image>): (k: Option<nat>)
    requires Backed(catalog, store)
    ensures k.Some? ==>
      && k.value < |catalog|
      && similar(candidate, store[catalog[k.value].filename])
      && forall j :: 0 <= j < k.value ==> !similar(candidate, store[catalog[j].filename])
    ensures k.None? <==> forall j :: 0 <= j < |catalog| ==> !similar(candidate, store[catalog[j].filename])
  {
    FirstMatchFrom(similar, candidate, catalog, store, 0)
  }

  /** When the similarity test holds between a candidate and itself, a
      candidate identical to a saved fragment is never saved again: it is
      referenced to that entry or to an earlier one. The SSIM test is not
      reflexive on a uniform fragment (its data range is 0 and the score is
      NaN), so such a fragment may be saved twice. */
  lemma IdenticalFragmentIsReferenced(similar: Similarity, candidate: Image, catalog: seq<CatalogEntry>,
                                      store: map<string, Image>, k: nat)
    requires Backed(catalog, store)
    requires similar(candidate, candidate)
    requires k < |catalog| && store[catalog[k].filename] == candidate
    ensures FirstMatch(similar, candidate, catalog, store).Some?
    ensures FirstMatch(similar, candidate, catalog, store).value <= k
  {
    assert similar(candidate, store[catalog[k].filename]);
  }

  /** One candidate fragment through the dedup loop (`is_saved` and the
      `if not is_saved` branch): on a hit the record points at the first
      similar catalog entry's file, on a miss the fragment is saved under its
      own file name and appended to the catalog; a record is added either way. */
  function Place(similar: Similarity, dir: string, st: RunState, fragment: Image,
                 key: FileKey, bbox: BBox): (st': RunState)
    requires Backed(st.catalog, st.store)
    ensures Backed(st'.catalog, st'.store)
    ensures |st'.records| == |st.records| + 1 && st'.records[..|st.records|] == st.records
    ensures var rec := st'.records[|st.records|];
      && rec.kind == key.kind && rec.imageIndex == key.imageIndex && rec.regionId == key.regionId
      && rec.bbox == bbox && rec.reference in st'.store
  {
    match FirstMatch(similar, fragment, st.catalog, st.store)
    case Some(k) =>
      var ref := st.catalog[k].filename;
      st.(records := st.records + [FragmentRecord(key.kind, key.imageIndex, key.regionId, bbox, ref)])
    case None =>
      var ref := FragmentFileName(dir, key);
      RunState(
        st.catalog + [CatalogEntry(ref, key.regionId)],
        st.store[ref := fragment],
        st.records + [FragmentRecord(key.kind, key.imageIndex, key.regionId, bbox, ref)])
  }

  /** What `Place` does to the catalog and the store. On a hit the record
      points at the first catalog entry whose fragment is similar and nothing
      is saved; on a miss the fragment is saved under the key's file name and
      that name is appended to the catalog. */
  lemma PlaceOutcome(similar: Similarity, dir: string, st: RunState, fragment: Image,
                     key: FileKey, bbox: BBox)
    requires Backed(st.catalog, st.store)
    ensures var st' := Place(similar, dir, st, fragment, key, bbox);
      (exists j :: 0 <= j < |st.catalog| && similar(fragment, st.store[st.catalog[j].filename])) ==>
      var ref := st'.records[|st.records|].reference;
      && st'.catalog == st.catalog && st'.store == st.store
      && exists k :: 0 <= k < |st.catalog| && st.catalog[k].filename == ref
           && similar(fragment, st.store[ref])
           && forall j :: 0 <= j < k ==> !similar(fragment, st.store[st.catalog[j].filename])
    ensures var st' := Place(similar, dir, st, fragment, key, bbox);
      (forall j :: 0 <= j < |st.catalog| ==> !similar(fragment, st.store[st.catalog[j].filename])) ==>
      var ref := st'.records[|st.records|].reference;
      && ref == FragmentFileName(dir, key)
      && st'.catalog == st.catalog + [CatalogEntry(ref, key.regionId)]
      && st'.store == st.store[ref := fragment]
  {
  }

  // ---------------------------------------------------------------------------
  // The order a run visits keys in, and what stays true along it

  /** The overlap pass visits region ids in order and, for each, the images in
      order; the non-overlap pass comes after it and visits images in order
      and, for each, its region ids in order. */
  predicate KeyLess(a: FileKey, b: FileKey) {
    if a.kind != b.kind then a.kind == Overlap
    else if a.kind == Overlap then
      a.regionId < b.regionId || (a.regionId == b.regionId && a.imageIndex < b.imageIndex)
    else
      a.imageIndex < b.imageIndex || (a.imageIndex == b.imageIndex && a.regionId < b.regionId)
  }

  /** The key immediately after `k` in the visiting order. */
  function Succ(k: FileKey): FileKey {
    if k.kind == Overlap then k.(imageIndex := k.imageIndex + 1) else k.(regionId := k.regionId + 1)
  }

  lemma KeyLessTransitive(a: FileKey, b: FileKey, c: FileKey)
    requires KeyLess(a, b) && KeyLess(b, c)
    ensures KeyLess(a, c)
  {
  }

  lemma KeyLessSucc(a: FileKey, k: FileKey)
    ensures KeyLess(a, Succ(k)) <==> a == k || KeyLess(a, k)
  {
  }

  function RecordKey(rec: FragmentRecord): FileKey {
    FileKey(rec.kind, rec.imageIndex, rec.regionId)
  }

  /** The entry's file name parses to a key visited before `bound`. */
  predicate EntryBelow(dir: string, e: CatalogEntry, bound: FileKey) {
    var k := ParseFileName(dir, e.filename);
    k.Some? && KeyLess(k.value, bound)
  }

  /** The records have strictly increasing keys, all before `bound`. */
  ghost predicate RecordsOrdered(records: seq<FragmentRecord>, bound: FileKey) {
    && (forall t :: 0 <= t < |records| ==> KeyLess(RecordKey(records[t]), bound))
    && (forall s, t :: 0 <= s < t < |records| ==> KeyLess(RecordKey(records[s]), RecordKey(records[t])))
  }

  /** Every catalog file name belongs to a key before `bound`, the names are
      pairwise distinct, and the saved files are exactly the catalog's. */
  ghost predicate CatalogNamed(dir: string, catalog: seq<CatalogEntry>, store: map<string, Image>, bound: FileKey) {
    && (forall i :: 0 <= i < |catalog| ==> EntryBelow(dir, catalog[i], bound))
    && (forall i, j :: 0 <= i < j < |catalog| ==> catalog[i].filename != catalog[j].filename)
    && (forall f :: f in store <==> exists i :: 0 <= i < |catalog| && catalog[i].filename == f)
  }

  /** What holds of a run whose next key to visit is `bound`: records in
      visiting order, a well-named catalog, and every record pointing at a
      saved file. */
  ghost predicate RunInvariant(dir: string, st: RunState, bound: FileKey) {
    && Backed(st.catalog, st.store)
    && RecordsOrdered(st.records, bound)
    && CatalogNamed(dir, st.catalog, st.store, bound)
    && (forall t :: 0 <= t < |st.records| ==> st.records[t].reference in st.store)
  }

  lemma EmptyRunInvariant(dir: string, bound: FileKey)
    ensures RunInvariant(dir, EmptyRun, bound)
  {
  }

  /** The invariant towards a bound stays true towards any later bound. */
  lemma InvariantWeakens(dir: string, st: RunState, b1: FileKey, b2: FileKey)
    requires RunInvariant(dir, st, b1)
    requires b1 == b2 || KeyLess(b1, b2)
    ensures RunInvariant(dir, st, b2)
  {
    if b1 != b2 {
      forall t | 0 <= t < |st.records|
        ensures KeyLess(RecordKey(st.records[t]), b2)
      {
        KeyLessTransitive(RecordKey(st.records[t]), b1, b2);
      }
      forall i | 0 <= i < |st.catalog|
        ensures EntryBelow(dir, st.catalog[i], b2)
      {
        KeyLessTransitive(ParseFileName(dir, st.catalog[i].filename).value, b1, b2);
      }
    }
  }

  lemma AppendRecordOrdered(records: seq<FragmentRecord>, rec: FragmentRecord, key: FileKey)
    requires RecordsOrdered(records, key) && RecordKey(rec) == key
    ensures RecordsOrdered(records + [rec], Succ(key))
  {
    var records' := records + [rec];
    forall t | 0 <= t < |records'|
      ensures KeyLess(RecordKey(records'[t]), Succ(key))
    {
      KeyLessSucc(RecordKey(records'[t]), key);
    }
  }

  lemma CatalogNamedSucc(dir: string, catalog: seq<CatalogEntry>, store: map<string, Image>, key: FileKey)
    requires CatalogNamed(dir, catalog, store, key)
    ensures CatalogNamed(dir, catalog, store, Succ(key))
  {
    forall i | 0 <= i < |catalog|
      ensures EntryBelow(dir, catalog[i], Succ(key))
    {
      KeyLessSucc(ParseFileName(dir, catalog[i].filename).value, key);
    }
  }

  /** Saving the fragment of `key` under its own name: the name is new, so
      nothing saved before is overwritten and the names stay distinct. */
  lemma AppendEntryNamed(dir: string, catalog: seq<CatalogEntry>, store: map<string, Image>,
                         key: FileKey, fragment: Image)
    requires CatalogNamed(dir, catalog, store, key)
    ensures FragmentFileName(dir, key) !in store
    ensures CatalogNamed(dir, catalog + [CatalogEntry(FragmentFileName(dir, key), key.regionId)],
                         store[FragmentFileName(dir, key) := fragment], Succ(key))
  {
    var e := CatalogEntry(FragmentFileName(dir, key), key.regionId);
    NameOfNextKeyIsFresh(dir, catalog, key);
    AppendEntryBelow(dir, catalog, e, key);
    AppendEntryStore(catalog, store, e, fragment);
  }

  /** No catalog name belongs to the key about to be visited. */
  lemma NameOfNextKeyIsFresh(dir: string, catalog: seq<CatalogEntry>, key: FileKey)
    requires forall i :: 0 <= i < |catalog| ==> EntryBelow(dir, catalog[i], key)
    ensures forall i :: 0 <= i < |catalog| ==> catalog[i].filename != FragmentFileName(dir, key)
  {
    FileNameRoundTrip(dir, key);
    forall i | 0 <= i < |catalog|
      ensures catalog[i].filename != FragmentFileName(dir, key)
    {
      assert EntryBelow(dir, catalog[i], key);
    }
  }

  lemma AppendEntryBelow(dir: string, catalog: seq<CatalogEntry>, e: CatalogEntry, key: FileKey)
    requires forall i :: 0 <= i < |catalog| ==> EntryBelow(dir, catalog[i], key)
    requires e.filename == FragmentFileName(dir, key)
    ensures forall i :: 0 <= i < |catalog + [e]| ==> EntryBelow(dir, (catalog + [e])[i], Succ(key))
  {
    var catalog' := catalog + [e];
    FileNameRoundTrip(dir, key);
    forall i | 0 <= i < |catalog'|
      ensures EntryBelow(dir, catalog'[i], Succ(key))
    {
      if i < |catalog| {
        assert catalog'[i] == catalog[i];
        KeyLessSucc(ParseFileName(dir, catalog[i].filename).value, key);
      } else {
        KeyLessSucc(key, key);
      }
    }
  }

  /** Appending an entry with a fresh name and saving its file keeps the saved
      files exactly the catalog's, with distinct names. */
  lemma AppendEntryStore(catalog: seq<CatalogEntry>, store: map<string, Image>, e: CatalogEntry, fragment: Image)
    requires forall i, j :: 0 <= i < j < |catalog| ==> catalog[i].filename != catalog[j].filename
    requires forall f :: f in store <==> exists i :: 0 <= i < |catalog| && catalog[i].filename == f
    requires forall i :: 0 <= i < |catalog| ==> catalog[i].filename != e.filename
    ensures e.filename !in store
    ensures var catalog' := catalog + [e];
      forall i, j :: 0 <= i < j < |catalog'| ==> catalog'[i].filename != catalog'[j].filename
    ensures var catalog', store' := catalog + [e], store[e.filename := fragment];
      forall f :: f in store' <==> exists i :: 0 <= i < |catalog'| && catalog'[i].filename == f
  {
    var catalog', store' := catalog + [e], store[e.filename := fragment];
    forall f
      ensures f in store' <==> exists i :: 0 <= i < |catalog'| && catalog'[i].filename == f
    {
      if f in store {
        var i :| 0 <= i < |catalog| && catalog[i].filename == f;
        assert catalog'[i].filename == f;
      }
      if f == e.filename {
        assert catalog'[|catalog|].filename == f;
      }
      if exists i :: 0 <= i < |catalog'| && catalog'[i].filename == f {
        var i :| 0 <= i < |catalog'| && catalog'[i].filename == f;
        if i < |catalog| {
          assert catalog[i].filename == f;
        }
      }
    }
  }

  /** A hit: appending a record that points at a saved file keeps the
      invariant, now towards the key after the record's. */
  lemma HitKeepsInvariant(dir: string, st: RunState, rec: FragmentRecord, key: FileKey)
    requires RunInvariant(dir, st, key)
    requires RecordKey(rec) == key && rec.reference in st.store
    ensures RunInvariant(dir, st.(records := st.records + [rec]), Succ(key))
  {
    AppendRecordOrdered(st.records, rec, key);
    CatalogNamedSucc(dir, st.catalog, st.store, key);
    var records' := st.records + [rec];
    assert forall t :: 0 <= t < |records'| ==> records'[t].reference in st.store by {
      forall t | 0 <= t < |records'|
        ensures records'[t].reference in st.store
      {
        if t < |st.records| {
          assert records'[t] == st.records[t];
        }
      }
    }
  }

  /** A miss: saving the fragment under the key's own name, cataloguing it,
      and appending a record that points at it keeps the invariant, now
      towards the key after it. */
  lemma MissKeepsInvariant(dir: string, st: RunState, rec: FragmentRecord, key: FileKey, fragment: Image)
    requires RunInvariant(dir, st, key)
    requires RecordKey(rec) == key && rec.reference == FragmentFileName(dir, key)
    ensures FragmentFileName(dir, key) !in st.store
    ensures RunInvariant(dir, RunState(st.catalog + [CatalogEntry(rec.reference, key.regionId)],
                                       st.store[rec.reference := fragment],
                                       st.records + [rec]), Succ(key))
  {
    AppendRecordOrdered(st.records, rec, key);
    AppendEntryNamed(dir, st.catalog, st.store, key, fragment);
    var st' := RunState(st.catalog + [CatalogEntry(rec.reference, key.regionId)],
                        st.store[rec.reference := fragment],
                        st.records + [rec]);
    assert forall t :: 0 <= t < |st'.records| ==> st'.records[t].reference in st'.store by {
      forall t | 0 <= t < |st'.records|
        ensures st'.records[t].reference in st'.store
      {
        if t < |st.records| {
          assert st'.records[t] == st.records[t];
        }
      }
    }
    assert Backed(st'.catalog, st'.store) by {
      forall i | 0 <= i < |st'.catalog|
        ensures st'.catalog[i].filename in st'.store
      {
        if i < |st.catalog| {
          assert st'.catalog[i] == st.catalog[i];
        }
      }
    }
  }

  /** Placing the fragment of key `key` keeps the invariant, now towards the
      key after it, and leaves every saved file as it was. */
  lemma PlaceKeepsInvariant(similar: Similarity, dir: string, st: RunState,
                            fragment: Image, key: FileKey, bbox: BBox)
    requires RunInvariant(dir, st, key)
    ensures RunInvariant(dir, Place(similar, dir, st, fragment, key, bbox), Succ(key))
    ensures forall f :: f in st.store ==>
      f in Place(similar, dir, st, fragment, key, bbox).store && Place(similar, dir, st, fragment, key, bbox).store[f] == st.store[f]
  {
    var st' := Place(similar, dir, st, fragment, key, bbox);
    var rec := st'.records[|st.records|];
    assert st'.records == st.records + [rec];
    match FirstMatch(similar, fragment, st.catalog, st.store)
    case Some(k) =>
      assert st' == st.(records := st.records + [rec]);
      HitKeepsInvariant(dir, st, rec, key);
    case None =>
      assert st' == RunState(st.catalog + [CatalogEntry(rec.reference, key.regionId)],
                             st.store[rec.reference := fragment], st.records + [rec]);
      MissKeepsInvariant(dir, st, rec, key, fragment);
  }
}
