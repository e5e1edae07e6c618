/** The names fragments are saved under:
    `os.path.join(output_dir, f'{kind}_image{image_index}_{region_id}.avif')`,
    and the parse that recovers kind, image index and region id from them. */
module FileNames {
  import opened Wrappers

  /** Which pass produced a fragment or record. */
  datatype Kind = Overlap | NonOverlap

  /** What a fragment's file name embeds. */
  datatype FileKey = FileKey(kind: Kind, imageIndex: nat, regionId: nat)

  predicate IsDigit(ch: char) {
    '0' <= ch <= '9'
  }

  predicate AllDigits(s: string) {
    forall i :: 0 <= i < |s| ==> IsDigit(s[i])
  }

  function Digit(d: nat): (ch: char)
    requires d < 10
    ensures IsDigit(ch)
  {
    (48 + d) as char
  }

  function DigitValue(ch: char): nat
    requires IsDigit(ch)
  {
    ch as int - 48
  }

  /** Python's `str` of a non-negative int: decimal, no leading zeros. */
  function Decimal(n: nat): (s: string)
    ensures |s| > 0 && AllDigits(s)
  {
    if n < 10 then [Digit(n)] else Decimal(n / 10) + [Digit(n % 10)]
  }

  /** The number a string of decimal digits denotes. */
  function DigitsValue(s: string): nat
    requires AllDigits(s)
  {
    if |s| == 0 then 0 else DigitsValue(s[..|s| - 1]) * 10 + DigitValue(s[|s| - 1])
  }

  lemma {:induction false} DecimalRoundTrip(n: nat)
    ensures DigitsValue(Decimal(n)) == n
  {
    if n >= 10 {
      DecimalRoundTrip(n / 10);
      var s := Decimal(n);
      assert s[..|s| - 1] == Decimal(n / 10);
    }
  }

  /** The longest all-digit prefix of `s`. */
  function LeadingDigits(s: string): (d: string)
    ensures |d| <= |s| && d == s[..|d|] && AllDigits(d)
  {
    if |s| == 0 || !IsDigit(s[0]) then [] else [s[0]] + LeadingDigits(s[1..])
  }

  lemma {:induction false} LeadingDigitsOf(d: string, rest: string)
    requires AllDigits(d)
    requires |rest| == 0 || !IsDigit(rest[0])
    ensures LeadingDigits(d + rest) == d
  {
    if |d| > 0 {
      assert (d + rest)[1..] == d[1..] + rest;
      LeadingDigitsOf(d[1..], rest);
    }
  }

  predicate HasPrefix(s: string, p: string) {
    |p| <= |s| && s[..|p|] == p
  }

  function KindPrefix(kind: Kind): string {
    match kind
    case Overlap => "overlap_image"
    case NonOverlap => "non_overlap_image"
  }

  /** The file name without its directory. */
  function BaseName(k: FileKey): string {
    KindPrefix(k.kind) + Decimal(k.imageIndex) + "_" + Decimal(k.regionId) + ".avif"
  }

  /** What `os.path.join(dir, name)` puts in front of a relative `name`: nothing
      for an empty directory, the directory itself when it already ends in a
      separator, and the directory plus "/" otherwise. */
  function DirPrefix(dir: string): string {
    if |dir| == 0 || dir[|dir| - 1] == '/' then dir else dir + "/"
  }

  function JoinPath(dir: string, name: string): string {
    DirPrefix(dir) + name
  }

  function FragmentFileName(dir: string, k: FileKey): string {
    JoinPath(dir, BaseName(k))
  }

  /** Reads `<image index>_<region id>.avif`. */
  function ParseIndices(kind: Kind, s: string): Option<FileKey> {
    var a := LeadingDigits(s);
    if |a| == 0 || |a| >= |s| || s[|a|] != '_' then None
    else
      var rest := s[|a| + 1..];
      var b := LeadingDigits(rest);
      if |b| == 0 || rest[|b|..] != ".avif" then None
      else Some(FileKey(kind, DigitsValue(a), DigitsValue(b)))
  }

  function ParseBaseName(s: string): Option<FileKey> {
    if HasPrefix(s, KindPrefix(Overlap)) then ParseIndices(Overlap, s[|KindPrefix(Overlap)|..])
    else if HasPrefix(s, KindPrefix(NonOverlap)) then ParseIndices(NonOverlap, s[|KindPrefix(NonOverlap)|..])
    else None
  }

  /** Recovers the key of a fragment file saved under `dir`. */
  function ParseFileName(dir: string, path: string): Option<FileKey> {
    var p := DirPrefix(dir);
    if HasPrefix(path, p) then ParseBaseName(path[|p|..]) else None
  }

  /** Splitting `a + [ch] + t` after `a`: the separator, then `t`. */
  lemma SplitAfter(a: string, ch: char, t: string)
    ensures |a| < |a + [ch] + t| && (a + [ch] + t)[|a|] == ch
    ensures (a + [ch] + t)[|a| + 1..] == t
  {
    assert (a + [ch] + t)[|a| + 1..] == t;
  }

  lemma DropPrefix(a: string, t: string)
    ensures (a + t)[|a|..] == t
  {
  }

  /** Two digit strings joined as `<da>_<db>.avif` parse back to their values. */
  lemma ParseIndicesOf(kind: Kind, da: string, db: string)
    requires |da| > 0 && AllDigits(da) && |db| > 0 && AllDigits(db)
    ensures ParseIndices(kind, da + "_" + db + ".avif") == Some(FileKey(kind, DigitsValue(da), DigitsValue(db)))
  {
    var tail := db + ".avif";
    var s := da + ['_'] + tail;
    assert s == da + "_" + db + ".avif";
    assert s == da + (['_'] + tail);
    LeadingDigitsOf(da, ['_'] + tail);
    SplitAfter(da, '_', tail);
    LeadingDigitsOf(db, ".avif");
    DropPrefix(db, ".avif");
  }

  lemma ParseIndicesRoundTrip(kind: Kind, a: nat, b: nat)
    ensures ParseIndices(kind, Decimal(a) + "_" + Decimal(b) + ".avif") == Some(FileKey(kind, a, b))
  {
    ParseIndicesOf(kind, Decimal(a), Decimal(b));
    DecimalRoundTrip(a);
    DecimalRoundTrip(b);
  }

  lemma PrefixSplit(p: string, t: string)
    ensures HasPrefix(p + t, p) && (p + t)[|p|..] == t
  {
    assert (p + t)[..|p|] == p;
  }

  lemma ParseBaseNameRoundTrip(k: FileKey)
    ensures ParseBaseName(BaseName(k)) == Some(k)
  {
    var tail := Decimal(k.imageIndex) + "_" + Decimal(k.regionId) + ".avif";
    var s := BaseName(k);
    assert s == KindPrefix(k.kind) + tail;
    PrefixSplit(KindPrefix(k.kind), tail);
    ParseIndicesRoundTrip(k.kind, k.imageIndex, k.regionId);
    if k.kind == NonOverlap {
      NotOverlapPrefix(tail);
    }
  }

  lemma NotOverlapPrefix(tail: string)
    ensures !HasPrefix(KindPrefix(NonOverlap) + tail, KindPrefix(Overlap))
  {
    var s := KindPrefix(NonOverlap) + tail;
    assert s[..13][0] == 'n' != KindPrefix(Overlap)[0];
  }

  /** Every fragment file name parses back to the kind, image index and
      region id it was built from. */
  lemma FileNameRoundTrip(dir: string, k: FileKey)
    ensures ParseFileName(dir, FragmentFileName(dir, k)) == Some(k)
  {
    var p := DirPrefix(dir);
    var path := FragmentFileName(dir, k);
    assert path[..|p|] == p;
    assert path[|p|..] == BaseName(k);
    ParseBaseNameRoundTrip(k);
  }

  /** Fragments saved under one directory with different keys get different
      file names. */
  lemma FileNameInjective(dir: string, k1: FileKey, k2: FileKey)
    ensures FragmentFileName(dir, k1) == FragmentFileName(dir, k2) ==> k1 == k2
  {
    FileNameRoundTrip(dir, k1);
    FileNameRoundTrip(dir, k2);
  }
}
