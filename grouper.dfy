/**
 * Grouping a folder's chapter archives into parts, and staging the images of
 * one part in a temporary directory before they are zipped into a single
 * archive.
 *
 * The file system is abstracted: a chapter's extraction is given as what
 * it produced (see `Extraction`), each copy and the final zip as a success flag, and the temporary
 * directory as the set of entries it holds.
 */
module Grouper {
  import opened Wrappers
  import opened Strings
  import Sorting
  import Natural
  import Parser
  import StateManager

  // ---------------------------------------------------------------------
  // group_cbz_into_packs
  // ---------------------------------------------------------------------

  /** The order of `sorted(cbz_files, key=lambda cbz: parse_chapter_number(cbz.name) or 0)`. */
  predicate ChapterLe(a: string, b: string) {
    Parser.ChapterValue(a) <= Parser.ChapterValue(b)
  }

  lemma ChapterLeTotalPreorder()
    ensures Sorting.TotalPreorder(ChapterLe)
  {
  }

  function Flatten<T>(packs: seq<seq<T>>): seq<T> {
    if packs == [] then [] else packs[0] + Flatten(packs[1..])
  }

  lemma {:induction false} FlattenAppend<T>(packs: seq<seq<T>>, last: seq<T>)
    ensures Flatten(packs + [last]) == Flatten(packs) + last
  {
    if packs == [] {
      assert Flatten([last]) == last + Flatten([]);
    } else {
      assert (packs + [last])[1..] == packs[1..] + [last];
      FlattenAppend(packs[1..], last);
    }
  }

  /** `len(range(0, n, k))` */
  function NumPacks(n: nat, k: nat): nat
    requires k > 0
  {
    if n == 0 then 0 else if n <= k then 1 else 1 + NumPacks(n - k, k)
  }

  /** That is ceil(n / k). */
  lemma {:induction false} NumPacksIsCeiling(n: nat, k: nat)
    requires k > 0
    ensures (NumPacks(n, k) - 1) * k < n <= NumPacks(n, k) * k
  {
    if n > k {
      NumPacksIsCeiling(n - k, k);
      var p := NumPacks(n - k, k);
      assert (p + 1) * k == p * k + k;
    }
  }

  /**
   * `[s[i:i + k] for i in range(0, len(s), k)]`: consecutive slices of `k`
   * elements, the last one possibly shorter.
   */
  function Chunk<T>(s: seq<T>, k: nat): (packs: seq<seq<T>>)
    requires k > 0
    ensures |packs| == NumPacks(|s|, k)
    ensures forall j :: 0 <= j < |packs| ==> 0 < |packs[j]| <= k
    ensures forall j :: 0 <= j < |packs| - 1 ==> |packs[j]| == k
    decreases |s|
  {
    if s == [] then []
    else if |s| <= k then [s]
    else [s[..k]] + Chunk(s[k..], k)
  }

  /** Read one after the other, the packs give back the sequence. */
  lemma {:induction false} ChunkFlatten<T>(s: seq<T>, k: nat)
    requires k > 0
    ensures Flatten(Chunk(s, k)) == s
    decreases |s|
  {
    if s != [] {
      if |s| <= k {
        assert Flatten([s]) == s + Flatten([]);
      } else {
        var rest := Chunk(s[k..], k);
        ChunkFlatten(s[k..], k);
        assert ([s[..k]] + rest)[1..] == rest;
        assert s == s[..k] + s[k..];
      }
    }
  }

  /** `j * k`, by repeated addition. */
  function Offset(j: nat, k: nat): nat {
    if j == 0 then 0 else Offset(j - 1, k) + k
  }

  lemma {:induction false} OffsetIsProduct(j: nat, k: nat)
    ensures Offset(j, k) == j * k
  {
    if j > 0 {
      OffsetIsProduct(j - 1, k);
      assert j * k == (j - 1) * k + k;
    }
  }

  lemma {:induction false} OffsetGrows(i: nat, j: nat, k: nat)
    requires i < j
    ensures Offset(i, k) + k <= Offset(j, k)
    decreases j
  {
    if i < j - 1 {
      OffsetGrows(i, j - 1, k);
    }
  }

  /** Pack `j` is the slice `s[j * k : j * k + k]` the comprehension takes. */
  lemma {:induction false} ChunkSlices<T>(s: seq<T>, k: nat, j: nat)
    requires k > 0 && j < |Chunk(s, k)|
    ensures Offset(j, k) < |s|
    ensures Chunk(s, k)[j] == s[Offset(j, k) .. if Offset(j, k) + k <= |s| then Offset(j, k) + k else |s|]
    decreases |s|
  {
    if j > 0 {
      var rest := Chunk(s[k..], k);
      assert Chunk(s, k)[j] == rest[j - 1];
      ChunkSlices(s[k..], k, j - 1);
      var o := Offset(j - 1, k);
      SliceShift(s, k, o, if o + k <= |s| - k then o + k else |s| - k);
    }
  }

  lemma SliceShift<T>(s: seq<T>, k: nat, o: nat, e: nat)
    requires k <= |s| && o <= e <= |s| - k
    ensures s[k..][o..e] == s[o + k..e + k]
  {
  }

  /** Every element of an earlier pack may precede every element of a later one. */
  lemma ChunkOrdered<T>(s: seq<T>, k: nat, le: (T, T) -> bool, i: nat, j: nat, a: T, b: T)
    requires k > 0 && Sorting.Sorted(s, le)
    requires i < j < |Chunk(s, k)| && a in Chunk(s, k)[i] && b in Chunk(s, k)[j]
    ensures le(a, b)
  {
    ChunkSlices(s, k, i);
    ChunkSlices(s, k, j);
    OffsetGrows(i, j, k);
    var oi, oj := Offset(i, k), Offset(j, k);
    var p :| 0 <= p < |Chunk(s, k)[i]| && Chunk(s, k)[i][p] == a;
    var q :| 0 <= q < |Chunk(s, k)[j]| && Chunk(s, k)[j][q] == b;
    assert s[oi + p] == a && s[oj + q] == b;
  }

  /**
   * `group_cbz_into_packs(cbz_files, chapters_per_part)`: the files ordered
   * by chapter number (an unparsable number counting as 0), cut into parts
   * of `chaptersPerPart`; only the last part may be shorter, and no part is
   * empty.
   */
  function GroupCbzIntoPacks(cbzFiles: seq<string>, chaptersPerPart: nat): (packs: seq<seq<string>>)
    requires chaptersPerPart > 0
    ensures (|packs| - 1) * chaptersPerPart < |cbzFiles| <= |packs| * chaptersPerPart
    ensures forall j :: 0 <= j < |packs| ==> 0 < |packs[j]| <= chaptersPerPart
    ensures forall j :: 0 <= j < |packs| - 1 ==> |packs[j]| == chaptersPerPart
    ensures multiset(Flatten(packs)) == multiset(cbzFiles)
    ensures Sorting.Sorted(Flatten(packs), ChapterLe)
  {
    var sorted := Sorting.SortBy(cbzFiles, ChapterLe);
    ChapterLeTotalPreorder();
    Sorting.SortBySorted(cbzFiles, ChapterLe);
    ChunkFlatten(sorted, chaptersPerPart);
    NumPacksIsCeiling(|sorted|, chaptersPerPart);
    Chunk(sorted, chaptersPerPart)
  }

  /** Files with the same chapter number keep their input order. */
  lemma GroupStable(cbzFiles: seq<string>, chaptersPerPart: nat, x: string)
    requires chaptersPerPart > 0
    ensures Sorting.TiedWith(Flatten(GroupCbzIntoPacks(cbzFiles, chaptersPerPart)), ChapterLe, x)
            == Sorting.TiedWith(cbzFiles, ChapterLe, x)
  {
    ChapterLeTotalPreorder();
    ChunkFlatten(Sorting.SortBy(cbzFiles, ChapterLe), chaptersPerPart);
    Sorting.SortByStable(cbzFiles, ChapterLe, x);
  }

  /** The parts, read one after the other, are the stable sort of the files by chapter number. */
  lemma GroupIsStableSort(cbzFiles: seq<string>, chaptersPerPart: nat, r: seq<string>)
    requires chaptersPerPart > 0
    requires Sorting.Sorted(r, ChapterLe) && multiset(r) == multiset(cbzFiles)
    requires forall x :: Sorting.TiedWith(r, ChapterLe, x) == Sorting.TiedWith(cbzFiles, ChapterLe, x)
    ensures Flatten(GroupCbzIntoPacks(cbzFiles, chaptersPerPart)) == r
  {
    ChapterLeTotalPreorder();
    ChunkFlatten(Sorting.SortBy(cbzFiles, ChapterLe), chaptersPerPart);
    Sorting.StableSortIsSortBy(cbzFiles, r, ChapterLe);
  }

  /** No chapter of a part has a larger number than a chapter of a later part. */
  lemma PacksOrdered(cbzFiles: seq<string>, chaptersPerPart: nat, i: nat, j: nat, a: string, b: string)
    requires chaptersPerPart > 0
    requires var packs := GroupCbzIntoPacks(cbzFiles, chaptersPerPart);
             i < j < |packs| && a in packs[i] && b in packs[j]
    ensures Parser.ChapterValue(a) <= Parser.ChapterValue(b)
  {
    ChapterLeTotalPreorder();
    Sorting.SortBySorted(cbzFiles, ChapterLe);
    ChunkOrdered(Sorting.SortBy(cbzFiles, ChapterLe), chaptersPerPart, ChapterLe, i, j, a, b);
  }

  // ---------------------------------------------------------------------
  // Path names: pathlib's name, suffix and stem
  // ---------------------------------------------------------------------

  /** `s.rfind(c)`: the last position of `c` in `s`, or -1. */
  function RFind(s: string, c: char): (r: int)
    ensures -1 <= r < |s|
    ensures r >= 0 ==> s[r] == c
    ensures forall k :: r < k < |s| ==> s[k] != c
  {
    if s == [] then -1
    else if s[|s| - 1] == c then |s| - 1
    else RFind(s[..|s| - 1], c)
  }

  /** `PurePosixPath(p).name`: what follows the last `/`. */
  function BaseName(p: string): (r: string)
    ensures forall k :: 0 <= k < |r| ==> r[k] != '/'
  {
    p[RFind(p, '/') + 1..]
  }

  /** `Path(p).suffix`: from the last dot of the name, unless the dot is its first or last character. */
  function Suffix(p: string): (r: string)
    ensures r == [] || (|r| >= 2 && r[0] == '.' && forall k :: 0 < k < |r| ==> r[k] != '.')
    ensures EndsWith(BaseName(p), r)
  {
    var name := BaseName(p);
    var i := RFind(name, '.');
    if 0 < i < |name| - 1 then name[i..] else []
  }

  /** `Path(p).stem`: the name without its suffix. */
  function Stem(p: string): (r: string) {
    var name := BaseName(p);
    var i := RFind(name, '.');
    if 0 < i < |name| - 1 then name[..i] else name
  }

  lemma StemAndSuffix(p: string)
    ensures Stem(p) + Suffix(p) == BaseName(p)
  {
  }

  /** Appending text without `/` to a path extends its last component. */
  lemma BaseNameAppend(t: string, s: string)
    requires forall k :: 0 <= k < |s| ==> s[k] != '/'
    ensures BaseName(t + s) == BaseName(t) + s
  {
    var r, r' := RFind(t, '/'), RFind(t + s, '/');
    if r >= 0 {
      assert (t + s)[r] == '/';
    }
    if r' >= 0 && r' < |t| {
      assert t[r'] == '/';
    }
    assert r' == r;
    assert (t + s)[r + 1..] == t[r + 1..] + s;
  }

  // ---------------------------------------------------------------------
  // get_sorted_images
  // ---------------------------------------------------------------------

  /** `image.suffix.lower() in IMAGE_EXTENSIONS` */
  predicate IsImage(name: string, imageExtensions: seq<string>) {
    Lower(Suffix(name)) in imageExtensions
  }

  /**
   * `get_sorted_images(chapter_extract_dir)` over the names of the
   * directory's entries: the images, in natural order.
   */
  function GetSortedImages(entries: seq<string>, imageExtensions: seq<string>): seq<string> {
    Natural.NaturalSorted(Sorting.Filter(entries, name => IsImage(name, imageExtensions)))
  }

  /** The images of a directory, each as often as it is listed, in natural order. */
  lemma GetSortedImagesCorrect(entries: seq<string>, imageExtensions: seq<string>)
    ensures var r := GetSortedImages(entries, imageExtensions);
            && (forall name :: multiset(r)[name] == if IsImage(name, imageExtensions) then multiset(entries)[name] else 0)
            && Sorting.Sorted(r, Natural.NaturalLe)
  {
    var images := Sorting.Filter(entries, name => IsImage(name, imageExtensions));
    forall name
      ensures multiset(GetSortedImages(entries, imageExtensions))[name]
              == if IsImage(name, imageExtensions) then multiset(entries)[name] else 0
    {
      Sorting.FilterMultiset(entries, name => IsImage(name, imageExtensions), name);
    }
  }

  // ---------------------------------------------------------------------
  // Staged names
  // ---------------------------------------------------------------------

  /** `f"{ordinal:05d}_{name}"` */
  function StagedName(ordinal: nat, name: string): string {
    ZeroPad(ordinal, 5) + "_" + name
  }

  /** Staged names are ordered by their ordinals in the natural order, whatever the original names. */
  lemma StagedNamesOrdered(m: nat, n: nat, a: string, b: string)
    requires m < n
    ensures Natural.NaturalLe(StagedName(m, a), StagedName(n, b))
    ensures !Natural.NaturalLe(StagedName(n, b), StagedName(m, a))
  {
    var dm, dn := ZeroPad(m, 5), ZeroPad(n, 5);
    assert StagedName(m, a) == [] + dm + ("_" + a);
    assert StagedName(n, b) == [] + dn + ("_" + b);
    Natural.KeyCons([], dm, "_" + a);
    Natural.KeyCons([], dn, "_" + b);
    ZeroPadValue(m, 5);
    ZeroPadValue(n, 5);
    var ka, kb := Natural.NaturalSortKey("_" + a), Natural.NaturalSortKey("_" + b);
    Natural.CompareAtNumber(Lower([]), m, n, ka, kb);
    Natural.CompareAtNumber(Lower([]), n, m, kb, ka);
  }

  /** The staged name of the `i`-th item (from 0) carries the ordinal `i + 1`. */
  function StagedNames(sources: seq<string>): (r: seq<string>)
    ensures |r| == |sources|
    ensures forall i :: 0 <= i < |sources| ==> r[i] == StagedName(i + 1, sources[i])
  {
    seq(|sources|, i requires 0 <= i < |sources| => StagedName(i + 1, sources[i]))
  }

  /** Staged names are strictly increasing in the natural order, hence pairwise distinct. */
  lemma StagedNamesStrictlySorted(sources: seq<string>)
    ensures Sorting.StrictlySorted(StagedNames(sources), Natural.NaturalLe)
    ensures Sorting.Distinct(StagedNames(sources))
  {
    forall m: nat, n: nat, a: string, b: string | m < n
      ensures Natural.NaturalLe(StagedName(m, a), StagedName(n, b))
              && !Natural.NaturalLe(StagedName(n, b), StagedName(m, a))
    {
      StagedNamesOrdered(m, n, a, b);
    }
    Sorting.StrictlySortedByRank(StagedNames(sources), sources, StagedName, Natural.NaturalLe);
    Sorting.StrictlySortedDistinct(StagedNames(sources), Natural.NaturalLe);
  }

  lemma StagedNamesAppend(sources: seq<string>, x: string)
    ensures StagedNames(sources + [x]) == StagedNames(sources) + [StagedName(|sources| + 1, x)]
  {
  }

  // ---------------------------------------------------------------------
  // What get_pack_images_to_tmp_dir stages
  // ---------------------------------------------------------------------

  datatype Entry = File(name: string) | Dir(name: string)

  /**
   * What extracting a chapter into `temp_dir / cbz.stem` leaves: `extract_cbz`
   * returned False; it returned True but created no directory, because the
   * archive has no members to write; or the directory exists and lists these
   * entries, in listing order.
   */
  datatype Extraction = ExtractFailed | NoDirectory | Extracted(entries: seq<string>)

  /** `cover_image_path and insert_cover and cover_image_path.exists()` */
  predicate CoverInserted(cover: Option<string>, insertCover: bool, coverExists: bool) {
    cover.Some? && insertCover && coverExists
  }

  /** The cover's part of the copy list: the name `cover<suffix>`, staged with ordinal 1. */
  function CoverSources(cover: Option<string>, insertCover: bool, coverExists: bool): seq<string> {
    if CoverInserted(cover, insertCover, coverExists) then ["cover" + Suffix(cover.value)] else []
  }

  /** The images a chapter contributes: none unless its directory was extracted. */
  function ChapterImages(chapter: Extraction, imageExtensions: seq<string>): seq<string> {
    if chapter.Extracted? then GetSortedImages(chapter.entries, imageExtensions) else []
  }

  /** The images of each chapter. */
  function ImageLists(extracted: seq<Extraction>, imageExtensions: seq<string>): (r: seq<seq<string>>)
    ensures |r| == |extracted|
    ensures forall i :: 0 <= i < |extracted| ==> r[i] == ChapterImages(extracted[i], imageExtensions)
  {
    seq(|extracted|, i requires 0 <= i < |extracted| => ChapterImages(extracted[i], imageExtensions))
  }

  /** The images of all chapters, chapter after chapter. */
  function AllImages(extracted: seq<Extraction>, imageExtensions: seq<string>): seq<string> {
    Flatten(ImageLists(extracted, imageExtensions))
  }

  /** One more chapter adds its images at the end. */
  lemma AllImagesAppend(extracted: seq<Extraction>, chapter: Extraction, imageExtensions: seq<string>)
    ensures AllImages(extracted + [chapter], imageExtensions)
            == AllImages(extracted, imageExtensions) + ChapterImages(chapter, imageExtensions)
  {
    assert ImageLists(extracted + [chapter], imageExtensions)
           == ImageLists(extracted, imageExtensions) + [ChapterImages(chapter, imageExtensions)];
    FlattenAppend(ImageLists(extracted, imageExtensions), ChapterImages(chapter, imageExtensions));
  }

  /** A chapter whose extraction fails contributes no image and no folder. */
  lemma FailedChapterContributesNothing(partFiles: seq<string>, partFile: string, extracted: seq<Extraction>,
                                        imageExtensions: seq<string>)
    ensures AllImages(extracted + [ExtractFailed], imageExtensions) == AllImages(extracted, imageExtensions)
    ensures |partFiles| == |extracted| ==>
              ChapterDirs(partFiles + [partFile], extracted + [ExtractFailed]) == ChapterDirs(partFiles, extracted)
  {
    AllImagesAppend(extracted, ExtractFailed, imageExtensions);
    if |partFiles| == |extracted| {
      ChapterDirsAppend(partFiles, partFile, extracted, ExtractFailed);
    }
  }

  /** One more chapter adds its own folder to the chapter folders. */
  lemma ChapterDirsAppend(partFiles: seq<string>, partFile: string, extracted: seq<Extraction>, chapter: Extraction)
    requires |partFiles| == |extracted|
    ensures ChapterDirs(partFiles + [partFile], extracted + [chapter])
            == ChapterDirs(partFiles, extracted) + ChapterDir(partFile, chapter)
  {
    var n := |partFiles|;
    assert (partFiles + [partFile])[..n] == partFiles;
    assert (extracted + [chapter])[..n] == extracted;
  }

  /** Everything the counter counts: the cover, then every image of every extracted chapter. */
  function StagingSources(cover: Option<string>, insertCover: bool, coverExists: bool,
                          extracted: seq<Extraction>, imageExtensions: seq<string>): seq<string>
  {
    CoverSources(cover, insertCover, coverExists) + AllImages(extracted, imageExtensions)
  }

  /** The directories extraction creates: one per extracted chapter, named by its stem. */
  function ChapterDirs(partFiles: seq<string>, extracted: seq<Extraction>): set<Entry>
    requires |partFiles| == |extracted|
  {
    if partFiles == [] then {}
    else
      var n := |partFiles| - 1;
      ChapterDirs(partFiles[..n], extracted[..n]) + ChapterDir(partFiles[n], extracted[n])
  }

  /** The directory a chapter is extracted into, if its extraction succeeds. */
  function ChapterDir(partFile: string, chapter: Extraction): set<Entry> {
    if chapter.Extracted? then {Dir(Stem(partFile))} else {}
  }

  /** The copy with ordinal `ordinal` succeeded. */
  function Copied(copyOk: nat -> bool): nat -> bool {
    (i: nat) => copyOk(i + 1)
  }

  /** The files the copies create: the staged names whose copy succeeded. */
  function Written(names: seq<string>, copyOk: nat -> bool): set<Entry> {
    if names == [] then {}
    else
      var n := |names| - 1;
      Written(names[..n], copyOk) + (if copyOk(n + 1) then {File(names[n])} else {})
  }

  lemma WrittenAppend(names: seq<string>, x: string, copyOk: nat -> bool)
    ensures Written(names + [x], copyOk)
            == Written(names, copyOk) + (if copyOk(|names| + 1) then {File(x)} else {})
  {
    assert (names + [x])[..|names|] == names;
  }

  /** The files written are those of the staged names whose copy succeeded. */
  lemma {:induction false} WrittenFiles(names: seq<string>, copyOk: nat -> bool, name: string)
    ensures File(name) in Written(names, copyOk) <==> name in Sorting.Keep(names, Copied(copyOk))
  {
    if names != [] {
      var n := |names| - 1;
      WrittenFiles(names[..n], copyOk, name);
    }
  }

  /** Staging one more item, with ordinal `n`, writes its file when that copy succeeds. */
  lemma WrittenStep(sources: seq<string>, x: string, n: nat, copyOk: nat -> bool)
    requires n == |sources| + 1
    ensures Written(StagedNames(sources + [x]), copyOk)
            == Written(StagedNames(sources), copyOk) + (if copyOk(n) then {File(StagedName(n, x))} else {})
  {
    StagedNamesAppend(sources, x);
    WrittenAppend(StagedNames(sources), StagedName(n, x), copyOk);
  }

  /** The temporary directory of one part. */
  class TempDir {
    var entries: set<Entry>

    constructor ()
      ensures entries == {}
    {
      entries := {};
    }
  }

  /**
   * The position of the first chapter that leaves no directory to list, or
   * the number of chapters when every chapter can be listed.
   */
  function FirstMissingDir(extracted: seq<Extraction>): (k: nat)
    ensures k <= |extracted|
    ensures forall j :: 0 <= j < k ==> !extracted[j].NoDirectory?
    ensures k < |extracted| ==> extracted[k].NoDirectory?
  {
    if extracted == [] || extracted[0].NoDirectory? then 0 else 1 + FirstMissingDir(extracted[1..])
  }

  /**
   * `get_pack_images_to_tmp_dir`: copies the cover, then the images of each
   * chapter, into `dir` under consecutive ordinals, and returns the number of
   * ordinals used. `extracted[i]` is what extracting chapter `i` leaves, and
   * `copyOk(n)` is the outcome of the copy with ordinal `n`; a failed copy
   * still uses its ordinal. Listing a chapter that left no directory raises
   * `FileNotFoundError` (`None`): the chapters before it have been staged,
   * and nothing after it is.
   */
  method GetPackImagesToTmpDir(dir: TempDir, partFiles: seq<string>, cover: Option<string>,
                               insertCover: bool, coverExists: bool,
                               extracted: seq<Extraction>, imageExtensions: seq<string>,
                               copyOk: nat -> bool)
    returns (imageCount: Option<nat>)
    requires |extracted| == |partFiles|
    modifies dir
    ensures var k := FirstMissingDir(extracted);
            var sources := StagingSources(cover, insertCover, coverExists, extracted[..k], imageExtensions);
            && (imageCount.None? <==> k < |extracted|)
            && (imageCount.Some? ==> imageCount.value == |sources|)
            && dir.entries == old(dir.entries) + ChapterDirs(partFiles[..k], extracted[..k])
                              + Written(StagedNames(sources), copyOk)
  {
    ghost var coverPart := CoverSources(cover, insertCover, coverExists);
    var count := StageCover(dir, cover, insertCover, coverExists, copyOk);
    CoverWritten(cover, insertCover, coverExists, copyOk);
    PrefixesStart(partFiles, coverPart, extracted, imageExtensions);
    var i := 0;
    while i < |partFiles|
      invariant 0 <= i <= FirstMissingDir(extracted)
      invariant count == |StagedPrefix(coverPart, extracted, imageExtensions, i)|
      invariant dir.entries == old(dir.entries) + DirsPrefix(partFiles, extracted, i)
                + Written(StagedNames(StagedPrefix(coverPart, extracted, imageExtensions, i)), copyOk)
    {
      PrefixesStep(partFiles, coverPart, extracted, imageExtensions, i);
      UnionAssoc(old(dir.entries), DirsPrefix(partFiles, extracted, i), ChapterDir(partFiles[i], extracted[i]),
                 Written(StagedNames(StagedPrefix(coverPart, extracted, imageExtensions, i + 1)), copyOk));
      var raised;
      count, raised := StageChapter(dir, partFiles[i], extracted[i], imageExtensions, copyOk, count,
                                    StagedPrefix(coverPart, extracted, imageExtensions, i),
                                    old(dir.entries) + DirsPrefix(partFiles, extracted, i));
      if raised {
        MissingDirAt(extracted, i);
        PrefixesAt(partFiles, cover, insertCover, coverExists, extracted, imageExtensions, i);
        return None;
      }
      i := i + 1;
    }
    PrefixesAt(partFiles, cover, insertCover, coverExists, extracted, imageExtensions, i);
    return Some(count);
  }

  /** A chapter without a directory, with none before it, is the first one. */
  lemma MissingDirAt(extracted: seq<Extraction>, i: nat)
    requires i <= FirstMissingDir(extracted) && i < |extracted| && extracted[i].NoDirectory?
    ensures FirstMissingDir(extracted) == i
  {
  }

  /** The loop's prefixes after `i` chapters are what staging those chapters gives. */
  lemma PrefixesAt(partFiles: seq<string>, cover: Option<string>, insertCover: bool, coverExists: bool,
                   extracted: seq<Extraction>, imageExtensions: seq<string>, i: nat)
    requires |partFiles| == |extracted| && i <= |extracted|
    ensures StagingSources(cover, insertCover, coverExists, extracted[..i], imageExtensions)
            == StagedPrefix(CoverSources(cover, insertCover, coverExists), extracted, imageExtensions, i)
    ensures ChapterDirs(partFiles[..i], extracted[..i]) == DirsPrefix(partFiles, extracted, i)
  {
  }

  /** Copies the cover, when it is to be inserted, as `cover<suffix>` with the first ordinal. */
  method StageCover(dir: TempDir, cover: Option<string>, insertCover: bool, coverExists: bool, copyOk: nat -> bool)
    returns (imageCount: nat)
    modifies dir
    ensures imageCount == if CoverInserted(cover, insertCover, coverExists) then 1 else 0
    ensures dir.entries == old(dir.entries) + CoverFile(cover, insertCover, coverExists, copyOk)
  {
    imageCount := 0;
    if cover.Some? && insertCover && coverExists {
      imageCount := imageCount + 1;
      var coverDest := StagedName(imageCount, "cover" + Suffix(cover.value));
      if copyOk(imageCount) {
        dir.entries := dir.entries + {File(coverDest)};
      }
    }
  }

  /** The file the cover's copy creates, if it is inserted and its copy succeeds. */
  function CoverFile(cover: Option<string>, insertCover: bool, coverExists: bool, copyOk: nat -> bool): set<Entry> {
    if CoverInserted(cover, insertCover, coverExists) && copyOk(1)
    then {File(StagedName(1, "cover" + Suffix(cover.value)))} else {}
  }

  lemma CoverWritten(cover: Option<string>, insertCover: bool, coverExists: bool, copyOk: nat -> bool)
    ensures |CoverSources(cover, insertCover, coverExists)| == if CoverInserted(cover, insertCover, coverExists) then 1 else 0
    ensures Written(StagedNames(CoverSources(cover, insertCover, coverExists)), copyOk)
            == CoverFile(cover, insertCover, coverExists, copyOk)
  {
    if CoverInserted(cover, insertCover, coverExists) {
      var c := "cover" + Suffix(cover.value);
      WrittenStep([], c, 1, copyOk);
      assert [] + [c] == CoverSources(cover, insertCover, coverExists);
    } else {
      assert Written(StagedNames([]), copyOk) == {};
    }
  }

  /**
   * One turn of the chapter loop: extracts the chapter into its directory
   * and copies its images under the ordinals that follow the `|done|`
   * already used. A chapter that fails to extract is skipped; one that left
   * no directory makes the listing raise, which `raised` reports.
   */
  method StageChapter(dir: TempDir, partFile: string, chapter: Extraction, imageExtensions: seq<string>,
                      copyOk: nat -> bool, count: nat, ghost done: seq<string>, ghost base: set<Entry>)
    returns (imageCount: nat, raised: bool)
    requires count == |done|
    requires dir.entries == base + Written(StagedNames(done), copyOk)
    modifies dir
    ensures raised <==> chapter.NoDirectory?
    ensures raised ==> dir.entries == old(dir.entries)
    ensures !raised ==> imageCount == |done + ChapterImages(chapter, imageExtensions)|
    ensures !raised ==> dir.entries == base + ChapterDir(partFile, chapter)
                                       + Written(StagedNames(done + ChapterImages(chapter, imageExtensions)), copyOk)
  {
    imageCount, raised := count, false;
    match chapter
    case ExtractFailed =>
      assert done + [] == done;
    case NoDirectory =>
      raised := true;
    case Extracted(entries) =>
      dir.entries := dir.entries + {Dir(Stem(partFile))};
      UnionSwap(base, Written(StagedNames(done), copyOk), {Dir(Stem(partFile))});
      var images := GetSortedImages(entries, imageExtensions);
      if images != [] {
        imageCount := CopyImages(dir, done, images, imageCount, copyOk, base + {Dir(Stem(partFile))});
      } else {
        assert done + images == done;
      }
  }

  lemma UnionAssoc<T>(a: set<T>, b: set<T>, c: set<T>, d: set<T>)
    ensures a + b + c + d == a + (b + c) + d
  {
  }

  lemma UnionSwap<T>(a: set<T>, b: set<T>, c: set<T>)
    ensures a + b + c == a + c + b
  {
  }

  /** The staging list once the first `i` chapters are handled. */
  ghost function StagedPrefix(coverPart: seq<string>, extracted: seq<Extraction>,
                              imageExtensions: seq<string>, i: nat): seq<string>
    requires i <= |extracted|
  {
    coverPart + AllImages(extracted[..i], imageExtensions)
  }

  /** The chapter directories once the first `i` chapters are handled. */
  ghost function DirsPrefix(partFiles: seq<string>, extracted: seq<Extraction>, i: nat): set<Entry>
    requires |partFiles| == |extracted| && i <= |extracted|
  {
    ChapterDirs(partFiles[..i], extracted[..i])
  }

  lemma PrefixesStart(partFiles: seq<string>, coverPart: seq<string>, extracted: seq<Extraction>,
                      imageExtensions: seq<string>)
    requires |partFiles| == |extracted|
    ensures StagedPrefix(coverPart, extracted, imageExtensions, 0) == coverPart
    ensures DirsPrefix(partFiles, extracted, 0) == {}
  {
    assert extracted[..0] == [];
    assert AllImages([], imageExtensions) == [];
  }

  /** Handling chapter `i` adds its directory, if extracted, and its images. */
  lemma PrefixesStep(partFiles: seq<string>, coverPart: seq<string>, extracted: seq<Extraction>,
                     imageExtensions: seq<string>, i: nat)
    requires |partFiles| == |extracted| && i < |partFiles|
    ensures StagedPrefix(coverPart, extracted, imageExtensions, i + 1)
            == StagedPrefix(coverPart, extracted, imageExtensions, i) + ChapterImages(extracted[i], imageExtensions)
    ensures DirsPrefix(partFiles, extracted, i + 1)
            == DirsPrefix(partFiles, extracted, i) + ChapterDir(partFiles[i], extracted[i])
  {
    ImagesPrefixStep(coverPart, extracted, imageExtensions, i);
    DirsPrefixStep(partFiles, extracted, i);
  }

  lemma ImagesPrefixStep(coverPart: seq<string>, extracted: seq<Extraction>,
                         imageExtensions: seq<string>, i: nat)
    requires i < |extracted|
    ensures StagedPrefix(coverPart, extracted, imageExtensions, i + 1)
            == StagedPrefix(coverPart, extracted, imageExtensions, i) + ChapterImages(extracted[i], imageExtensions)
  {
    var before := extracted[..i];
    assert extracted[..i + 1] == before + [extracted[i]];
    AllImagesAppend(before, extracted[i], imageExtensions);
    var a, c := AllImages(before, imageExtensions), ChapterImages(extracted[i], imageExtensions);
    assert coverPart + (a + c) == (coverPart + a) + c;
  }

  lemma DirsPrefixStep(partFiles: seq<string>, extracted: seq<Extraction>, i: nat)
    requires |partFiles| == |extracted| && i < |partFiles|
    ensures DirsPrefix(partFiles, extracted, i + 1)
            == DirsPrefix(partFiles, extracted, i) + ChapterDir(partFiles[i], extracted[i])
  {
    assert partFiles[..i + 1][..i] == partFiles[..i] && extracted[..i + 1][..i] == extracted[..i];
  }

  /**
   * The inner loop of `get_pack_images_to_tmp_dir`: copies a chapter's
   * images under the ordinals that follow the `|done|` already used.
   */
  method CopyImages(dir: TempDir, ghost done: seq<string>, images: seq<string>, count: nat,
                    copyOk: nat -> bool, ghost base: set<Entry>)
    returns (imageCount: nat)
    requires count == |done|
    requires dir.entries == base + Written(StagedNames(done), copyOk)
    modifies dir
    ensures imageCount == |done + images|
    ensures dir.entries == base + Written(StagedNames(done + images), copyOk)
  {
    imageCount := count;
    var j := 0;
    assert done + images[..j] == done;
    while j < |images|
      invariant 0 <= j <= |images|
      invariant imageCount == |done + images[..j]|
      invariant dir.entries == base + Written(StagedNames(done + images[..j]), copyOk)
    {
      imageCount := imageCount + 1;
      var dest := StagedName(imageCount, images[j]);
      if copyOk(imageCount) {
        dir.entries := dir.entries + {File(dest)};
      }
      PrefixAppend(done, images, j);
      WrittenStep(done + images[..j], images[j], imageCount, copyOk);
      j := j + 1;
    }
    assert images[..j] == images;
  }

  lemma PrefixAppend<T>(a: seq<T>, b: seq<T>, j: nat)
    requires j < |b|
    ensures a + b[..j + 1] == (a + b[..j]) + [b[j]]
  {
    assert b[..j + 1] == b[..j] + [b[j]];
  }

  // ---------------------------------------------------------------------
  // create_combined_cbz
  // ---------------------------------------------------------------------

  /**
   * What `combine_to_cbz` reports: `True` when the range was already
   * combined, the `FileNotFoundError` that escapes it when a chapter left no
   * directory to list, `None` when no image was collected, `False` when there was
   * nothing to zip or the zip failed, and `True` with the archive's entry
   * names when the zip was written.
   */
  datatype CombineResult =
    | AlreadyCombined | NoChapterDir | NoImages | NothingToZip | ZipFailed | Zipped(archive: seq<string>)
  {
    /** Python's truth value of the returned object. */
    predicate Truthy() {
      this.AlreadyCombined? || this.Zipped?
    }
  }

  /** The order in which `create_combined_cbz` zips: the natural order of entry names. */
  predicate EntryLe(a: Entry, b: Entry) {
    Natural.NaturalLe(a.name, b.name)
  }

  lemma EntryLeTotalPreorder()
    ensures Sorting.TotalPreorder(EntryLe)
  {
    Natural.NaturalLeTotalPreorder();
    forall a: Entry, b: Entry ensures EntryLe(a, b) || EntryLe(b, a) {
      assert Natural.NaturalLe(a.name, b.name) || Natural.NaturalLe(b.name, a.name);
    }
    forall a: Entry, b: Entry, c: Entry | EntryLe(a, b) && EntryLe(b, c) ensures EntryLe(a, c) {
      assert Natural.NaturalLe(a.name, c.name);
    }
  }

  /** The names of the files of a listing, in order (`zip_files` skips everything else). */
  function FileNames(listing: seq<Entry>): seq<string> {
    if listing == [] then []
    else (if listing[0].File? then [listing[0].name] else []) + FileNames(listing[1..])
  }

  lemma {:induction false} FileNamesMultiset(listing: seq<Entry>, name: string)
    ensures multiset(FileNames(listing))[name] == multiset(listing)[File(name)]
  {
    if listing != [] {
      FileNamesMultiset(listing[1..], name);
      assert listing == [listing[0]] + listing[1..];
    }
  }

  /** Every name of `FileNames(listing)` comes from a file entry of the listing. */
  lemma {:induction false} FileNamesMember(listing: seq<Entry>, name: string) returns (k: nat)
    requires name in FileNames(listing)
    ensures k < |listing| && listing[k] == File(name)
  {
    if listing[0].File? && listing[0].name == name {
      k := 0;
    } else {
      var k' := FileNamesMember(listing[1..], name);
      k := k' + 1;
    }
  }

  lemma {:induction false} FileNamesSorted(listing: seq<Entry>)
    requires Sorting.Sorted(listing, EntryLe)
    ensures Sorting.Sorted(FileNames(listing), Natural.NaturalLe)
  {
    if listing != [] {
      FileNamesSorted(listing[1..]);
      var rest := FileNames(listing[1..]);
      if listing[0].File? {
        forall name | name in rest ensures Natural.NaturalLe(listing[0].name, name) {
          var k := FileNamesMember(listing[1..], name);
          assert EntryLe(listing[0], listing[k + 1]);
        }
        Sorting.SortedCons(listing[0].name, rest, Natural.NaturalLe);
      }
    }
  }

  /**
   * `create_combined_cbz(temp_dir, output)` given the directory's listing:
   * `False` for an empty directory or a failed zip, otherwise the files of
   * the listing, in natural order.
   */
  function CreateCombinedCbz(listing: seq<Entry>, zipOk: bool): (r: CombineResult)
    ensures r.NothingToZip? <==> listing == []
    ensures r.Zipped? <==> listing != [] && zipOk
    ensures r.Zipped? ==> Sorting.Sorted(r.archive, Natural.NaturalLe)
    ensures r.Zipped? ==> forall name :: multiset(r.archive)[name] == multiset(listing)[File(name)]
    ensures r.NothingToZip? || r.ZipFailed? || r.Zipped?
  {
    if listing == [] then NothingToZip
    else if !zipOk then ZipFailed
    else
      var sorted := Sorting.SortBy(listing, EntryLe);
      EntryLeTotalPreorder();
      Sorting.SortBySorted(listing, EntryLe);
      FileNamesSorted(sorted);
      forall name ensures multiset(FileNames(sorted))[name] == multiset(listing)[File(name)] {
        FileNamesMultiset(sorted, name);
      }
      Zipped(FileNames(sorted))
  }

  /** `temp_dir.glob("*")`: the directory's entries, each once, in an order the model leaves open. */
  method ListEntries(entries: set<Entry>) returns (listing: seq<Entry>)
    ensures forall e :: e in listing <==> e in entries
    ensures Sorting.Distinct(listing)
  {
    listing := [];
    var rest := entries;
    while rest != {}
      invariant forall e :: e in entries <==> e in listing || e in rest
      invariant forall e :: e in listing ==> e !in rest
      invariant Sorting.Distinct(listing)
      decreases |rest|
    {
      var e :| e in rest;
      listing := listing + [e];
      rest := rest - {e};
    }
  }

  // ---------------------------------------------------------------------
  // combine_to_cbz
  // ---------------------------------------------------------------------

  /** What a part's temporary directory holds once its images are staged. */
  function StagedEntries(partFiles: seq<string>, cover: Option<string>, coverExists: bool,
                         extracted: seq<Extraction>, imageExtensions: seq<string>,
                         copyOk: nat -> bool): set<Entry>
    requires |partFiles| == |extracted|
  {
    ChapterDirs(partFiles, extracted)
    + Written(StagedNames(StagingSources(cover, cover.Some?, coverExists, extracted, imageExtensions)), copyOk)
  }

  /** The successfully copied staged names, in ordinal order. */
  function CopiedNames(cover: Option<string>, coverExists: bool, extracted: seq<Extraction>,
                       imageExtensions: seq<string>, copyOk: nat -> bool): seq<string>
  {
    Sorting.Keep(StagedNames(StagingSources(cover, cover.Some?, coverExists, extracted, imageExtensions)), Copied(copyOk))
  }

  /**
   * The outcome of `combine_to_cbz` for a part: skipped when its range is
   * already processed, the error when a chapter left no directory, `None`
   * when no ordinal was used, otherwise the
   * outcome of zipping what was staged.
   */
  function CombineToCbzOutcome(status: StateManager.Status, chapterRange: string, partFiles: seq<string>,
                               cover: Option<string>, coverExists: bool,
                               extracted: seq<Extraction>, imageExtensions: seq<string>,
                               copyOk: nat -> bool, zipOk: bool): CombineResult
    requires |partFiles| == |extracted|
  {
    if StateManager.PartAlreadyProcessed(status, chapterRange) then AlreadyCombined
    else if FirstMissingDir(extracted) < |extracted| then NoChapterDir
    else if |StagingSources(cover, cover.Some?, coverExists, extracted, imageExtensions)| == 0 then NoImages
    else if StagedEntries(partFiles, cover, coverExists, extracted, imageExtensions, copyOk) == {} then NothingToZip
    else if !zipOk then ZipFailed
    else Zipped(CopiedNames(cover, coverExists, extracted, imageExtensions, copyOk))
  }

  /**
   * The outcomes of `combine_to_cbz`: skipped (and truthy) exactly when the
   * range is processed, the error exactly when it is not and some chapter
   * left no directory, `None` exactly when neither holds and no ordinal was used, and an
   * archive only when zipping succeeds, holding each staged file once and in
   * ordinal order.
   */
  lemma CombineToCbzCases(status: StateManager.Status, chapterRange: string, partFiles: seq<string>,
                          cover: Option<string>, coverExists: bool,
                          extracted: seq<Extraction>, imageExtensions: seq<string>,
                          copyOk: nat -> bool, zipOk: bool)
    requires |partFiles| == |extracted|
    ensures var r := CombineToCbzOutcome(status, chapterRange, partFiles, cover, coverExists, extracted,
                                         imageExtensions, copyOk, zipOk);
            var processed := StateManager.PartAlreadyProcessed(status, chapterRange);
            && (r == AlreadyCombined <==> processed)
            && (r == NoChapterDir <==> !processed && exists i :: 0 <= i < |extracted| && extracted[i].NoDirectory?)
            && (r == NoImages <==> && !processed && (forall i :: 0 <= i < |extracted| ==> !extracted[i].NoDirectory?)
                                   && |StagingSources(cover, cover.Some?, coverExists, extracted, imageExtensions)| == 0)
            && (r.Truthy() <==> processed || r.Zipped?)
            && (r.Zipped? ==> zipOk)
            && (r.Zipped? ==> Sorting.StrictlySorted(r.archive, Natural.NaturalLe))
            && (r.Zipped? ==> forall name :: name in r.archive <==>
                  File(name) in StagedEntries(partFiles, cover, coverExists, extracted, imageExtensions, copyOk))
  {
    var r := CombineToCbzOutcome(status, chapterRange, partFiles, cover, coverExists, extracted,
                                 imageExtensions, copyOk, zipOk);
    if r.Zipped? {
      CopiedNamesStrictlySorted(cover, coverExists, extracted, imageExtensions, copyOk);
      forall name
        ensures name in r.archive <==>
                File(name) in StagedEntries(partFiles, cover, coverExists, extracted, imageExtensions, copyOk)
      {
        StagedFiles(partFiles, cover, coverExists, extracted, imageExtensions, copyOk, name);
      }
    }
  }

  lemma {:induction false} ChapterDirsAreDirs(partFiles: seq<string>, extracted: seq<Extraction>, e: Entry)
    requires |partFiles| == |extracted| && e in ChapterDirs(partFiles, extracted)
    ensures e.Dir?
    decreases |partFiles|
  {
    var n := |partFiles| - 1;
    if e in ChapterDirs(partFiles[..n], extracted[..n]) {
      ChapterDirsAreDirs(partFiles[..n], extracted[..n], e);
    }
  }

  /** The files among the staged entries are the copied names. */
  lemma StagedFiles(partFiles: seq<string>, cover: Option<string>, coverExists: bool,
                    extracted: seq<Extraction>, imageExtensions: seq<string>,
                    copyOk: nat -> bool, name: string)
    requires |partFiles| == |extracted|
    ensures File(name) in StagedEntries(partFiles, cover, coverExists, extracted, imageExtensions, copyOk)
            <==> name in CopiedNames(cover, coverExists, extracted, imageExtensions, copyOk)
  {
    if File(name) in ChapterDirs(partFiles, extracted) {
      ChapterDirsAreDirs(partFiles, extracted, File(name));
    }
    WrittenFiles(StagedNames(StagingSources(cover, cover.Some?, coverExists, extracted, imageExtensions)), copyOk, name);
  }

  /** The copied names are strictly increasing in the natural order, hence distinct. */
  lemma CopiedNamesStrictlySorted(cover: Option<string>, coverExists: bool, extracted: seq<Extraction>,
                                  imageExtensions: seq<string>, copyOk: nat -> bool)
    ensures Sorting.StrictlySorted(CopiedNames(cover, coverExists, extracted, imageExtensions, copyOk), Natural.NaturalLe)
    ensures Sorting.Distinct(CopiedNames(cover, coverExists, extracted, imageExtensions, copyOk))
  {
    var sources := StagingSources(cover, cover.Some?, coverExists, extracted, imageExtensions);
    StagedNamesStrictlySorted(sources);
    Sorting.KeepStrictlySorted(StagedNames(sources), Copied(copyOk), Natural.NaturalLe);
    Sorting.StrictlySortedDistinct(CopiedNames(cover, coverExists, extracted, imageExtensions, copyOk), Natural.NaturalLe);
  }

  /** Each copied name is in the archive once, and nothing else is. */
  lemma ArchiveCounts(listing: seq<Entry>, partFiles: seq<string>, cover: Option<string>, coverExists: bool,
                      extracted: seq<Extraction>, imageExtensions: seq<string>, copyOk: nat -> bool,
                      name: string)
    requires |partFiles| == |extracted|
    requires forall e :: e in listing <==> e in StagedEntries(partFiles, cover, coverExists, extracted, imageExtensions, copyOk)
    requires Sorting.Distinct(listing) && listing != []
    ensures multiset(CreateCombinedCbz(listing, true).archive)[name]
            == multiset(CopiedNames(cover, coverExists, extracted, imageExtensions, copyOk))[name]
  {
    CopiedNamesStrictlySorted(cover, coverExists, extracted, imageExtensions, copyOk);
    Sorting.DistinctMultiset(listing, File(name));
    Sorting.DistinctMultiset(CopiedNames(cover, coverExists, extracted, imageExtensions, copyOk), name);
    StagedFiles(partFiles, cover, coverExists, extracted, imageExtensions, copyOk, name);
  }

  /**
   * Whatever order the directory is listed in, the archive holds exactly
   * the successfully copied images, in ordinal order.
   */
  lemma StagedArchive(listing: seq<Entry>, partFiles: seq<string>, cover: Option<string>, coverExists: bool,
                      extracted: seq<Extraction>, imageExtensions: seq<string>, copyOk: nat -> bool)
    requires |partFiles| == |extracted|
    requires forall e :: e in listing <==> e in StagedEntries(partFiles, cover, coverExists, extracted, imageExtensions, copyOk)
    requires Sorting.Distinct(listing) && listing != []
    ensures CreateCombinedCbz(listing, true) == Zipped(CopiedNames(cover, coverExists, extracted, imageExtensions, copyOk))
  {
    var copied := CopiedNames(cover, coverExists, extracted, imageExtensions, copyOk);
    var archive := CreateCombinedCbz(listing, true).archive;
    forall name ensures multiset(archive)[name] == multiset(copied)[name] {
      ArchiveCounts(listing, partFiles, cover, coverExists, extracted, imageExtensions, copyOk, name);
    }
    assert multiset(archive) == multiset(copied);
    CopiedNamesStrictlySorted(cover, coverExists, extracted, imageExtensions, copyOk);
    Sorting.SortedStrictUnique(archive, copied, Natural.NaturalLe);
  }

  /**
   * `combine_to_cbz`: skips a part whose range is already processed;
   * otherwise stages its images in a fresh temporary directory (inserting
   * the cover when one is given) and zips them unless staging raised or no
   * image was counted.
   */
  method CombineToCbz(status: StateManager.Status, chapterRange: string, partFiles: seq<string>,
                      cover: Option<string>, coverExists: bool,
                      extracted: seq<Extraction>, imageExtensions: seq<string>,
                      copyOk: nat -> bool, zipOk: bool)
    returns (r: CombineResult)
    requires |partFiles| == |extracted|
    ensures r == CombineToCbzOutcome(status, chapterRange, partFiles, cover, coverExists, extracted,
                                     imageExtensions, copyOk, zipOk)
  {
    if StateManager.PartAlreadyProcessed(status, chapterRange) {
      return AlreadyCombined;
    }
    var tempDir := new TempDir();
    var insertCover := cover.Some?;
    var imageCount := GetPackImagesToTmpDir(tempDir, partFiles, cover, insertCover, coverExists,
                                            extracted, imageExtensions, copyOk);
    if imageCount.None? {
      return NoChapterDir;
    }
    assert partFiles[..|partFiles|] == partFiles && extracted[..|extracted|] == extracted;
    if imageCount.value == 0 {
      return NoImages;
    }
    assert tempDir.entries == StagedEntries(partFiles, cover, coverExists, extracted, imageExtensions, copyOk);
    var listing := ListEntries(tempDir.entries);
    assert listing == [] <==> tempDir.entries == {} by {
      if listing == [] {
        assert forall e :: e !in tempDir.entries;
      } else {
        assert listing[0] in tempDir.entries;
      }
    }
    r := CreateCombinedCbz(listing, zipOk);
    if listing != [] && zipOk {
      StagedArchive(listing, partFiles, cover, coverExists, extracted, imageExtensions, copyOk);
    }
  }
}
