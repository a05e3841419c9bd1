/**
 * Chapter extraction and the choice of the cover image.
 *
 * A chapter archive is represented by what opening it yields: its member
 * names, or the error that opening raises. Writing the members out, copying
 * the cover and downloading it are outcomes passed in as parameters.
 */
module Extractor {
  import opened Wrappers
  import opened Strings
  import Sorting
  import Natural
  import Grouper

  /** A chapter archive: not a zip file, failing in some other way, or listing these members. */
  datatype Archive = BadZip | Broken | Members(names: seq<string>)

  // ---------------------------------------------------------------------
  // extract_cbz
  // ---------------------------------------------------------------------

  /**
   * `extract_cbz(cbz_path, extract_dir)`: whether extraction succeeded.
   * `writeOk` is the outcome of writing the members out.
   */
  function ExtractCbz(archive: Archive, writeOk: bool): (ok: bool)
    ensures ok ==> archive.Members?
  {
    archive.Members? && writeOk
  }

  /**
   * Neither kind of error lets extraction succeed, and a readable archive
   * is extracted exactly when its members can be written.
   */
  lemma ExtractCbzOutcomes(archive: Archive, writeOk: bool)
    ensures !ExtractCbz(BadZip, writeOk) && !ExtractCbz(Broken, writeOk)
    ensures archive.Members? ==> (ExtractCbz(archive, writeOk) <==> writeOk)
  {
  }

  /**
   * What `extract_cbz(cbz, temp_dir / cbz.stem)` leaves for staging: nothing
   * to list when it fails; no directory when it succeeds on an archive
   * without members, since `extractall` then creates nothing; otherwise the
   * directory, whose entries `iterdir` yields as `listing`.
   */
  function ChapterExtraction(archive: Archive, writeOk: bool, listing: seq<string>): Grouper.Extraction {
    if !ExtractCbz(archive, writeOk) then Grouper.ExtractFailed
    else if archive.names == [] then Grouper.NoDirectory
    else Grouper.Extracted(listing)
  }

  /**
   * A chapter is skipped exactly when `extract_cbz` reports failure, leaves
   * no directory exactly when it opens with no members and its extraction
   * succeeds, and is listed otherwise.
   */
  lemma ChapterExtractionCases(archive: Archive, writeOk: bool, listing: seq<string>)
    ensures var e := ChapterExtraction(archive, writeOk, listing);
            && (e.ExtractFailed? <==> !archive.Members? || !writeOk)
            && (e.NoDirectory? <==> archive == Members([]) && writeOk)
            && (e.Extracted? <==> archive.Members? && archive.names != [] && writeOk)
            && (e.Extracted? ==> e.entries == listing)
  {
  }

  // ---------------------------------------------------------------------
  // extract_first_cover_image
  // ---------------------------------------------------------------------

  /** `file.lower().endswith(IMAGE_EXTENSIONS)`: the test applied to the whole member name. */
  predicate IsCoverCandidate(name: string, imageExtensions: seq<string>) {
    EndsWithAny(Lower(name), imageExtensions)
  }

  /** The image members of an archive, in natural order. */
  function CoverCandidates(names: seq<string>, imageExtensions: seq<string>): seq<string> {
    Natural.NaturalSorted(Sorting.Filter(names, name => IsCoverCandidate(name, imageExtensions)))
  }

  /**
   * The last component of a name `NamedTemporaryFile` chooses before the
   * suffix is appended: non-empty and without a dot.
   */
  predicate IsTempName(tempName: string) {
    var base := Grouper.BaseName(tempName);
    base != [] && forall k :: 0 <= k < |base| ==> base[k] != '.'
  }

  /**
   * `extract_first_cover_image(cbz_files)`: the first image of the first
   * chapter, in natural order, copied to a temporary file that keeps the
   * image's suffix. `tempName` is the temporary file's path without that
   * suffix and `copyOk` the outcome of the copy; every error gives `None`.
   * The first chapter is taken unguarded, so the list must not be empty.
   */
  function ExtractFirstCoverImage(cbzFiles: seq<Archive>, imageExtensions: seq<string>,
                                  tempName: string, copyOk: bool): (cover: Option<string>)
    requires cbzFiles != []
  {
    match cbzFiles[0]
    case BadZip => None
    case Broken => None
    case Members(names) =>
      var images := CoverCandidates(names, imageExtensions);
      if images == [] || !copyOk then None
      else Some(tempName + Grouper.Suffix(images[0]))
  }

  /**
   * A cover is produced exactly when the first chapter opens, holds an
   * image and the copy succeeds; it is then named after an image member
   * that no other image member precedes in natural order.
   */
  lemma ExtractFirstCoverImageCorrect(cbzFiles: seq<Archive>, imageExtensions: seq<string>,
                                      tempName: string, copyOk: bool)
    requires cbzFiles != []
    ensures var cover := ExtractFirstCoverImage(cbzFiles, imageExtensions, tempName, copyOk);
            cover.Some? <==> (&& cbzFiles[0].Members? && copyOk
                              && exists name :: name in cbzFiles[0].names && IsCoverCandidate(name, imageExtensions))
    ensures var cover := ExtractFirstCoverImage(cbzFiles, imageExtensions, tempName, copyOk);
            cover.Some? ==> exists first ::
              (&& first in cbzFiles[0].names && IsCoverCandidate(first, imageExtensions)
               && (forall name :: name in cbzFiles[0].names && IsCoverCandidate(name, imageExtensions)
                                  ==> Natural.NaturalLe(first, name))
               && cover.value == tempName + Grouper.Suffix(first))
  {
    if cbzFiles[0].Members? {
      var names := cbzFiles[0].names;
      CandidatesHeadLeast(names, imageExtensions);
      var images := CoverCandidates(names, imageExtensions);
      if images != [] && copyOk {
        CoverFromHead(names, imageExtensions, images[0]);
      }
    }
  }

  /** The head of the candidates is an image member that precedes every image member. */
  lemma CoverFromHead(names: seq<string>, imageExtensions: seq<string>, first: string)
    requires CoverCandidates(names, imageExtensions) != []
    requires first == CoverCandidates(names, imageExtensions)[0]
    ensures first in names && IsCoverCandidate(first, imageExtensions)
    ensures forall name :: name in names && IsCoverCandidate(name, imageExtensions) ==> Natural.NaturalLe(first, name)
  {
    CandidatesHeadLeast(names, imageExtensions);
  }

  /** The candidates are exactly the image members, and the first of them precedes all. */
  lemma CandidatesHeadLeast(names: seq<string>, imageExtensions: seq<string>)
    ensures var images := CoverCandidates(names, imageExtensions);
            forall name :: name in images <==> name in names && IsCoverCandidate(name, imageExtensions)
    ensures var images := CoverCandidates(names, imageExtensions);
            images != [] ==> forall name :: name in images ==> Natural.NaturalLe(images[0], name)
  {
    var images := CoverCandidates(names, imageExtensions);
    forall name ensures name in images <==> name in names && IsCoverCandidate(name, imageExtensions) {
      CandidateMember(names, imageExtensions, name);
    }
    if images != [] {
      Natural.NaturalLeTotalPreorder();
      forall name | name in images ensures Natural.NaturalLe(images[0], name) {
        Sorting.SortedHeadLeast(images, Natural.NaturalLe, name);
      }
    }
  }

  /** The candidates are the image members, whatever their order. */
  lemma CandidateMember(names: seq<string>, imageExtensions: seq<string>, name: string)
    ensures name in CoverCandidates(names, imageExtensions) <==> name in names && IsCoverCandidate(name, imageExtensions)
  {
    Sorting.FilterMultiset(names, name => IsCoverCandidate(name, imageExtensions), name);
    assert name in CoverCandidates(names, imageExtensions) <==> multiset(CoverCandidates(names, imageExtensions))[name] > 0;
    assert name in names <==> multiset(names)[name] > 0;
  }

  /**
   * The temporary file's name ends in the suffix it was given, so it keeps
   * the suffix of the image it copies.
   */
  lemma TempNameSuffix(tempName: string, image: string)
    requires IsTempName(tempName)
    ensures Grouper.Suffix(tempName + Grouper.Suffix(image)) == Grouper.Suffix(image)
  {
    var s := Grouper.Suffix(image);
    SuffixHasNoSlash(image);
    Grouper.BaseNameAppend(tempName, s);
    SuffixAfterDotless(tempName, s);
  }

  /** A suffix lies inside the last component, so it has no `/`. */
  lemma SuffixHasNoSlash(p: string)
    ensures forall k :: 0 <= k < |Grouper.Suffix(p)| ==> Grouper.Suffix(p)[k] != '/'
  {
    var s, b := Grouper.Suffix(p), Grouper.BaseName(p);
    assert EndsWith(b, s);
    forall k | 0 <= k < |s| ensures s[k] != '/' {
      assert s[k] == b[|b| - |s| + k];
    }
  }

  /** A suffix appended to a last component without dots is the suffix of the result. */
  lemma SuffixAfterDotless(t: string, s: string)
    requires IsTempName(t)
    requires Grouper.BaseName(t + s) == Grouper.BaseName(t) + s
    requires s == [] || (|s| >= 2 && s[0] == '.' && forall k :: 0 < k < |s| ==> s[k] != '.')
    ensures Grouper.Suffix(t + s) == s
  {
    var base := Grouper.BaseName(t);
    var name := base + s;
    if s == [] {
      assert name == base;
    } else {
      assert name[|base|] == '.';
      assert NoDotAfter(name, |base|) by {
        forall k | |base| < k < |name| ensures name[k] != '.' {
          assert name[k] == s[k - |base|];
        }
      }
      assert name[..|base|] == base;
      assert name[|base|..] == s;
    }
  }

  /** No dot in `s` after position `i`. */
  predicate NoDotAfter(s: string, i: int) {
    forall k :: 0 <= k < |s| && i < k ==> s[k] != '.'
  }

  /** The cover keeps the suffix of the image it was copied from. */
  lemma CoverKeepsSuffix(cbzFiles: seq<Archive>, imageExtensions: seq<string>, tempName: string, copyOk: bool)
    requires cbzFiles != [] && IsTempName(tempName)
    ensures var cover := ExtractFirstCoverImage(cbzFiles, imageExtensions, tempName, copyOk);
            cover.Some? ==> exists first ::
              first in cbzFiles[0].names && IsCoverCandidate(first, imageExtensions)
              && Grouper.Suffix(cover.value) == Grouper.Suffix(first)
  {
    var cover := ExtractFirstCoverImage(cbzFiles, imageExtensions, tempName, copyOk);
    if cover.Some? {
      ExtractFirstCoverImageCorrect(cbzFiles, imageExtensions, tempName, copyOk);
      var first :| first in cbzFiles[0].names && IsCoverCandidate(first, imageExtensions)
                   && cover.value == tempName + Grouper.Suffix(first);
      TempNameSuffix(tempName, first);
    }
  }

  // ---------------------------------------------------------------------
  // extract_and_save_cover_image
  // ---------------------------------------------------------------------

  /** `fetch and cover_image_url`: fetching is asked for and the URL is a non-empty string. */
  predicate FetchesCover(fetch: bool, coverImageUrl: Option<string>) {
    fetch && coverImageUrl.Some? && coverImageUrl.value != []
  }

  /**
   * `extract_and_save_cover_image(cbz_files, manga_name, fetch, cover_image_url)`:
   * no cover without chapters; the downloaded cover when fetching is asked
   * for with a URL (`downloaded` is what the download gives); the first
   * chapter's first image otherwise.
   */
  function ExtractAndSaveCoverImage(cbzFiles: seq<Archive>, fetch: bool, coverImageUrl: Option<string>,
                                    downloaded: Option<string>, imageExtensions: seq<string>,
                                    tempName: string, copyOk: bool): (cover: Option<string>)
  {
    if cbzFiles == [] then None
    else if FetchesCover(fetch, coverImageUrl) then downloaded
    else ExtractFirstCoverImage(cbzFiles, imageExtensions, tempName, copyOk)
  }

  /**
   * Where a cover comes from: never from an empty list; from the download
   * when fetching with a URL; otherwise from an image member of the first
   * chapter whose suffix it keeps.
   */
  lemma CoverOrigin(cbzFiles: seq<Archive>, fetch: bool, coverImageUrl: Option<string>,
                    downloaded: Option<string>, imageExtensions: seq<string>,
                    tempName: string, copyOk: bool)
    requires IsTempName(tempName)
    ensures var cover := ExtractAndSaveCoverImage(cbzFiles, fetch, coverImageUrl, downloaded,
                                                  imageExtensions, tempName, copyOk);
            && (cbzFiles == [] ==> cover == None)
            && (cbzFiles != [] && FetchesCover(fetch, coverImageUrl) ==> cover == downloaded)
            && (cbzFiles != [] && !FetchesCover(fetch, coverImageUrl) && cover.Some? ==>
                  exists first ::
                    first in cbzFiles[0].names && IsCoverCandidate(first, imageExtensions)
                    && Grouper.Suffix(cover.value) == Grouper.Suffix(first))
  {
    if cbzFiles != [] && !FetchesCover(fetch, coverImageUrl) {
      CoverKeepsSuffix(cbzFiles, imageExtensions, tempName, copyOk);
    }
  }

  /** Without fetching, a failed first chapter means no cover, whatever the later chapters hold. */
  lemma NoCoverFromFailedFirstChapter(cbzFiles: seq<Archive>, coverImageUrl: Option<string>,
                                      downloaded: Option<string>, imageExtensions: seq<string>,
                                      tempName: string, copyOk: bool)
    requires cbzFiles != [] && !cbzFiles[0].Members?
    ensures ExtractAndSaveCoverImage(cbzFiles, false, coverImageUrl, downloaded,
                                     imageExtensions, tempName, copyOk) == None
  {
  }
}
