/**
 * Rebuilding an archive with a flat layout: every image file of the
 * extracted archive, in plain string order of its path, is copied to a
 * `fixed` folder as `0000.jpg`, `0001.png`, ... and the new archive holds
 * what that folder holds.
 *
 * The walk of the extracted tree and the folder contents stand in for the
 * file system; extraction, copying and zipping that raise an error abort
 * the run and are not modelled.
 */
module FixCbz {
  import opened Strings
  import Sorting
  import Natural
  import Grouper

  const ImageSuffixes: seq<string> := [".jpg", ".jpeg", ".png", ".gif"]

  /** `file.lower().endswith((".jpg", ".jpeg", ".png", ".gif"))` */
  predicate IsFixImage(file: string) {
    EndsWithAny(Lower(file), ImageSuffixes)
  }

  /** One directory visited by `os.walk`: its path and the names of the files in it. */
  datatype WalkStep = WalkStep(root: string, files: seq<string>)

  /** No `/` in a name. */
  predicate IsPlainName(s: string) {
    forall k :: 0 <= k < |s| ==> s[k] != '/'
  }

  /** `os.path.join(root, file)` */
  function Join(root: string, file: string): string {
    if root == [] || root[|root| - 1] == '/' then root + file else root + "/" + file
  }

  /** What `os.path.join` puts before the file name: the root, with a `/` unless it has one. */
  function JoinPrefix(root: string): (t: string)
    ensures t == [] || t[|t| - 1] == '/'
  {
    if root == [] || root[|root| - 1] == '/' then root else root + "/"
  }

  lemma JoinSplit(root: string, file: string)
    ensures Join(root, file) == JoinPrefix(root) + file
  {
  }

  // ---------------------------------------------------------------------
  // Collecting the images
  // ---------------------------------------------------------------------

  /** The image paths of the files of one directory, in listing order. */
  function DirImages(root: string, files: seq<string>): (r: seq<string>)
    ensures |r| <= |files|
  {
    if files == [] then []
    else
      var last := files[|files| - 1];
      DirImages(root, files[..|files| - 1]) + (if IsFixImage(last) then [Join(root, last)] else [])
  }

  /** `all_images` once the walk is over: the image paths of each directory, directory after directory. */
  function ImagePaths(walk: seq<WalkStep>): seq<string> {
    if walk == [] then []
    else ImagePaths(walk[..|walk| - 1]) + DirImages(walk[|walk| - 1].root, walk[|walk| - 1].files)
  }

  /** `for root, _, files in os.walk(temp_dir): for file in files: ...append(...)` */
  method CollectImages(walk: seq<WalkStep>) returns (allImages: seq<string>)
    ensures allImages == ImagePaths(walk)
  {
    allImages := [];
    var i := 0;
    while i < |walk|
      invariant 0 <= i <= |walk|
      invariant allImages == ImagePaths(walk[..i])
    {
      var root, files := walk[i].root, walk[i].files;
      ghost var before := allImages;
      var j := 0;
      while j < |files|
        invariant 0 <= j <= |files|
        invariant allImages == before + DirImages(root, files[..j])
      {
        assert files[..j + 1][..j] == files[..j];
        if IsFixImage(files[j]) {
          allImages := allImages + [Join(root, files[j])];
        }
        j := j + 1;
      }
      assert files[..j] == files;
      assert walk[..i + 1][..i] == walk[..i];
      i := i + 1;
    }
    assert walk[..i] == walk;
  }

  /** File `k` of a directory is an image whose path is `p`. */
  predicate DirImageAt(root: string, files: seq<string>, k: int, p: string) {
    0 <= k < |files| && IsFixImage(files[k]) && p == Join(root, files[k])
  }

  /** The paths collected from one directory are its image files. */
  lemma {:induction false} DirImagesMembers(root: string, files: seq<string>, p: string)
    ensures p in DirImages(root, files) <==> exists k :: DirImageAt(root, files, k, p)
  {
    if files != [] {
      var init, last := files[..|files| - 1], files[|files| - 1];
      DirImagesMembers(root, init, p);
      if exists k :: DirImageAt(root, files, k, p) {
        var k :| DirImageAt(root, files, k, p);
        if k < |init| {
          assert DirImageAt(root, init, k, p);
        }
      }
      forall k | DirImageAt(root, init, k, p) ensures DirImageAt(root, files, k, p) {
        assert init[k] == files[k];
      }
      if IsFixImage(last) && p == Join(root, last) {
        assert DirImageAt(root, files, |files| - 1, p);
      }
    }
  }

  /** File `k` of the `i`-th directory visited is an image whose path is `p`. */
  predicate ImageAt(walk: seq<WalkStep>, i: int, k: int, p: string) {
    0 <= i < |walk| && DirImageAt(walk[i].root, walk[i].files, k, p)
  }

  /** A path is collected exactly when it names an image file of a visited directory. */
  lemma {:induction false} ImagePathsMembers(walk: seq<WalkStep>, p: string)
    ensures p in ImagePaths(walk) <==> exists i, k :: ImageAt(walk, i, k, p)
  {
    if walk != [] {
      var init, last := walk[..|walk| - 1], walk[|walk| - 1];
      ImagePathsMembers(init, p);
      DirImagesMembers(last.root, last.files, p);
      if exists i, k :: ImageAt(walk, i, k, p) {
        var i, k :| ImageAt(walk, i, k, p);
        if i < |init| {
          assert init[i] == walk[i];
          assert ImageAt(init, i, k, p);
        } else {
          assert DirImageAt(last.root, last.files, k, p);
        }
      }
      forall i, k | ImageAt(init, i, k, p) ensures ImageAt(walk, i, k, p) {
        assert init[i] == walk[i];
      }
      forall k | DirImageAt(last.root, last.files, k, p) ensures ImageAt(walk, |walk| - 1, k, p) {
      }
    }
  }

  // ---------------------------------------------------------------------
  // Sorting: plain string order
  // ---------------------------------------------------------------------

  lemma StrLeTotalPreorder()
    ensures Sorting.TotalPreorder(StrLe)
  {
    forall x, y ensures StrLe(x, y) || StrLe(y, x) {
      CompareStringsFlip(x, y);
    }
    forall x, y, z | StrLe(x, y) && StrLe(y, z) ensures StrLe(x, z) {
      CompareStringsTransitive(x, y, z);
    }
  }

  /** `all_images.sort()`: the paths in plain string order. */
  function SortPaths(paths: seq<string>): (r: seq<string>)
    ensures multiset(r) == multiset(paths)
    ensures Sorting.Sorted(r, StrLe)
  {
    StrLeTotalPreorder();
    Sorting.SortBySorted(paths, StrLe);
    Sorting.SortBy(paths, StrLe)
  }

  /** Plain order is not natural order: page 10 comes before page 2. */
  lemma PlainOrderIsNotNatural()
    ensures SortPaths(["t/p2.jpg", "t/p10.jpg"]) == ["t/p10.jpg", "t/p2.jpg"]
  {
    var a, b := "t/p2.jpg", "t/p10.jpg";
    assert CompareStrings(a, b) == CompareStrings(a[1..], b[1..]);
    assert CompareStrings(a[1..], b[1..]) == CompareStrings(a[2..], b[2..]);
    assert CompareStrings(a[2..], b[2..]) == CompareStrings(a[3..], b[3..]);
    assert a[3] == '2' && b[3] == '1';
    assert !StrLe(a, b);
    assert Sorting.SortBy([b], StrLe) == [b];
    assert [a, b][1..] == [b];
  }

  // ---------------------------------------------------------------------
  // Renaming
  // ---------------------------------------------------------------------

  /** Every character of `s` is a dot. */
  predicate AllDots(s: string) {
    forall k :: 0 <= k < |s| ==> s[k] == '.'
  }

  /** Whether the last component of `p` has a character other than a dot. */
  predicate NameHasNonDot(p: string) {
    p != [] && p[|p| - 1] != '/' && (p[|p| - 1] != '.' || NameHasNonDot(p[..|p| - 1]))
  }

  /**
   * `os.path.splitext(p)[1]`: from the last dot of the last component, when
   * something other than dots precedes that dot in the component.
   */
  function SplitExt(p: string): (ext: string)
    ensures |ext| <= |p|
  {
    if p == [] || p[|p| - 1] == '/' then []
    else if p[|p| - 1] == '.' then (if NameHasNonDot(p[..|p| - 1]) then "." else [])
    else
      var e := SplitExt(p[..|p| - 1]);
      if e == [] then [] else e + [p[|p| - 1]]
  }

  /** An extension is a dot and then no dot, at the end of the path. */
  lemma {:induction false} SplitExtShape(p: string)
    ensures var ext := SplitExt(p);
            && (ext == [] || ext[0] == '.')
            && p[|p| - |ext|..] == ext
            && forall k :: 0 < k < |ext| ==> ext[k] != '.'
  {
    if p != [] && p[|p| - 1] != '/' && p[|p| - 1] != '.' {
      var init := p[..|p| - 1];
      SplitExtShape(init);
      var e := SplitExt(init);
      if e != [] {
        assert p[|p| - |e| - 1..] == init[|init| - |e|..] + [p[|p| - 1]];
      }
    }
  }

  /** A dot, then text without dots or `/`: the extension is that dot and text, or nothing. */
  lemma {:induction false} SplitExtLastDot(s: string, q: string)
    requires forall k :: 0 <= k < |q| ==> q[k] != '.' && q[k] != '/'
    ensures SplitExt(s + "." + q) == if NameHasNonDot(s) then "." + q else []
    decreases |q|
  {
    if q == [] {
      assert s + "." + q == s + ".";
      assert (s + ".")[..|s|] == s;
    } else {
      var init := q[..|q| - 1];
      SplitExtLastDot(s, init);
      assert (s + "." + q)[..|s + "." + q| - 1] == s + "." + init;
      assert "." + init + [q[|q| - 1]] == "." + q;
    }
  }

  /** After a `/`, the last component is the file name, and it has a non-dot exactly when it is not all dots. */
  lemma {:induction false} NameHasNonDotAfterSep(t: string, f: string)
    requires t == [] || t[|t| - 1] == '/'
    requires IsPlainName(f)
    ensures NameHasNonDot(t + f) <==> !AllDots(f)
    decreases |f|
  {
    if f == [] {
      assert t + f == t;
    } else {
      var init, last := f[..|f| - 1], f[|f| - 1];
      NameHasNonDotAfterSep(t, init);
      assert (t + f)[..|t + f| - 1] == t + init;
      assert AllDots(f) <==> AllDots(init) && last == '.' by {
        if AllDots(init) && last == '.' {
          forall k | 0 <= k < |f| ensures f[k] == '.' {
            if k < |init| {
              assert f[k] == init[k];
            }
          }
        }
        if AllDots(f) {
          forall k | 0 <= k < |init| ensures init[k] == '.' {
            assert init[k] == f[k];
          }
        }
      }
    }
  }

  /** `os.path.splitext(p)[0]`: the path without that extension. */
  function SplitRoot(p: string): string {
    p[..|p| - |SplitExt(p)|]
  }

  lemma SplitRootExt(p: string)
    ensures SplitRoot(p) + SplitExt(p) == p
  {
    SplitExtShape(p);
  }

  /** `f"{i:04}{ext}"` */
  function NewName(i: nat, path: string): string {
    ZeroPad(i, 4) + SplitExt(path)
  }

  /** `f(i, s[i])` for each position `i` (from 0) of `s`. */
  function Numbered<T>(s: seq<T>, f: (nat, T) -> string): (r: seq<string>)
    ensures |r| == |s|
  {
    if s == [] then [] else Numbered(s[..|s| - 1], f) + [f(|s| - 1, s[|s| - 1])]
  }

  lemma NumberedAppend<T>(s: seq<T>, x: T, f: (nat, T) -> string)
    ensures Numbered(s + [x], f) == Numbered(s, f) + [f(|s|, x)]
  {
    assert (s + [x])[..|s|] == s;
  }

  lemma {:induction false} NumberedAt<T>(s: seq<T>, f: (nat, T) -> string, k: nat)
    requires k < |s|
    ensures Numbered(s, f)[k] == f(k, s[k])
  {
    var init := s[..|s| - 1];
    if k < |init| {
      NumberedAt(init, f, k);
      assert init[k] == s[k];
    }
  }

  /** The new name of each image, by its position (from 0). */
  function NewNames(images: seq<string>): (r: seq<string>)
    ensures |r| == |images|
  {
    Numbered(images, NewName)
  }

  lemma NewNamesAt(images: seq<string>, k: nat)
    requires k < |images|
    ensures NewNames(images)[k] == NewName(k, images[k])
  {
    NumberedAt(images, NewName, k);
  }

  /** A numeral followed by an extension: where the numeral ends is decided by the first non-digit. */
  lemma NumeralThenExt(d: string, e: string, d': string, e': string)
    requires IsDigitString(d) && IsDigitString(d')
    requires e == [] || e[0] == '.'
    requires e' == [] || e'[0] == '.'
    requires d + e == d' + e'
    ensures d == d' && e == e'
  {
    var n := d + e;
    assert forall k :: 0 <= k < |d| ==> n[k] == d[k];
    assert forall k :: 0 <= k < |d'| ==> n[k] == d'[k];
    assert |n| == |d| || n[|d|] == '.';
    assert |n| == |d'| || n[|d'|] == '.';
    assert |d| == |d'|;
    assert d == n[..|d|] && d' == n[..|d'|];
  }

  /** Two images never get the same name, however many there are. */
  lemma NewNameInjective(i: nat, j: nat, p: string, q: string)
    requires NewName(i, p) == NewName(j, q)
    ensures i == j && SplitExt(p) == SplitExt(q)
  {
    SplitExtShape(p);
    SplitExtShape(q);
    NumeralThenExt(ZeroPad(i, 4), SplitExt(p), ZeroPad(j, 4), SplitExt(q));
    ZeroPadInjective(i, j, 4);
  }

  lemma NewNamesDistinct(images: seq<string>)
    ensures Sorting.Distinct(NewNames(images))
  {
    var r := NewNames(images);
    forall i, j | 0 <= i < j < |r| ensures r[i] != r[j] {
      NewNamesAt(images, i);
      NewNamesAt(images, j);
      if r[i] == r[j] {
        NewNameInjective(i, j, images[i], images[j]);
      }
    }
  }

  /** New names follow the images' positions in natural order. */
  lemma NewNamesOrdered(m: nat, n: nat, p: string, q: string)
    requires m < n
    ensures Natural.NaturalLe(NewName(m, p), NewName(n, q))
    ensures !Natural.NaturalLe(NewName(n, q), NewName(m, p))
  {
    SplitExtShape(p);
    SplitExtShape(q);
    PaddedOrdered(m, n, SplitExt(p), SplitExt(q));
  }

  /** Padded numbers followed by extensions compare naturally by the numbers. */
  lemma PaddedOrdered(m: nat, n: nat, e: string, e': string)
    requires m < n
    requires e == [] || e[0] == '.'
    requires e' == [] || e'[0] == '.'
    ensures Natural.NaturalLe(ZeroPad(m, 4) + e, ZeroPad(n, 4) + e')
    ensures !Natural.NaturalLe(ZeroPad(n, 4) + e', ZeroPad(m, 4) + e)
  {
    ZeroPadValue(m, 4);
    ZeroPadValue(n, 4);
    NumeralsOrdered(ZeroPad(m, 4), ZeroPad(n, 4), e, e');
  }

  /** Numerals followed by extensions compare naturally by their values. */
  lemma NumeralsOrdered(d: string, d': string, e: string, e': string)
    requires IsDigitString(d) && IsDigitString(d') && DigitsValue(d) < DigitsValue(d')
    requires e == [] || e[0] == '.'
    requires e' == [] || e'[0] == '.'
    ensures Natural.NaturalLe(d + e, d' + e')
    ensures !Natural.NaturalLe(d' + e', d + e)
  {
    NumeralKey(d, e);
    NumeralKey(d', e');
    var m, n := DigitsValue(d), DigitsValue(d');
    var k, k' := Natural.NaturalSortKey(e), Natural.NaturalSortKey(e');
    Natural.CompareAtNumber([], m, n, k, k');
    Natural.CompareAtNumber([], n, m, k', k);
  }

  /** The sort key of a numeral and an extension: no text, the number, then the extension's key. */
  lemma NumeralKey(d: string, e: string)
    requires IsDigitString(d)
    requires e == [] || e[0] == '.'
    ensures Natural.NaturalSortKey(d + e) == [Natural.Text([]), Natural.Num(DigitsValue(d))] + Natural.NaturalSortKey(e)
  {
    assert d + e == [] + d + e;
    Natural.KeyCons([], d, e);
    assert Lower([]) == [];
  }

  /** A reader sorting the new archive naturally sees the pages in the order they were numbered. */
  lemma NewNamesNaturallySorted(images: seq<string>)
    ensures Sorting.StrictlySorted(NewNames(images), Natural.NaturalLe)
  {
    var r := NewNames(images);
    forall i, j | 0 <= i < j < |r|
      ensures Natural.NaturalLe(r[i], r[j]) && !Natural.NaturalLe(r[j], r[i])
    {
      NewNamesAt(images, i);
      NewNamesAt(images, j);
      NewNamesOrdered(i, j, images[i], images[j]);
    }
  }

  /** Why plain order of the new names holds only below 10000 images: `10000` sorts before `1001`. */
  lemma PlainOrderBreaksAt10000(ext: string, ext': string)
    ensures ZeroPad(10000, 4) == "10000" && ZeroPad(1001, 4) == "1001"
    ensures !StrLe(ZeroPad(1001, 4) + ext', ZeroPad(10000, 4) + ext)
  {
    assert NatToString(10) == "10";
    assert NatToString(100) == "100";
    assert NatToString(1000) == "1000";
    assert NatToString(1001) == "1001";
    assert NatToString(10000) == "10000";
    var x, y := "1" + ext', "00" + ext;
    assert CompareStrings(x, y) == Greater;
    CompareCommonPrefix("100", x, y);
    assert "1001" + ext' == "100" + x;
    assert "10000" + ext == "100" + y;
  }

  /** A common prefix does not change how two strings compare. */
  lemma {:induction false} CompareCommonPrefix(t: string, x: string, y: string)
    ensures CompareStrings(t + x, t + y) == CompareStrings(x, y)
  {
    if t == [] {
      assert t + x == x && t + y == y;
    } else {
      CompareCommonPrefix(t[1..], x, y);
      assert (t + x)[0] == t[0] == (t + y)[0];
      assert (t + x)[1..] == t[1..] + x;
      assert (t + y)[1..] == t[1..] + y;
    }
  }

  // ---------------------------------------------------------------------
  // The extension of a renamed image
  // ---------------------------------------------------------------------

  /** The image suffixes are a dot and then no dot. */
  lemma ImageSuffixShape(e: string)
    requires e in ImageSuffixes
    ensures 2 <= |e| && e[0] == '.' && forall k :: 0 < k < |e| ==> e[k] != '.'
  {
  }

  /**
   * An image file whose name has something other than dots before its
   * image suffix keeps that suffix, in its original case.
   */
  lemma RenamedImageKeepsExtension(root: string, file: string, e: string)
    requires IsPlainName(file) && e in ImageSuffixes && EndsWith(Lower(file), e)
    requires !AllDots(file[..|file| - |e|])
    ensures SplitExt(Join(root, file)) == file[|file| - |e|..]
    ensures Lower(SplitExt(Join(root, file))) == e
  {
    var f0, q := ImageNameParts(file, e);
    JoinSplit(root, file);
    ExtAfterComponent(JoinPrefix(root), f0, q);
  }

  /** An image file name is a stem, a dot and a part without dots, as its suffix says. */
  lemma ImageNameParts(file: string, e: string) returns (f0: string, q: string)
    requires IsPlainName(file) && e in ImageSuffixes && EndsWith(Lower(file), e)
    ensures file == f0 + "." + q
    ensures f0 == file[..|file| - |e|] && "." + q == file[|file| - |e|..]
    ensures Lower("." + q) == e
    ensures IsPlainName(f0)
    ensures forall k :: 0 <= k < |q| ==> q[k] != '.' && q[k] != '/'
  {
    var n, m := |file|, |e|;
    ImageSuffixShape(e);
    LowerSlice(file, n - m, n);
    f0, q := file[..n - m], file[n - m + 1..];
    assert file[n - m] == '.' by {
      assert Lower(file[n - m..])[0] == LowerChar(file[n - m]);
    }
    assert "." + q == file[n - m..];
    forall k | 0 <= k < |q| ensures q[k] != '.' && q[k] != '/' {
      assert q[k] == file[n - m + 1 + k];
      assert Lower(file[n - m..])[k + 1] == LowerChar(file[n - m + 1 + k]);
    }
    forall k | 0 <= k < |f0| ensures f0[k] != '/' {
      assert f0[k] == file[k];
    }
  }

  /**
   * The extension of a path whose last component is `f0`, a dot and `q`:
   * that dot and `q`, unless `f0` is only dots.
   */
  lemma ExtAfterComponent(t: string, f0: string, q: string)
    requires t == [] || t[|t| - 1] == '/'
    requires IsPlainName(f0)
    requires forall k :: 0 <= k < |q| ==> q[k] != '.' && q[k] != '/'
    ensures SplitExt(t + (f0 + "." + q)) == if AllDots(f0) then [] else "." + q
  {
    assert t + (f0 + "." + q) == (t + f0) + "." + q;
    NameHasNonDotAfterSep(t, f0);
    SplitExtLastDot(t + f0, q);
  }

  /** A hidden file such as `.jpg` has no extension by `splitext`, so its copy has none either. */
  lemma HiddenImageLosesExtension(root: string, i: nat)
    ensures IsFixImage(".jpg")
    ensures SplitExt(Join(root, ".jpg")) == []
    ensures NewName(i, Join(root, ".jpg")) == ZeroPad(i, 4)
  {
    assert Lower(".jpg") == ".jpg";
    assert EndsWith(Lower(".jpg"), ImageSuffixes[0]);
    JoinSplit(root, ".jpg");
    assert ".jpg" == [] + "." + "jpg";
    ExtAfterComponent(JoinPrefix(root), [], "jpg");
  }

  // ---------------------------------------------------------------------
  // fix_cbz_structure
  // ---------------------------------------------------------------------

  /** The elements of a sequence, as a set. */
  function Elements(s: seq<string>): set<string> {
    if s == [] then {} else Elements(s[..|s| - 1]) + {s[|s| - 1]}
  }

  lemma ElementsAppend(s: seq<string>, x: string)
    ensures Elements(s + [x]) == Elements(s) + {x}
  {
    assert (s + [x])[..|s|] == s;
  }

  lemma {:induction false} ElementsMembers(s: seq<string>, x: string)
    ensures x in Elements(s) <==> x in s
  {
    if s != [] {
      ElementsMembers(s[..|s| - 1], x);
      assert s == s[..|s| - 1] + [s[|s| - 1]];
    }
  }

  /** Distinct elements make a set of the same size: one file per image. */
  lemma {:induction false} ElementsOfDistinct(s: seq<string>)
    requires Sorting.Distinct(s)
    ensures |Elements(s)| == |s|
  {
    if s != [] {
      var init, last := s[..|s| - 1], s[|s| - 1];
      ElementsOfDistinct(init);
      ElementsMembers(init, last);
      assert last !in init by {
        forall k | 0 <= k < |init| ensures init[k] != last {
          assert init[k] == s[k];
        }
      }
    }
  }

  /** A directory on disk, by the paths of the files below it. */
  class Folder {
    var files: set<string>

    constructor(files0: set<string>)
      ensures files == files0
    {
      files := files0;
    }
  }

  /** `for i, img_path in enumerate(all_images): shutil.copy(img_path, fixed_dir / new_name)` */
  method CopyRenamed(images: seq<string>, fixed: Folder)
    modifies fixed
    ensures fixed.files == old(fixed.files) + Elements(NewNames(images))
  {
    var i := 0;
    while i < |images|
      invariant 0 <= i <= |images|
      invariant fixed.files == old(fixed.files) + Elements(NewNames(images[..i]))
    {
      var newName := NewName(i, images[i]);
      CopyStep(images, i);
      fixed.files := fixed.files + {newName};
      i := i + 1;
    }
    assert images[..i] == images;
  }

  /** One more copy adds the new name of the next image. */
  lemma CopyStep(images: seq<string>, i: nat)
    requires i < |images|
    ensures Elements(NewNames(images[..i + 1])) == Elements(NewNames(images[..i])) + {NewName(i, images[i])}
  {
    assert images[..i + 1] == images[..i] + [images[i]];
    NumberedAppend(images[..i], images[i], NewName);
    ElementsAppend(NewNames(images[..i]), NewName(i, images[i]));
  }

  /** The image paths the run copies, in the order it numbers them. */
  function FixedImages(walk: seq<WalkStep>): seq<string> {
    SortPaths(ImagePaths(walk))
  }

  /**
   * `fix_cbz_structure(input_cbz_path, output_cbz_path)`. `walk` is what
   * `os.walk` visits in the extracted archive and `fixed` the `fixed`
   * folder (which already holds whatever the archive had under `fixed/`).
   * The result is the set of member names of the new archive.
   */
  method FixCbzStructure(walk: seq<WalkStep>, fixed: Folder) returns (archive: set<string>)
    modifies fixed
    ensures fixed.files == old(fixed.files) + Elements(NewNames(FixedImages(walk)))
    ensures archive == fixed.files
  {
    var allImages := CollectImages(walk);
    allImages := SortPaths(allImages);
    CopyRenamed(allImages, fixed);
    archive := fixed.files;
  }

  /**
   * The files the run adds: one renamed copy per image file, and a name is
   * added exactly when it is the new name of the image at its position.
   */
  lemma FixedArchiveContents(walk: seq<WalkStep>, name: string)
    ensures |Elements(NewNames(FixedImages(walk)))| == |ImagePaths(walk)|
    ensures name in Elements(NewNames(FixedImages(walk))) <==>
            exists i :: 0 <= i < |FixedImages(walk)| && name == NewName(i, FixedImages(walk)[i])
  {
    var images := FixedImages(walk);
    NewNamesDistinct(images);
    ElementsOfDistinct(NewNames(images));
    ElementsMembers(NewNames(images), name);
    if name in NewNames(images) {
      var i :| 0 <= i < |images| && NewNames(images)[i] == name;
      NewNamesAt(images, i);
    }
    if exists i :: 0 <= i < |images| && name == NewName(i, images[i]) {
      var i :| 0 <= i < |images| && name == NewName(i, images[i]);
      NewNamesAt(images, i);
    }
  }

  // ---------------------------------------------------------------------
  // process_cbz_in_folder
  // ---------------------------------------------------------------------

  /** `f.lower().endswith(".cbz")` */
  predicate IsCbzFile(name: string) {
    EndsWith(Lower(name), ".cbz")
  }

  /** `f"{os.path.splitext(cbz_file)[0]}_fixed.cbz"` */
  function FixedName(name: string): string {
    SplitRoot(name) + "_fixed.cbz"
  }

  /** Each archive with the name of the archive rebuilt from it, in order. */
  function Jobs(cbzFiles: seq<string>): (r: seq<(string, string)>)
    ensures |r| == |cbzFiles|
  {
    if cbzFiles == [] then []
    else
      var last := cbzFiles[|cbzFiles| - 1];
      Jobs(cbzFiles[..|cbzFiles| - 1]) + [(last, FixedName(last))]
  }

  lemma {:induction false} JobsAt(cbzFiles: seq<string>, k: nat)
    requires k < |cbzFiles|
    ensures Jobs(cbzFiles)[k] == (cbzFiles[k], FixedName(cbzFiles[k]))
  {
    var init := cbzFiles[..|cbzFiles| - 1];
    if k < |init| {
      JobsAt(init, k);
      assert init[k] == cbzFiles[k];
    }
  }

  /**
   * `process_cbz_in_folder(folder_path)` over the names the folder lists:
   * the archives it rebuilds, in listing order, each with its output name.
   */
  method ProcessCbzInFolder(listing: seq<string>) returns (jobs: seq<(string, string)>)
    ensures jobs == Jobs(Sorting.Filter(listing, IsCbzFile))
  {
    var cbzFiles := Sorting.Filter(listing, IsCbzFile);
    jobs := RebuildEach(cbzFiles);
  }

  /** `for cbz_file in cbz_files: ... fix_cbz_structure(input_cbz_path, output_cbz_path)` */
  method RebuildEach(cbzFiles: seq<string>) returns (jobs: seq<(string, string)>)
    ensures jobs == Jobs(cbzFiles)
  {
    jobs := [];
    for i := 0 to |cbzFiles|
      invariant jobs == Jobs(cbzFiles[..i])
    {
      assert cbzFiles[..i + 1][..i] == cbzFiles[..i];
      jobs := jobs + [(cbzFiles[i], FixedName(cbzFiles[i]))];
    }
    assert cbzFiles[..|cbzFiles|] == cbzFiles;
  }

  /** The archives rebuilt are the `.cbz` files of the folder, each with its output name. */
  lemma ProcessedArchives(listing: seq<string>, k: nat)
    requires k < |Jobs(Sorting.Filter(listing, IsCbzFile))|
    ensures var job := Jobs(Sorting.Filter(listing, IsCbzFile))[k];
            job.0 in listing && IsCbzFile(job.0) && job.1 == FixedName(job.0)
  {
    var cbzFiles := Sorting.Filter(listing, IsCbzFile);
    JobsAt(cbzFiles, k);
    Sorting.FilterMultiset(listing, IsCbzFile, cbzFiles[k]);
    assert multiset(cbzFiles)[cbzFiles[k]] > 0;
  }

  /** The extension `splitext` finds in a `.cbz` name is at most `.cbz` itself. */
  lemma CbzExtLength(name: string)
    requires IsCbzFile(name)
    ensures |SplitExt(name)| <= 4
  {
    var ext, n := SplitExt(name), |name|;
    LowerSlice(name, n - 4, n);
    assert Lower(name[n - 4..]) == ".cbz";
    assert name[n - 4] == '.' by {
      assert Lower(name[n - 4..])[0] == LowerChar(name[n - 4]);
    }
    SplitExtShape(name);
  }

  /**
   * A rebuilt archive is itself a `.cbz` file and never the archive it was
   * made from, so a later run rebuilds the rebuilt archives too.
   */
  lemma FixedNameIsCbz(name: string)
    requires IsCbzFile(name)
    ensures IsCbzFile(FixedName(name))
    ensures FixedName(name) != name
  {
    var f := FixedName(name);
    assert f[|f| - 4..] == ".cbz";
    LowerSlice(f, |f| - 4, |f|);
    assert Lower(".cbz") == ".cbz";
    CbzExtLength(name);
    assert |f| == |name| - |SplitExt(name)| + 10;
  }

  /** Two archives whose names differ only in the case of `.cbz` are rebuilt into the same file. */
  lemma FixedNameCollision(stem: string)
    requires IsPlainName(stem) && !AllDots(stem)
    ensures IsCbzFile(stem + ".cbz") && IsCbzFile(stem + ".CBZ")
    ensures FixedName(stem + ".cbz") == FixedName(stem + ".CBZ") == stem + "_fixed.cbz"
  {
    CbzSuffix(stem, ".cbz");
    CbzSuffix(stem, ".CBZ");
  }

  lemma CbzSuffix(stem: string, e: string)
    requires IsPlainName(stem) && !AllDots(stem)
    requires e == ".cbz" || e == ".CBZ"
    ensures IsCbzFile(stem + e)
    ensures SplitRoot(stem + e) == stem
  {
    CbzSuffixLower(stem, e);
    var q := e[1..];
    assert [] + (stem + "." + q) == stem + e;
    ExtAfterComponent([], stem, q);
    assert (stem + e)[..|stem|] == stem;
  }

  lemma CbzSuffixLower(stem: string, e: string)
    requires e == ".cbz" || e == ".CBZ"
    ensures IsCbzFile(stem + e)
  {
    var name := stem + e;
    LowerSlice(name, |stem|, |name|);
    assert name[|stem|..] == e;
    assert Lower(e) == [LowerChar(e[0]), LowerChar(e[1]), LowerChar(e[2]), LowerChar(e[3])];
  }
}
