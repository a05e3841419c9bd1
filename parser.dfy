/**
 * File-name parsing (src/parser.py): the chapter number of a CBZ file name,
 * the manga name, and the volume test.
 *
 * Both regular expressions are modelled twice: as a declarative predicate
 * describing every way the pattern can match, and as a scanner that makes the
 * choice Python's backtracking engine makes. The lemmas tie the two together.
 */
module Parser {
  import opened Wrappers
  import opened Strings

  // ---------------------------------------------------------------------
  // Scanning helpers
  // ---------------------------------------------------------------------

  /** End of the longest run of characters satisfying `p` that starts at `i`. */
  function SpanEnd(s: string, i: nat, p: char -> bool): (j: nat)
    requires i <= |s|
    ensures i <= j <= |s|
    ensures forall k :: i <= k < j ==> p(s[k])
    ensures j < |s| ==> !p(s[j])
    decreases |s| - i
  {
    if i < |s| && p(s[i]) then SpanEnd(s, i + 1, p) else i
  }

  /** Starting inside a run ends at the same place. */
  lemma {:induction false} SpanEndFrom(s: string, i: nat, q: nat, p: char -> bool)
    requires i <= q <= |s|
    requires forall k :: i <= k < q ==> p(s[k])
    ensures SpanEnd(s, i, p) == SpanEnd(s, q, p)
    decreases q - i
  {
    if i < q {
      SpanEndFrom(s, i + 1, q, p);
    }
  }

  /** `\.cbz` at position `e`, ignoring case. */
  predicate CbzAt(s: string, e: nat) {
    e + 4 <= |s| && s[e] == '.' && LowerChar(s[e + 1]) == 'c'
    && LowerChar(s[e + 2]) == 'b' && LowerChar(s[e + 3]) == 'z'
  }

  // ---------------------------------------------------------------------
  // MANGA_CHAPTER_PATTERN = r"([\d]+.?\d*)\.cbz", re.IGNORECASE
  // ---------------------------------------------------------------------

  /**
   * One way the pattern can match with its group spanning `s[i..e]`:
   * `[\d]+` spans `s[i..p]`, `.?` spans `s[p..q]` (any character except a
   * newline), `\d*` spans `s[q..e]`, and `\.cbz` follows.
   */
  ghost predicate ChapterParse(s: string, i: nat, p: nat, q: nat, e: nat) {
    && i < p <= q <= e <= |s|
    && (forall k :: i <= k < p ==> IsDigit(s[k]))
    && (q == p || (q == p + 1 && s[p] != '\n'))
    && (forall k :: q <= k < e ==> IsDigit(s[k]))
    && CbzAt(s, e)
  }

  ghost predicate ChapterMatch(s: string, i: nat, e: nat) {
    exists p: nat, q: nat :: ChapterParse(s, i, p, q, e)
  }

  /**
   * The end of the group the regex engine reports for a match starting at
   * `i`: it first tries the whole digit run, one more character and the
   * digits after it, then the digit run alone. Shorter splits of the run
   * can only find `.cbz` where the run alone does.
   */
  function MatchEndAt(s: string, i: nat): Option<nat>
    requires i <= |s|
  {
    if i < |s| && IsDigit(s[i]) then
      var j := SpanEnd(s, i, IsDigit);
      if j < |s| && s[j] != '\n' && CbzAt(s, SpanEnd(s, j + 1, IsDigit)) then Some(SpanEnd(s, j + 1, IsDigit))
      else if CbzAt(s, j) then Some(j)
      else None
    else None
  }

  lemma MatchEndAtSound(s: string, i: nat)
    requires i <= |s| && MatchEndAt(s, i).Some?
    ensures ChapterMatch(s, i, MatchEndAt(s, i).value)
  {
    var j := SpanEnd(s, i, IsDigit);
    var e := MatchEndAt(s, i).value;
    if e == j {
      assert ChapterParse(s, i, j, j, e);
    } else {
      assert ChapterParse(s, i, j, j + 1, e);
    }
  }

  /** Every match starting at `i` ends at or before the one the engine reports. */
  lemma MatchEndAtComplete(s: string, i: nat, e': nat)
    requires i <= |s| && ChapterMatch(s, i, e')
    ensures MatchEndAt(s, i).Some? && e' <= MatchEndAt(s, i).value
  {
    var p: nat, q: nat :| ChapterParse(s, i, p, q, e');
    var j := SpanEnd(s, i, IsDigit);
    SpanEndFrom(s, i, p, IsDigit);
    SpanEndFrom(s, q, e', IsDigit);
    assert SpanEnd(s, e', IsDigit) == e';
    if q == p {
      assert e' == j;
    } else if p < j {
      SpanEndFrom(s, i, p + 1, IsDigit);
      assert e' == j;
    } else {
      assert p == j && e' == SpanEnd(s, j + 1, IsDigit);
    }
  }

  /** `re.search`: the first start position at which the pattern matches. */
  function SearchFrom(s: string, i: nat): Option<(nat, nat)>
    requires i <= |s|
    decreases |s| - i
  {
    match MatchEndAt(s, i)
    case Some(e) => Some((i, e))
    case None => if i < |s| then SearchFrom(s, i + 1) else None
  }

  /**
   * The search reports a match of the pattern; no match starts earlier, and
   * none starting at the same place has a longer group. Without a report,
   * nothing matches.
   */
  lemma {:induction false} SearchFromCorrect(s: string, i: nat)
    requires i <= |s|
    ensures SearchFrom(s, i).Some? ==>
              var (m, e) := SearchFrom(s, i).value;
              (i <= m <= |s| && ChapterMatch(s, m, e)
               && (forall m': nat, e': nat :: i <= m' < m ==> !ChapterMatch(s, m', e'))
               && (forall e': nat :: ChapterMatch(s, m, e') ==> e' <= e))
    ensures SearchFrom(s, i).None? ==> forall m': nat, e': nat :: i <= m' <= |s| ==> !ChapterMatch(s, m', e')
    decreases |s| - i
  {
    forall e': nat | ChapterMatch(s, i, e') ensures MatchEndAt(s, i).Some? && e' <= MatchEndAt(s, i).value {
      MatchEndAtComplete(s, i, e');
    }
    if MatchEndAt(s, i).Some? {
      MatchEndAtSound(s, i);
    } else if i < |s| {
      SearchFromCorrect(s, i + 1);
    }
  }

  /** `match.group(1)` of `re.search(MANGA_CHAPTER_PATTERN, filename)`. */
  function ChapterGroup(s: string): (g: Option<string>)
    ensures g.Some? ==> g.value != [] && IsDigit(g.value[0])
    ensures g.Some? ==> var j := SpanEnd(g.value, 0, IsDigit);
                        j < |g.value| ==> AllDigits(g.value[j + 1..])
  {
    match SearchFrom(s, 0)
    case None => None
    case Some((i, e)) =>
      SearchFromCorrect(s, 0);
      GroupShape(s, i, e);
      Some(s[i..e])
  }

  /** A group starts with a digit, and after its first non-digit come only digits. */
  lemma GroupShape(s: string, i: nat, e: nat)
    requires i <= e <= |s| && ChapterMatch(s, i, e)
    ensures var g := s[i..e];
            var j := SpanEnd(g, 0, IsDigit);
            g != [] && IsDigit(g[0]) && (j < |g| ==> AllDigits(g[j + 1..]))
  {
    var p: nat, q: nat :| ChapterParse(s, i, p, q, e);
    var g := s[i..e];
    var p', q' := p - i, q - i;
    assert forall k :: 0 <= k < |g| ==> g[k] == s[i + k];
    assert IsDigit(g[0]);
    SpanEndFrom(g, 0, p', IsDigit);
    var j := SpanEnd(g, 0, IsDigit);
    if j < |g| {
      assert !IsDigit(g[j]);
      assert j == p' && q' == p' + 1;
    }
  }

  // ---------------------------------------------------------------------
  // Python's float() of the captured group
  // ---------------------------------------------------------------------

  function Pow10(n: nat): (r: nat)
    ensures r >= 1
  {
    if n == 0 then 1 else 10 * Pow10(n - 1)
  }

  /** `m * 10 ** n` as a real number. */
  function Scaled(m: nat, n: nat): (r: real)
    ensures r >= 0.0
  {
    (m * Pow10(n)) as real
  }

  /** The value of the digits after a decimal point. */
  function FracValue(d: string): (r: real)
    requires AllDigits(d)
    ensures 0.0 <= r < 1.0
  {
    if d == [] then 0.0 else (DigitValue(d[0]) as real + FracValue(d[1..])) / 10.0
  }

  /**
   * `float(g)` for a string the chapter group can capture: digits, then
   * possibly one other character and more digits. The forms `float` accepts
   * are a bare integer, a decimal point (`125.5`, `125.`), trailing
   * whitespace (`125 `), an exponent (`1e3`) and a digit separator (`1_2`);
   * every other form raises ValueError, modelled as `None`.
   */
  function FloatOfGroup(g: string): (r: Option<real>)
    requires g != [] && IsDigit(g[0])
    requires var j := SpanEnd(g, 0, IsDigit); j < |g| ==> AllDigits(g[j + 1..])
    ensures r.Some? ==> r.value >= 0.0
  {
    var j := SpanEnd(g, 0, IsDigit);
    var whole := DigitsValue(g[..j]);
    if j == |g| then Some(whole as real)
    else
      var c, d := g[j], g[j + 1..];
      if c == '.' then Some(whole as real + FracValue(d))
      else if IsSpace(c) then (if d == [] then Some(whole as real) else None)
      else if c == 'e' || c == 'E' then (if d != [] then Some(Scaled(whole, DigitsValue(d))) else None)
      else if c == '_' then (if d != [] then Some(DigitsValue(g[..j] + d) as real) else None)
      else None
  }

  /**
   * `parse_chapter_number(filename)`: the float of the first chapter group,
   * or `None` when there is no match or the group is not a valid float.
   */
  function ParseChapterNumber(filename: string): (r: Option<real>)
    ensures r.Some? ==> r.value >= 0.0
    ensures r.Some? ==> ChapterGroup(filename).Some?
  {
    match ChapterGroup(filename)
    case None => None
    case Some(g) => FloatOfGroup(g)
  }

  /** `parse_chapter_number(name) or 0`: the number a file sorts by. */
  function ChapterValue(filename: string): (v: real)
    ensures v >= 0.0
    ensures ParseChapterNumber(filename).Some? ==> v == ParseChapterNumber(filename).value
    ensures ParseChapterNumber(filename).None? ==> v == 0.0
  {
    match ParseChapterNumber(filename)
    case Some(x) => x
    case None => 0.0
  }

  // ---------------------------------------------------------------------
  // The documented file-name formats
  // ---------------------------------------------------------------------

  /** Positions before the first digit never start a match. */
  lemma {:induction false} SkipToDigits(s: string, k: nat, i: nat)
    requires k <= i <= |s|
    requires forall m :: k <= m < i ==> !IsDigit(s[m])
    ensures SearchFrom(s, k) == SearchFrom(s, i)
    decreases i - k
  {
    if k < i {
      SkipToDigits(s, k + 1, i);
    }
  }

  /** `float()` of a bare digit string is its value. */
  lemma FloatOfInteger(g: string)
    requires IsDigitString(g)
    ensures FloatOfGroup(g) == Some(DigitsValue(g) as real)
  {
    SpanEndFrom(g, 0, |g|, IsDigit);
    assert g[..|g|] == g;
  }

  /** `float()` of `D.F` is the decimal number it spells. */
  lemma FloatOfDecimal(g: string, p: nat)
    requires 0 < p < |g| && g[p] == '.'
    requires AllDigits(g[..p]) && AllDigits(g[p + 1..])
    ensures FloatOfGroup(g) == Some(DigitsValue(g[..p]) as real + FracValue(g[p + 1..]))
  {
    assert forall k :: 0 <= k < p ==> g[..p][k] == g[k];
    RunEndsAt(g, 0, p, IsDigit);
  }

  /**
   * `Chapter 125.cbz`, `Manga Name Chapter 125.cbz`: the first digits of the
   * name, directly followed by `.cbz`, are the chapter number.
   */
  lemma WholeChapterNumber(s: string, i: nat, j: nat)
    requires i < j && CbzAt(s, j)
    requires forall m :: 0 <= m < i ==> !IsDigit(s[m])
    requires forall m :: i <= m < j ==> IsDigit(s[m])
    ensures ParseChapterNumber(s) == Some(DigitsValue(s[i..j]) as real)
  {
    SkipToDigits(s, 0, i);
    RunEndsAt(s, i, j, IsDigit);
    RunEndsAt(s, j + 1, j + 1, IsDigit);
    assert MatchEndAt(s, i) == Some(j);
    FloatOfInteger(s[i..j]);
  }

  lemma DecimalChapterGroup(s: string, i: nat, j: nat, k: nat)
    requires i < j < k && CbzAt(s, k) && s[j] == '.'
    requires forall m :: 0 <= m < i ==> !IsDigit(s[m])
    requires forall m :: i <= m < j ==> IsDigit(s[m])
    requires forall m :: j < m < k ==> IsDigit(s[m])
    ensures ChapterGroup(s) == Some(s[i..k])
  {
    SkipToDigits(s, 0, i);
    RunEndsAt(s, i, j, IsDigit);
    RunEndsAt(s, j + 1, k, IsDigit);
    assert MatchEndAt(s, i) == Some(k);
  }

  /**
   * `Chapter 125.5.cbz`, `Manga Name Chapter125.5.cbz`: the first digits of
   * the name, a point, more digits and `.cbz` spell the chapter number.
   */
  lemma DecimalChapterNumber(s: string, i: nat, j: nat, k: nat)
    requires i < j < k && CbzAt(s, k) && s[j] == '.'
    requires forall m :: 0 <= m < i ==> !IsDigit(s[m])
    requires forall m :: i <= m < j ==> IsDigit(s[m])
    requires forall m :: j < m < k ==> IsDigit(s[m])
    ensures ParseChapterNumber(s) == Some(DigitsValue(s[i..j]) as real + FracValue(s[j + 1..k]))
  {
    DecimalChapterGroup(s, i, j, k);
    var g := s[i..k];
    assert g[..j - i] == s[i..j] && g[j - i + 1..] == s[j + 1..k];
    FloatOfDecimal(g, j - i);
  }

  /** `Chapter 125.cbz` is chapter 125. */
  lemma WholeChapterExample()
    ensures ParseChapterNumber("Chapter 125.cbz") == Some(125.0)
  {
    var a := "Chapter 125.cbz";
    assert a[8..11] == "125";
    assert forall m :: 0 <= m < 8 ==> !IsDigit(a[m]);
    ExampleValues();
    WholeChapterNumber(a, 8, 11);
  }

  /** `Chapter 125.5.cbz` is chapter 125.5. */
  lemma DecimalChapterExample()
    ensures ParseChapterNumber("Chapter 125.5.cbz") == Some(125.5)
  {
    var b := "Chapter 125.5.cbz";
    assert b[8..11] == "125" && b[12..13] == "5";
    assert forall m :: 0 <= m < 8 ==> !IsDigit(b[m]);
    ExampleValues();
    DecimalChapterNumber(b, 8, 11, 13);
  }

  lemma ExampleValues()
    ensures DigitsValue("125") == 125 && FracValue("5") == 0.5
  {
    assert DigitsValue("1") == 1 && DigitsValue("12") == 12;
  }

  /** In `12 5.cbz` the optional character is a space, and `float("12 5")` fails. */
  lemma InvalidGroupExample()
    ensures ParseChapterNumber("12 5.cbz") == None
  {
    assert MatchEndAt("12 5.cbz", 0) == Some(4);
  }

  const VolumeExample := "Vol 2 Chapter 5.cbz"

  /** The leftmost match wins: `2` cannot reach `.cbz`, so the chapter is 5. */
  lemma LeftmostMatchWins()
    ensures ParseChapterNumber(VolumeExample) == Some(5.0)
  {
    var s := VolumeExample;
    VolumeExampleMatches();
    SkipToDigits(s, 0, 4);
    assert SearchFrom(s, 4) == SearchFrom(s, 5);
    SkipToDigits(s, 5, 14);
    assert SearchFrom(s, 14) == Some((14, 15));
    assert s[14..15] == "5";
    FloatOfInteger("5");
  }

  lemma VolumeExampleMatches()
    ensures forall m :: 0 <= m < 4 ==> !IsDigit(VolumeExample[m])
    ensures forall m :: 5 <= m < 14 ==> !IsDigit(VolumeExample[m])
    ensures MatchEndAt(VolumeExample, 4) == None
    ensures MatchEndAt(VolumeExample, 14) == Some(15)
  {
    var s := VolumeExample;
    assert s[4] == '2' && s[5] == ' ' && s[6] == 'C' && s[14] == '5' && s[15] == '.' && s[16] == 'c';
    RunEndsAt(s, 4, 5, IsDigit);
    RunEndsAt(s, 6, 6, IsDigit);
    RunEndsAt(s, 14, 15, IsDigit);
    RunEndsAt(s, 16, 16, IsDigit);
  }

  /** A name without digits has no chapter number. */
  lemma NoDigitsNoChapter(s: string)
    requires NoDigits(s)
    ensures ParseChapterNumber(s) == None
  {
    SkipToDigits(s, 0, |s|);
  }

  // ---------------------------------------------------------------------
  // MANGA_NAME_PATTERN = r"^(.*?)\s*Chapter[\s\-_]*[\d\.]+.*\.cbz$", re.IGNORECASE
  // ---------------------------------------------------------------------

  predicate IsSeparator(c: char) {
    IsSpace(c) || c == '-' || c == '_'
  }

  predicate IsNumberChar(c: char) {
    IsDigit(c) || c == '.'
  }

  /** `Chapter`, ignoring case, at position `b`. */
  predicate ChapterWordAt(s: string, b: nat) {
    b + 7 <= |s| && LowerChar(s[b]) == 'c' && LowerChar(s[b + 1]) == 'h'
    && LowerChar(s[b + 2]) == 'a' && LowerChar(s[b + 3]) == 'p' && LowerChar(s[b + 4]) == 't'
    && LowerChar(s[b + 5]) == 'e' && LowerChar(s[b + 6]) == 'r'
  }

  /** `\.cbz$`: `.cbz` at `e`, then the end of the string or a final newline. */
  predicate CbzEndAt(s: string, e: nat) {
    CbzAt(s, e) && (e + 4 == |s| || (e + 5 == |s| && s[e + 4] == '\n'))
  }

  /** No newline in `s[lo..hi]`. */
  predicate NoNewlineIn(s: string, lo: nat, hi: nat)
    requires lo <= hi <= |s|
  {
    forall k :: lo <= k < hi ==> s[k] != '\n'
  }

  // The ways the part of the pattern after the group can match, layer by
  // layer from the end of the pattern.

  /** `.*` spans `s[d..e]` and `\.cbz$` follows. */
  ghost predicate TailParse(s: string, d: nat, e: nat) {
    d <= e && CbzEndAt(s, e) && NoNewlineIn(s, d, e)
  }

  /** `[\d\.]+` spans `s[c..d]`, then the tail. */
  ghost predicate NumberParse(s: string, c: nat, d: nat, e: nat) {
    c < d <= e && CbzEndAt(s, e) && (forall k :: c <= k < d ==> IsNumberChar(s[k])) && TailParse(s, d, e)
  }

  /** `Chapter`, then `[\s\-_]*` spanning `s[b+7..c]`, then the number. */
  ghost predicate WordParse(s: string, b: nat, c: nat, d: nat, e: nat) {
    ChapterWordAt(s, b) && b + 7 <= c && NumberParse(s, c, d, e)
    && (forall k :: b + 7 <= k < c ==> IsSeparator(s[k]))
  }

  /** `\s*` spanning `s[a..b]`, then the word. */
  ghost predicate NameRestParse(s: string, a: nat, b: nat, c: nat, d: nat, e: nat) {
    a <= b && WordParse(s, b, c, d, e) && (forall k :: a <= k < b ==> IsSpace(s[k]))
  }

  /** The pattern after the group can match from `a`. */
  ghost predicate NameRestMatches(s: string, a: nat) {
    exists b: nat, c: nat, d: nat, e: nat :: NameRestParse(s, a, b, c, d, e)
  }

  // The decision the regex engine reaches, layer by layer.

  /** `.*\.cbz$` from `d`, tried at the only two places `\.cbz$` can sit. */
  predicate TailMatches(s: string, d: nat)
    requires d <= |s|
  {
    (d + 4 <= |s| && CbzEndAt(s, |s| - 4) && NoNewlineIn(s, d, |s| - 4))
    || (d + 5 <= |s| && CbzEndAt(s, |s| - 5) && NoNewlineIn(s, d, |s| - 5))
  }

  /** `[\d\.]+` may give back all but its first character to `.*`. */
  predicate NumberMatchesAt(s: string, c: nat)
    requires c <= |s|
  {
    c < |s| && IsNumberChar(s[c]) && TailMatches(s, c + 1)
  }

  /** A number character is not a separator, so the separators are taken whole. */
  predicate WordMatchesAt(s: string, b: nat)
    requires b <= |s|
  {
    ChapterWordAt(s, b) && NumberMatchesAt(s, SpanEnd(s, b + 7, IsSeparator))
  }

  /** `Chapter` does not start with whitespace, so the spaces are taken whole. */
  predicate RestMatchesAt(s: string, a: nat)
    requires a <= |s|
  {
    WordMatchesAt(s, SpanEnd(s, a, IsSpace))
  }

  lemma TailMatchesIff(s: string, d: nat)
    requires d <= |s|
    ensures TailMatches(s, d) <==> exists e: nat :: TailParse(s, d, e)
  {
    if TailMatches(s, d) {
      if d + 4 <= |s| && CbzEndAt(s, |s| - 4) && NoNewlineIn(s, d, |s| - 4) {
        assert TailParse(s, d, |s| - 4);
      } else {
        assert TailParse(s, d, |s| - 5);
      }
    }
  }

  lemma NumberMatchesIff(s: string, c: nat)
    requires c <= |s|
    ensures NumberMatchesAt(s, c) <==> exists d: nat, e: nat :: NumberParse(s, c, d, e)
  {
    if NumberMatchesAt(s, c) {
      TailMatchesIff(s, c + 1);
      var e: nat :| TailParse(s, c + 1, e);
      assert NumberParse(s, c, c + 1, e);
    }
    if exists d: nat, e: nat :: NumberParse(s, c, d, e) {
      var d: nat, e: nat :| NumberParse(s, c, d, e);
      assert TailParse(s, c + 1, e) by {
        forall k | c + 1 <= k < e ensures s[k] != '\n' {
          if k < d {
            assert IsNumberChar(s[k]);
          }
        }
      }
      TailMatchesIff(s, c + 1);
    }
  }

  /** A run followed by a character outside the class ends there. */
  lemma RunEndsAt(s: string, i: nat, j: nat, p: char -> bool)
    requires i <= j < |s| && !p(s[j])
    requires forall k :: i <= k < j ==> p(s[k])
    ensures SpanEnd(s, i, p) == j
  {
    SpanEndFrom(s, i, j, p);
  }

  lemma WordMatchesIff(s: string, b: nat)
    requires b <= |s|
    ensures WordMatchesAt(s, b) <==> exists c: nat, d: nat, e: nat :: WordParse(s, b, c, d, e)
  {
    if WordMatchesAt(s, b) {
      WordMatchesSound(s, b);
    }
    if exists c: nat, d: nat, e: nat :: WordParse(s, b, c, d, e) {
      var c: nat, d: nat, e: nat :| WordParse(s, b, c, d, e);
      WordMatchesComplete(s, b, c, d, e);
    }
  }

  lemma WordMatchesSound(s: string, b: nat)
    requires b <= |s| && WordMatchesAt(s, b)
    ensures exists c: nat, d: nat, e: nat :: WordParse(s, b, c, d, e)
  {
    var c := SpanEnd(s, b + 7, IsSeparator);
    NumberMatchesIff(s, c);
    var d: nat, e: nat :| NumberParse(s, c, d, e);
    assert WordParse(s, b, c, d, e);
  }

  lemma WordMatchesComplete(s: string, b: nat, c: nat, d: nat, e: nat)
    requires b <= |s| && WordParse(s, b, c, d, e)
    ensures WordMatchesAt(s, b)
  {
    RunEndsAt(s, b + 7, c, IsSeparator);
    NumberMatchesIff(s, c);
  }

  /** The engine's decision agrees with the pattern: both directions. */
  lemma RestMatchesIff(s: string, a: nat)
    requires a <= |s|
    ensures RestMatchesAt(s, a) <==> NameRestMatches(s, a)
  {
    if RestMatchesAt(s, a) {
      var b := SpanEnd(s, a, IsSpace);
      WordMatchesIff(s, b);
      var c: nat, d: nat, e: nat :| WordParse(s, b, c, d, e);
      assert NameRestParse(s, a, b, c, d, e);
    }
    if NameRestMatches(s, a) {
      var b: nat, c: nat, d: nat, e: nat :| NameRestParse(s, a, b, c, d, e);
      assert !IsSpace(s[b]) by {
        assert LowerChar(s[b]) == 'c';
      }
      RunEndsAt(s, a, b, IsSpace);
      WordMatchesIff(s, b);
    }
  }

  /** The lazy `(.*?)`: the shortest group, never crossing a newline, after which the rest matches. */
  function FindNameEnd(s: string, a: nat): (r: Option<nat>)
    requires a <= |s|
    ensures r.Some? ==> a <= r.value <= |s| && NoNewlineIn(s, a, r.value) && RestMatchesAt(s, r.value)
    ensures r.Some? ==> forall m :: a <= m < r.value ==> !RestMatchesAt(s, m)
    ensures r.None? ==> forall m :: a <= m <= |s| && NoNewlineIn(s, a, m) ==> !RestMatchesAt(s, m)
    decreases |s| - a
  {
    if RestMatchesAt(s, a) then Some(a)
    else if a < |s| && s[a] != '\n' then FindNameEnd(s, a + 1)
    else
      assert forall m :: a < m <= |s| ==> !NoNewlineIn(s, a, m);
      None
  }

  /**
   * `re.match(MANGA_NAME_PATTERN, s)`: the group found is the shortest one
   * without a newline after which the rest of the pattern matches; without
   * one, nothing matches.
   */
  lemma FindNameEndCorrect(s: string)
    ensures FindNameEnd(s, 0).Some? ==>
              var n := FindNameEnd(s, 0).value;
              (n <= |s| && NoNewlineIn(s, 0, n) && NameRestMatches(s, n)
               && forall m :: 0 <= m < n ==> !NameRestMatches(s, m))
    ensures FindNameEnd(s, 0).None? ==>
              forall m :: 0 <= m <= |s| && NoNewlineIn(s, 0, m) ==> !NameRestMatches(s, m)
  {
    forall m | 0 <= m <= |s| ensures RestMatchesAt(s, m) <==> NameRestMatches(s, m) {
      RestMatchesIff(s, m);
    }
  }

  /**
   * `get_manga_name(directory, cbz_files)`, given the directory's name and
   * the files' names: `None` for no files; the stripped group of the first
   * name when the pattern matches and the group is not blank; the directory
   * name otherwise.
   */
  function GetMangaName(directoryName: string, cbzFiles: seq<string>): (r: Option<string>)
    ensures r.None? <==> cbzFiles == []
    ensures r.Some? && r.value != directoryName ==>
              r.value != [] && !IsSpace(r.value[0]) && !IsSpace(r.value[|r.value| - 1])
  {
    if cbzFiles == [] then None
    else
      var first := cbzFiles[0];
      match FindNameEnd(first, 0)
      case Some(n) =>
        var name := Strip(first[..n]);
        if name != [] then Some(name) else Some(directoryName)
      case None => Some(directoryName)
  }

  /** A name taken from a file is the stripped shortest group of the first file's name. */
  lemma MangaNameFromFile(directoryName: string, cbzFiles: seq<string>)
    requires cbzFiles != [] && GetMangaName(directoryName, cbzFiles).value != directoryName
    ensures var s := cbzFiles[0];
            exists n :: (0 <= n <= |s| && NoNewlineIn(s, 0, n) && NameRestMatches(s, n)
                         && (forall m :: 0 <= m < n ==> !NameRestMatches(s, m))
                         && GetMangaName(directoryName, cbzFiles).value == Strip(s[..n]))
  {
    var s := cbzFiles[0];
    FindNameEndCorrect(s);
    var n := FindNameEnd(s, 0).value;
    assert GetMangaName(directoryName, cbzFiles).value == Strip(s[..n]);
  }

  /**
   * Given the shortest group after which the rest of the pattern matches,
   * the name is that group stripped when it is not blank, and the directory
   * name when it is.
   */
  lemma MangaNameFromMatch(directoryName: string, cbzFiles: seq<string>, n: nat)
    requires cbzFiles != [] && n <= |cbzFiles[0]|
    requires NoNewlineIn(cbzFiles[0], 0, n) && NameRestMatches(cbzFiles[0], n)
    requires forall m :: 0 <= m < n ==> !NameRestMatches(cbzFiles[0], m)
    ensures var group := Strip(cbzFiles[0][..n]);
            GetMangaName(directoryName, cbzFiles) == Some(if group != [] then group else directoryName)
  {
    var s := cbzFiles[0];
    FindNameEndCorrect(s);
    assert FindNameEnd(s, 0).Some?;
    var n' := FindNameEnd(s, 0).value;
    assert NameRestMatches(s, n') && n <= n';
    assert n' <= n;
  }

  /** An empty name comes only from a directory with an empty name. */
  lemma BlankNameFromDirectory(directoryName: string, cbzFiles: seq<string>)
    ensures GetMangaName(directoryName, cbzFiles) == Some([]) ==> directoryName == []
  {
  }

  /** A first file name without the word `Chapter` gives the directory name. */
  lemma NoChapterWordNoName(directoryName: string, cbzFiles: seq<string>)
    requires cbzFiles != []
    requires forall b :: 0 <= b <= |cbzFiles[0]| ==> !ChapterWordAt(cbzFiles[0], b)
    ensures GetMangaName(directoryName, cbzFiles) == Some(directoryName)
  {
  }

  const MangaNameExampleFile := "Manga Name Chapter 1.cbz"

  /** `Manga Name Chapter 1.cbz` gives `Manga Name`, whatever the directory. */
  lemma MangaNameExample(directoryName: string)
    ensures GetMangaName(directoryName, [MangaNameExampleFile]) == Some("Manga Name")
  {
    var s := MangaNameExampleFile;
    MangaNameExampleRest();
    MangaNameExampleNoEarlier();
    MangaNameExampleGroup();
    MangaNameFromMatch(directoryName, [s], 10);
  }

  /** The group `Manga Name` has nothing to strip. */
  lemma MangaNameExampleGroup()
    ensures Strip(MangaNameExampleFile[..10]) == "Manga Name"
  {
    assert MangaNameExampleFile[..10] == "Manga Name";
    StripTrimmed("Manga Name");
  }

  /** The rest of the pattern matches after `Manga Name`. */
  lemma MangaNameExampleRest()
    ensures NoNewlineIn(MangaNameExampleFile, 0, 10) && NameRestMatches(MangaNameExampleFile, 10)
  {
    var s := MangaNameExampleFile;
    assert s[10] == ' ' && s[11] == 'C' && s[18] == ' ' && s[19] == '1';
    assert s[20..] == ".cbz";
    assert NameRestParse(s, 10, 11, 19, 20, 20);
  }

  /** The rest of the pattern cannot match earlier: no `Chapter` follows. */
  lemma MangaNameExampleNoEarlier()
    ensures forall m :: 0 <= m < 10 ==> !NameRestMatches(MangaNameExampleFile, m)
  {
    forall m | 0 <= m < 10 ensures !NameRestMatches(MangaNameExampleFile, m) {
      MangaNameExampleNotAt(m);
    }
  }

  /** From a position inside `Manga Name`, the spaces end before a letter other than `c`. */
  lemma MangaNameExampleNotAt(m: nat)
    requires m < 10
    ensures !NameRestMatches(MangaNameExampleFile, m)
  {
    var s := MangaNameExampleFile;
    var b := if m == 5 then 6 else m;
    assert s[5] == ' ';
    assert !IsSpace(s[b]) && LowerChar(s[b]) != 'c';
    RunEndsAt(s, m, b, IsSpace);
    RestMatchesIff(s, m);
  }

  /** Without any match of the pattern, the directory name is used. */
  lemma MangaNameFallback(directoryName: string, cbzFiles: seq<string>)
    requires cbzFiles != []
    requires forall n :: 0 <= n <= |cbzFiles[0]| ==> !NameRestMatches(cbzFiles[0], n)
    ensures GetMangaName(directoryName, cbzFiles) == Some(directoryName)
  {
    FindNameEndCorrect(cbzFiles[0]);
  }

  // ---------------------------------------------------------------------
  // is_volume
  // ---------------------------------------------------------------------

  /** `is_volume`: no chapter is ever classified as part of a volume. */
  function IsVolume(chapterNumber: int, mangaName: string): (r: bool)
    ensures !r
  {
    false
  }
}
