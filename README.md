# A verified model of the CBZ combining pipeline

The pipeline takes a folder of manga chapter archives (`.cbz` files) and
processes it as follows:

1. It sorts the archives in natural order and reads the manga's name from
   the first file name. It then picks a cover image.
2. It groups the chapters into parts of at most `chapters_per_part`
   chapters, ordered by chapter number.
3. For each part, it stages every page image in a temporary directory under
   a five-digit ordinal name, with the cover first, and zips the directory
   into one combined archive.
4. It records each part's chapter range in a status file as processed and
   then as converted. An interrupted run can therefore resume where it
   stopped.

A separate script, `fix_cbz.py`, rebuilds each archive of a folder with a
flat layout and sequential four-digit page names.

This project models that core in Dafny and proves what the code promises
about it:

- natural-sort keys;
- chapter number and manga name parsing, as explicit scanners for the two
  regular expressions;
- the chapter-range label;
- stable grouping into parts;
- the ordinal staging loop and the combine guards;
- the resume state;
- the per-part state machine of the driver;
- the choice of a cover;
- the flat renaming.

Modules and files:

| file | module | models |
|---|---|---|
| `wrappers.dfy` | `Wrappers` | `Option` |
| `strings.dfy` | `Strings` | `str.lower`, `str.strip`, `str(int)`, zero padding, Python's string order |
| `sorting.dfy` | `Sorting` | filtering, and `sorted` as a stable insertion sort with its sortedness, permutation and stability lemmas |
| `natural.dfy` | `Natural` | `natural_sort_key` and the order it induces |
| `parser.dfy` | `Parser` | `parse_chapter_number`, `get_manga_name`, `is_volume` |
| `utils.dfy` | `Utils` | `generate_chapter_range`, `get_sorted_cbz_files` |
| `grouper.dfy` | `Grouper` | `group_cbz_into_packs`, `get_sorted_images`, `get_pack_images_to_tmp_dir`, `create_combined_cbz`, `combine_to_cbz` |
| `state.dfy` | `StateManager` | the status record, its updates and predicates, and the status file |
| `extractor.dfy` | `Extractor` | `extract_cbz`, `extract_and_save_cover_image`, `extract_first_cover_image` |
| `fixcbz.dfy` | `FixCbz` | `fix_cbz_structure`, `process_cbz_in_folder` |
| `orchestrator.dfy` | `Orchestrator` | `process_packs` and `process_manga_folder` |

The environment the code touches is passed in as parameters:

- Each directory is given as the sequence of names it lists.
- Each chapter archive is given as its member names, or as a bad or broken
  file. Whether writing its members out succeeds and what its extracted
  directory then lists are given too. A chapter's extraction follows from
  these (`Extractor.ChapterExtraction`), and the cover is chosen from the
  same archives.
- Every copy, zip, conversion and status-file write, and the creation of
  the `Converted` output folder, is given as a success flag.
- The metadata lookup and the downloaded cover are given as their results.
- The constants `CHAPTERS_PER_PART`, `IMAGE_EXTENSIONS` and `STATUS_FILE`
  are parameters, with `chapters_per_part > 0`.

The status record has two parts, "processed" and "converted". Each is either
missing or a set of chapter-range keys. Only key membership is ever observed,
so the values stored under the keys are not modelled.

Some consequences of the code, each proved about the model:

- **Range labels can coincide.** The chapter-range label truncates chapter
  numbers to integers and maps unparsable names to 0, so two different parts
  can share a label; chapters 5.1–5.2 and 5.3–5.4 are an example
  (`Orchestrator.RangeLabelsCollide`). Once the earlier part has been
  converted in a real run, the later part is then taken as already combined
  and already converted (`Orchestrator.SameLabelSkipsLaterPart`). If the
  earlier part's combine failed, the later part is still combined; if only
  its conversion failed, the later part's conversion is tried again.
- **The dry-run notice never appears.** The dry-run branch compares the
  integer part number with the string keys of the status, so the notice
  about an already processed part is never given
  (`Orchestrator.DryRunNoticeNeverShown`).
- **An empty manga name comes only from an empty directory name.** A
  non-empty file list always yields a name. It is empty, and stops the run,
  only when the first file's name gives no group and the directory's own
  name is empty, as for the root of the file system
  (`Orchestrator.FolderGuards`, `Orchestrator.RootFolderHasNoName`).
- **A chapter archive without members ends the whole run.** In a real run,
  when the part holding it is not already processed, its extraction
  succeeds but creates no directory, so listing that directory raises
  `FileNotFoundError`. Nothing catches it, so the run stops after the
  status updates of the earlier parts. A dry run, or a part whose range is
  already processed, extracts nothing and does not raise
  (`Grouper.CombineToCbzCases`, `Orchestrator.MemberlessChapterRaises`,
  `Orchestrator.RunPacksStopsAtRaise`).
- **A status without both maps ends the run.** A status file whose JSON
  lacks `processed_cbz_parts` or `converted_mobi_parts` makes the lookups
  raise `KeyError`, so nothing is processed (`Orchestrator.FolderGuards`).
- **An output folder that cannot be made ends the run.** `create_output_folder`
  then returns `False`, and building the first part's output path from it
  raises `TypeError`, in a dry run too. No part is handled
  (`Orchestrator.FolderGuards`).
- **Resuming depends on the status writes.** Only the status file carries
  progress to the next invocation. When every write of a run succeeds and
  every part ends converted, the next invocation combines and converts
  nothing, even from a folder that had no status file
  (`Orchestrator.SecondFolderRunDoesNothing`, `Orchestrator.SecondRunFromFile`).
  A failed write is only logged, so when every write fails the file is
  unchanged and the next invocation does the whole run again
  (`Orchestrator.SecondRunAfterFailedWrites`).

## Model

| member | source | states |
|---|---|---|
| Strings.Lower | src/utils.py:31 | the result has the input's length, and each character is the lowercase of the input's character at that position |
| Strings.LowerIdempotent | src/utils.py:31 | lowering twice is lowering once |
| Strings.Strip | src/parser.py:47-48 | the result is a slice of the input, with only whitespace cut at either end, and it neither starts nor ends with whitespace |
| Strings.StripTrimmed | src/parser.py:48 | stripping a string without surrounding whitespace gives it back |
| Strings.NatToStringValue | src/utils.py:81 | the decimal numeral of `n` denotes `n` |
| Strings.NatToStringInjective | src/utils.py:81 | different numbers have different numerals |
| Strings.IntToStringRoundTrip | src/utils.py:81 | `str(i)` is an optional minus sign followed by digits, and it parses back to `i` |
| Strings.ZeroPad | src/grouper.py:122 | zero padding gives a digit string of the requested width, or of the numeral's width when that is wider |
| Strings.ZeroPadValue | src/grouper.py:122 | the padded numeral denotes the number |
| Strings.ZeroPadInjective | scripts/fix_cbz.py:28 | different numbers padded to the same width differ |
| Strings.CompareStringsEqual | scripts/fix_cbz.py:19 | two strings compare Equal exactly when they are equal |
| Strings.CompareStringsFlip | scripts/fix_cbz.py:19 | swapping the operands flips the outcome of Python's string comparison |
| Strings.CompareStringsTransitive | scripts/fix_cbz.py:19 | string comparison is transitive, and strictly so when one step is strict |
| Sorting.Filter | src/grouper.py:135-139 | a filter keeps only elements of the input that satisfy the condition |
| Sorting.FilterMultiset | src/grouper.py:135-139 | each element occurs in the output as often as in the input if it satisfies the condition, and not at all otherwise |
| Sorting.SortBy | src/grouper.py:152-154 | `sorted` returns a permutation of its input |
| Sorting.SortBySorted | src/grouper.py:152-154 | under a total preorder, the output of `sorted` is ordered |
| Sorting.SortByStable | src/grouper.py:152-154 | elements with equal keys keep their input order (stability) |
| Sorting.StableSortIsSortBy | src/grouper.py:152-154 | any ordered, stable permutation of the input equals the result of `sorted` |
| Natural.SplitDigits | src/utils.py:31 | `re.split(r"(\d+)")` alternates digit-free text pieces and non-empty digit runs, beginning with the text before the first digit |
| Natural.SplitReconstructs | src/utils.py:31 | joining the pieces gives back the input, with its case and digits |
| Natural.NaturalSortKey | src/utils.py:25-32 | the key has odd length; even positions hold digit-free text and odd positions hold integers |
| Natural.NaturalKeysComparable | src/utils.py:30-32 | any two keys can be compared, so a text piece is never compared with an integer |
| Natural.NaturalLeTotalPreorder | src/utils.py:25-32 | ordering by the key is a total preorder |
| Natural.NaturalTiedKeys | src/utils.py:25-32 | names tied in the natural order have equal keys |
| Natural.NumericRunsByValue | src/utils.py:31 | names that differ only in one numeric run are ordered by that run's value (`img2` before `img10`) |
| Natural.DigitRunsByValue | src/utils.py:31 | the keys of names that differ in one digit run compare as the runs' values |
| Natural.LeadingZerosIgnored | src/utils.py:31 | leading zeros in a digit run do not change the key (`007` and `7`) |
| Natural.KeyIgnoresCase | src/utils.py:31 | the key of a name equals the key of its lowercase form |
| Natural.SplitLower | src/utils.py:31 | splitting the lowercased name gives the lowercased pieces |
| Natural.NaturalSorted | src/utils.py:113 | sorting by the key gives an ordered permutation of the input |
| Parser.MatchEndAtSound | src/parser.py:5 | the end the scanner reports at a position is a match of `([\d]+.?\d*)\.cbz` there |
| Parser.MatchEndAtComplete | src/parser.py:5 | every match at that position ends at or before the reported end, so the scanner finds the group the backtracking engine returns |
| Parser.SearchFromCorrect | src/parser.py:23 | `re.search` reports the leftmost start that matches, with the longest group there; without a report, no position matches |
| Parser.ChapterGroup | src/parser.py:23-26 | the captured group starts with a digit, and after its first non-digit it holds only digits |
| Parser.FracValue | src/parser.py:26 | the value of the digits after a decimal point lies in [0, 1) |
| Parser.ParseChapterNumber | src/parser.py:11-31 | a chapter number is non-negative and exists only when the pattern matches |
| Parser.ChapterValue | src/grouper.py:153 | `parse_chapter_number(name) or 0` is the parsed number, or 0 when none is found, and is never negative |
| Parser.FloatOfInteger | src/parser.py:26 | `float` of a digit string is its value |
| Parser.FloatOfDecimal | src/parser.py:26 | `float` of `D.F` is the decimal number it spells |
| Parser.WholeChapterNumber | src/parser.py:14-16 | the first digit run of a name, when directly followed by `.cbz` in any case, is the chapter number |
| Parser.DecimalChapterNumber | src/parser.py:17-19 | the first digits, a point, more digits and `.cbz` spell the chapter number |
| Parser.WholeChapterExample | src/parser.py:15 | `Chapter 125.cbz` gives 125 |
| Parser.DecimalChapterExample | src/parser.py:17 | `Chapter 125.5.cbz` gives 125.5 |
| Parser.InvalidGroupExample | src/parser.py:25-29 | `12 5.cbz` matches, but its group is not a valid float, so the result is None |
| Parser.LeftmostMatchWins | src/parser.py:23 | in `Vol 2 Chapter 5.cbz` the `2` cannot reach `.cbz`, so the chapter is 5 |
| Parser.NoDigitsNoChapter | src/parser.py:30-31 | a name without digits has no chapter number |
| Parser.TailMatchesIff | src/parser.py:7 | the scanner for `.*\.cbz$` accepts exactly the suffixes the regex accepts |
| Parser.NumberMatchesIff | src/parser.py:7 | the scanner for `[\d\.]+.*\.cbz$` accepts exactly what the regex accepts |
| Parser.WordMatchesIff | src/parser.py:7 | the scanner for `Chapter[\s\-_]*[\d\.]+.*\.cbz$`, ignoring case, accepts exactly what the regex accepts |
| Parser.RestMatchesIff | src/parser.py:6-8 | the scanner for everything after the lazy group accepts exactly what the regex accepts |
| Parser.FindNameEnd | src/parser.py:46 | the lazy group `(.*?)` ends at the first position from which the rest of the pattern matches, with no newline before it; with no such position, it fails |
| Parser.FindNameEndCorrect | src/parser.py:46 | `re.match` gives the shortest group after which the rest of the pattern matches, or no match when there is none |
| Parser.GetMangaName | src/parser.py:34-51 | the result is None exactly for an empty list; a name other than the directory's is non-empty and has no surrounding whitespace |
| Parser.MangaNameFromFile | src/parser.py:43-48 | a name other than the directory's is the stripped shortest group of the first file's name |
| Parser.MangaNameFallback | src/parser.py:49-51 | if the first file's name does not match, the directory name is used |
| Parser.MangaNameFromMatch | src/parser.py:43-51 | given the shortest group length after which the rest of the pattern matches, the name is that stripped group, or the directory name when the stripped group is empty |
| Parser.BlankNameFromDirectory | src/parser.py:47-51 | an empty name can only be the directory name |
| Parser.NoChapterWordNoName | src/parser.py:45-51 | a first file name without the word `chapter` gives the directory name |
| Parser.MangaNameExample | src/parser.py:45 | `Manga Name Chapter 1.cbz` gives `Manga Name` |
| Parser.IsVolume | src/parser.py:54-59 | no chapter is ever classified as part of a volume |
| Utils.TruncBounds | src/utils.py:81 | `int()` of a real rounds toward zero |
| Utils.TruncMonotone | src/utils.py:81 | truncation is monotone |
| Utils.MinIsLeast | src/utils.py:80 | `min` of a non-empty list is an element that is at most every element |
| Utils.MaxIsGreatest | src/utils.py:80 | `max` of a non-empty list is an element that is at least every element |
| Utils.ChapterRangeUnknown | src/utils.py:78-79 | the label is `Unknown Chapters` exactly when the list is empty |
| Utils.ChapterRangeBounds | src/utils.py:73-81 | a non-empty list gets `"<low> - <high>"`, where low and high are truncations of list elements, are attained, and bound every truncated element |
| Utils.ChapterRangeOrderFree | src/utils.py:80 | the label does not depend on the order of the list |
| Utils.ChapterRangeExamples | src/utils.py:76 | `[1, 2, 3, 4]` gives `1 - 4` and `[7]` gives `7 - 7` |
| Utils.RangeLabelInjective | src/utils.py:81 | the label determines both of its integers |
| Utils.GetSortedCbzFiles | src/utils.py:108-115 | each `.cbz` entry appears as often as it is listed and nothing else appears, in natural order |
| Grouper.NumPacksIsCeiling | src/grouper.py:156-159 | the number of packs is the ceiling of the count divided by the pack size |
| Grouper.Chunk | src/grouper.py:156-159 | slicing gives ceil(n/k) packs, each non-empty and at most k long, and all but the last exactly k long |
| Grouper.ChunkFlatten | src/grouper.py:156-159 | concatenating the packs gives back the sorted list |
| Grouper.ChunkSlices | src/grouper.py:157 | pack j is the slice `[j*k : j*k+k]` |
| Grouper.GroupCbzIntoPacks | src/grouper.py:144-164 | the sizes above hold, and the packs together are a permutation of the input ordered by chapter number |
| Grouper.GroupStable | src/grouper.py:152-154 | files with the same chapter number keep their input order |
| Grouper.GroupIsStableSort | src/grouper.py:152-154 | the concatenated packs equal every stable sort by chapter number |
| Grouper.PacksOrdered | src/grouper.py:152-159 | every file of an earlier pack has a chapter number at most that of every file of a later pack |
| Grouper.Suffix | src/grouper.py:138 | `Path.suffix` is empty or a dot followed by at least one character and no further dots, and it ends the base name |
| Grouper.StemAndSuffix | src/grouper.py:108 | `Path.stem` followed by `Path.suffix` is the base name |
| Grouper.GetSortedImagesCorrect | src/grouper.py:133-141 | images, those whose lowercased suffix is an image extension, appear as often as they are listed and nothing else appears, in natural order |
| Grouper.StagedNamesOrdered | src/grouper.py:122 | staged names are ordered by their ordinals in natural order, whatever the original names |
| Grouper.StagedNames | src/grouper.py:120-123 | the i-th staged name is `"{i+1:05d}_<name>"` |
| Grouper.StagedNamesStrictlySorted | src/grouper.py:120-123 | staged names are strictly increasing in natural order, and therefore pairwise distinct |
| Grouper.FailedChapterContributesNothing | src/grouper.py:109-111 | a chapter whose extraction fails adds no image and no folder |
| Grouper.ChapterDirsAppend | src/grouper.py:107-109 | one more chapter adds exactly its own folder, if its extraction made one, to the chapter folders |
| Grouper.FirstMissingDir | src/grouper.py:107-114 | the first chapter that extracts to no directory, or the number of chapters when there is none |
| Grouper.GetPackImagesToTmpDir | src/grouper.py:84-130 | the staging raises exactly when some chapter extracts to no directory, and then its state holds everything staged up to that chapter; otherwise the count is the cover indicator plus the images of the extracted chapters, and the directory gains the chapter folders and exactly the copies that succeeded, under their ordinal names |
| Grouper.StageCover | src/grouper.py:97-105 | the cover takes ordinal 1 when it is given, inserted and exists; a failed copy still uses the ordinal |
| Grouper.StageChapter | src/grouper.py:107-127 | a chapter raises exactly when its extraction created no directory, changing nothing; otherwise it adds its folder and its successfully copied images, and advances the counter by its image count |
| Grouper.CopyImages | src/grouper.py:120-127 | each image advances the counter by one; only successful copies appear in the directory |
| Grouper.WrittenFiles | src/grouper.py:124-127 | a staged file is present exactly when its copy succeeded |
| Grouper.CreateCombinedCbz | src/grouper.py:18-40 | nothing to zip gives False; otherwise the zip fails or holds each file of the directory once, in natural order |
| Grouper.ListEntries | src/grouper.py:23 | the listing holds exactly the directory's entries, once each |
| Grouper.StagedArchive | src/grouper.py:23-34 | the archive of a staged directory is exactly the successfully copied staged names, in ordinal order |
| Grouper.CombineToCbzCases | src/grouper.py:43-81 | skipped (and truthy) exactly when the range is processed; the raised error exactly when it is not and some chapter left no directory; None exactly when neither holds and no ordinal was used; truthy otherwise only when the zip succeeds, with an archive holding each staged file once, in ordinal order |
| Grouper.CombineToCbz | src/grouper.py:43-81 | the staging and zipping steps compute the combine outcome above, the raised error included |
| StateManager.LoadStatus | src/state_manager.py:6-26 | a readable file gives its saved status; a missing or unreadable file gives two empty maps |
| StateManager.SaveLoadRoundTrip | src/state_manager.py:29-40 | loading a saved status gives it back |
| StateManager.MarkProcessed | src/state_manager.py:48-50 | the processed keys become the old ones plus the range, creating the map if it is missing; the converted map is unchanged |
| StateManager.MarkConverted | src/state_manager.py:43-45 | the converted keys become the old ones plus the range; the processed map is unchanged |
| StateManager.MissingMapsHoldNothing | src/state_manager.py:53-58 | with both maps missing, no range is processed or converted |
| StateManager.MarkProcessedEffect | src/state_manager.py:48-58 | after the update, a range is processed exactly when it is the updated one or was processed; conversion is unaffected |
| StateManager.MarkConvertedEffect | src/state_manager.py:43-58 | after the update, a range is converted exactly when it is the updated one or was converted; processing is unaffected |
| StateManager.MarkIdempotent | src/state_manager.py:43-50 | applying either update twice equals applying it once |
| StateManager.MarkPresent | src/state_manager.py:49 | marking an already processed range changes nothing |
| StateManager.MarkKeepsConvertedImpliesProcessed | src/state_manager.py:43-50 | marking processed, or marking converted a processed range, keeps converted ⊆ processed |
| StateManager.StatusStore.Load | src/state_manager.py:6-26 | the store starts from the loaded status and the file as found |
| StateManager.StatusStore.Save | src/state_manager.py:29-40 | a successful save makes the file hold the status; a failed one leaves the file and the status unchanged |
| StateManager.StatusStore.UpdateStatus | src/state_manager.py:48-50 | the status is marked processed whether or not the save succeeds; the file holds it when the save succeeds |
| StateManager.StatusStore.UpdateConversionStatus | src/state_manager.py:43-45 | the status is marked converted whether or not the save succeeds; the file holds it when the save succeeds |
| Extractor.ExtractCbzOutcomes | src/extractor.py:12-26 | extraction fails for a bad or unreadable archive, and otherwise succeeds exactly when writing succeeds |
| Extractor.ChapterExtractionCases | src/extractor.py:12-26 | a chapter fails to extract exactly when its archive is bad or broken or writing fails; it leaves no directory exactly when it extracts and has no members; otherwise its directory lists the given entries |
| Extractor.CandidatesHeadLeast | src/extractor.py:54-57 | the candidates are exactly the members whose lowercased names end with an image extension, and the first one is least in natural order |
| Extractor.ExtractFirstCoverImageCorrect | src/extractor.py:47-85 | a cover results exactly when the first archive opens, has an image member and the copy succeeds; it is the temp name with the suffix of the naturally first image |
| Extractor.CoverKeepsSuffix | src/extractor.py:64-68 | the temp file's suffix is the chosen member's suffix |
| Extractor.CoverOrigin | src/extractor.py:29-44 | no archives give no cover; fetching with a non-empty URL gives the download's result; otherwise the cover comes from an image of the first archive |
| Extractor.NoCoverFromFailedFirstChapter | src/extractor.py:48-50 | only the first archive is inspected: if it cannot be opened there is no cover |
| FixCbz.CollectImages | scripts/fix_cbz.py:12-16 | the walk loop collects the image paths of every directory, in walk order |
| FixCbz.ImagePathsMembers | scripts/fix_cbz.py:13-16 | a path is collected exactly when some directory lists a file with an image extension that joins to it |
| FixCbz.SortPaths | scripts/fix_cbz.py:19 | the sort gives a permutation in plain string order |
| FixCbz.PlainOrderIsNotNatural | scripts/fix_cbz.py:19 | plain order puts `p10` before `p2` |
| FixCbz.SplitExtShape | scripts/fix_cbz.py:27 | `os.path.splitext` gives empty or a dotted extension without further dots, and it ends the path |
| FixCbz.SplitRootExt | scripts/fix_cbz.py:53 | root and extension together are the path |
| FixCbz.RenamedImageKeepsExtension | scripts/fix_cbz.py:15-27 | a kept image keeps the extension it was selected by, unless its stem is all dots |
| FixCbz.HiddenImageLosesExtension | scripts/fix_cbz.py:15-28 | a file named `.jpg` is kept but renamed without an extension |
| FixCbz.NewNamesAt | scripts/fix_cbz.py:25-28 | the i-th image becomes `"{i:04}<ext>"` |
| FixCbz.NewNameInjective | scripts/fix_cbz.py:28 | equal new names come from the same position |
| FixCbz.NewNamesDistinct | scripts/fix_cbz.py:25-29 | the new names are pairwise distinct |
| FixCbz.NewNamesNaturallySorted | scripts/fix_cbz.py:25-28 | the new names are strictly increasing in natural order |
| FixCbz.PlainOrderBreaksAt10000 | scripts/fix_cbz.py:28 | from 10000 images on, plain order no longer follows the numbering |
| FixCbz.CopyRenamed | scripts/fix_cbz.py:25-29 | the copy loop adds exactly the renamed files to the fixed folder |
| FixCbz.FixCbzStructure | scripts/fix_cbz.py:6-43 | the fixed folder gains the renamed images, and the archive holds exactly the fixed folder's files |
| FixCbz.FixedArchiveContents | scripts/fix_cbz.py:25-39 | the archive holds one file per collected image, named by its position |
| FixCbz.JobsAt | scripts/fix_cbz.py:50-54 | the k-th job rebuilds the k-th archive into `<root>_fixed.cbz` |
| FixCbz.ProcessCbzInFolder | scripts/fix_cbz.py:46-58 | the jobs are those of the `.cbz` entries, in listing order |
| FixCbz.RebuildEach | scripts/fix_cbz.py:50-58 | the loop makes one job per archive |
| FixCbz.ProcessedArchives | scripts/fix_cbz.py:48-54 | every job's input is a listed `.cbz` entry, in any case, and its output is the fixed name |
| FixCbz.FixedNameIsCbz | scripts/fix_cbz.py:52-54 | a fixed name is itself a `.cbz` name and differs from its input |
| FixCbz.FixedNameCollision | scripts/fix_cbz.py:52-54 | `a.cbz` and `a.CBZ` are rebuilt into the same output |
| Orchestrator.ChapterNumbersAt | scripts/combine_and_process_cbz.py:172-174 | each part file's number is its parsed chapter number, or 0 when none is found |
| Orchestrator.RangeLabelsCollide | scripts/combine_and_process_cbz.py:177 | chapters 5.1–5.2 and 5.3–5.4 get the same range label |
| Orchestrator.DryRunNoticeNeverShown | scripts/combine_and_process_cbz.py:183 | the integer part number is never among the string keys, so the dry-run notice never appears |
| Orchestrator.CombinerSkipsDone | src/grouper.py:53-57 | the combine step skips every processed range |
| Orchestrator.ExtractedAt | src/grouper.py:107-109 | each chapter of a part is extracted from the archive its file opens to |
| Orchestrator.CombinerRaises | src/grouper.py:53-114 | the combine step raises exactly when the range is not processed and some chapter file of the part extracts to no directory |
| Orchestrator.CombinerNeverRaises | src/grouper.py:107-114 | when no chapter file extracts to no directory, the combine step never raises |
| Orchestrator.MemberlessChapterRaises | src/grouper.py:107-114 | a real step for an unprocessed part holding a member-less chapter that extracts raises and changes neither the status nor the file |
| Orchestrator.StepNeverRaises | scripts/combine_and_process_cbz.py:182-198 | a step whose combine never raises does not raise |
| Orchestrator.DryRunStep | scripts/combine_and_process_cbz.py:182-188 | a dry run neither combines nor converts, and leaves the status and the file unchanged |
| Orchestrator.RealStep | scripts/combine_and_process_cbz.py:190-223 | a falsy combine changes nothing; otherwise the range is processed, conversion is skipped exactly when already converted, runs only then, and the range is converted afterwards exactly when it was already or conversion succeeded |
| Orchestrator.DoneRangeSkipped | scripts/combine_and_process_cbz.py:190-210 | a processed and converted range performs no combine and no conversion, and adds no key |
| Orchestrator.StepSynced | scripts/combine_and_process_cbz.py:203-221 | when both saves of the part succeed and the status file already held the in-memory status before the part, it holds it after the part (a missing or unreadable file is covered by `StepLoaded`) |
| Orchestrator.StepLoaded | scripts/combine_and_process_cbz.py:203-221 | when both saves of the part succeed and the in-memory status is what the file loads as, including the empty status of a missing or unreadable file, the file after the part loads as the new status |
| Orchestrator.StepFailedWritesKeepFile | src/state_manager.py:29-40 | when both saves of the part fail, the status file is unchanged |
| Orchestrator.StepMonotone | scripts/combine_and_process_cbz.py:199-223 | a part removes no key and keeps converted ⊆ processed |
| Orchestrator.SameLabelSkipsLaterPart | scripts/combine_and_process_cbz.py:177-210 | a later part with a label already converted in the run is skipped entirely |
| Orchestrator.RunPacksNext | scripts/combine_and_process_cbz.py:167 | when no part before it raised, the loop over `i + 1` parts is the loop over `i` parts, which handled all `i`, followed by one step for part `i + 1` |
| Orchestrator.RunPacksAfterStop | scripts/combine_and_process_cbz.py:167-198 | once a part has raised, the later parts change nothing |
| Orchestrator.RunPacksStopsAtRaise | scripts/combine_and_process_cbz.py:167-198 | no part before the last handled one raised, and every part was handled unless the last handled one raised |
| Orchestrator.RunPacksCompletes | scripts/combine_and_process_cbz.py:167 | with a combine that never raises, every part is handled |
| Orchestrator.RunPacksShape | scripts/combine_and_process_cbz.py:167-198 | a run handles at most every part, stops short only at a raise, and as a dry run handles all of them and keeps the status file |
| Orchestrator.DryRunChangesNothing | scripts/combine_and_process_cbz.py:182-188 | a dry run handles every part, leaves the status and the file unchanged, and gives no notice |
| Orchestrator.RunPacksMonotone | scripts/combine_and_process_cbz.py:167-223 | the loop removes no key and keeps converted ⊆ processed |
| Orchestrator.RunPacksRecords | scripts/combine_and_process_cbz.py:199-221 | after the loop, every part handled whose combine was truthy is processed, and converted when its conversion succeeded or was already done |
| Orchestrator.ResumeDoesNothing | scripts/combine_and_process_cbz.py:190-210 | if every part is processed and converted, a run handles every part, adds no key and skips each part |
| Orchestrator.SecondRunDoesNothing | scripts/combine_and_process_cbz.py:190-210 | after a real run in which every part was converted, a second real run that starts from the first run's in-memory status, with any world and any cover, handles every part and performs no combine and no conversion |
| Orchestrator.SecondRunFromFile | scripts/combine_and_process_cbz.py:127-221 | when the first real run starts from what the status file loads as (a missing file included), every one of its saves succeeds and every part is converted, the next invocation, which starts from what the file it left loads as, handles every part and performs no combine and no conversion |
| Orchestrator.SecondRunAfterFailedWrites | src/state_manager.py:29-40 | when every save of a run fails, the next invocation loads the same status as the first did and, in the same world, repeats the first run exactly |
| Orchestrator.ConvertedRunCompletes | scripts/combine_and_process_cbz.py:190-223 | a real run whose every outcome was converted handled every part |
| Orchestrator.RealStepOutcome | scripts/combine_and_process_cbz.py:199-206 | in a real run, conversion is considered for a part exactly when its combine was truthy |
| Orchestrator.RunPacksSynced | scripts/combine_and_process_cbz.py:203-221 | when every save succeeds and the status file already held the starting status, it holds the final status (a missing or unreadable file is covered by `RunPacksLoaded`) |
| Orchestrator.RunPacksLoaded | scripts/combine_and_process_cbz.py:127-221 | when every save succeeds and the run starts from what the status file loads as, including a missing or unreadable file, the file it leaves loads as the final status |
| Orchestrator.RunPacksFailedWritesKeepFile | src/state_manager.py:29-40 | when every save fails, the run leaves the status file as it was, whatever it combined and converted |
| Orchestrator.StepKeepsMaps | src/state_manager.py:43-50 | a part keeps both maps of the status present |
| Orchestrator.RunPacksKeepsMaps | scripts/combine_and_process_cbz.py:167-221 | a run that starts with both maps present ends with both present, so the next invocation's status lookups do not raise |
| Orchestrator.ProcessPart | scripts/combine_and_process_cbz.py:168-223 | one iteration updates the store and reports the part as the step above |
| Orchestrator.ProcessPacks | scripts/combine_and_process_cbz.py:155-223 | the loop leaves the store and reports the parts as the loop function does, ending at a part that raises |
| Orchestrator.ProcessMangaFolder | scripts/combine_and_process_cbz.py:90-152 | the folder procedure computes the folder outcome and the status file it leaves, with each early exit, the status-lookup error and a raised combine included |
| Orchestrator.FolderGuards | scripts/combine_and_process_cbz.py:93-180 | the run stops for lack of CBZ files exactly when no entry ends in `.cbz`; for lack of a name exactly when there is one and the name found is empty, which needs an empty directory name; for lack of metadata exactly when a name is found and the lookup gives nothing; for a missing status map exactly when neither of those stops it and the loaded status lacks one; for an output folder that cannot be made exactly when none of those stops it and `mkdir` fails, in which case the first part's path raises; every early exit leaves the status file untouched |
| Orchestrator.FolderNamedGuard | scripts/combine_and_process_cbz.py:126-180 | once named, a folder stops, untouched, exactly when the loaded status lacks a map, or else exactly when the output folder cannot be made, and is processed otherwise |
| Orchestrator.RootFolderHasNoName | scripts/combine_and_process_cbz.py:98-101 | a folder with an empty name holding only `001.cbz` stops for lack of a manga name |
| Orchestrator.SingleCbzFile | src/utils.py:108-115 | a folder listing one `.cbz` name yields exactly that file |
| Orchestrator.CbzFilesFound | src/utils.py:113 | the sorted list is non-empty exactly when some entry ends in `.cbz` |
| Orchestrator.FolderProcessed | scripts/combine_and_process_cbz.py:110-149 | a processed folder, one that passed every early exit including the output folder, reports every part up to and including one that raised, and all of them when none raised; its packs hold exactly the `.cbz` entries; processed in a dry run, it uses no cover, handles every part and leaves the status file unchanged |
| Orchestrator.FolderNamedProcessed | scripts/combine_and_process_cbz.py:110-149 | for a named folder the facts above hold, its packs holding exactly its chapter files |
| Orchestrator.SecondFolderRunDoesNothing | scripts/combine_and_process_cbz.py:90-221 | when a first real `process_manga_folder` was processed with every save succeeding and every part converted, a second real one from the status file it left, with fresh metadata and cover and an output folder that can be made, is processed, handles every part and performs no combine and no conversion |
| Orchestrator.SecondNamedRunDoesNothing | scripts/combine_and_process_cbz.py:110-221 | the same two invocations for the chapter files of a named manga |

## Left out

- Zip reading and writing, `shutil` copies, temporary directories, `glob`, `iterdir`, `os.listdir` and `os.walk`: these are I/O. Directories are name sequences (walk steps in `fix_cbz.py`), archives are member lists or failures, and copies, zips and status writes are success flags.
- Listing order of `glob`, `iterdir`, `os.listdir` and `os.walk`: this is arbitrary, so it is a parameter. The natural sorts are stable, so names with tied keys keep their listing order (`a1.cbz` and `a01.cbz`, or `A.cbz` and `a.cbz`); so do files with equal chapter numbers in the grouping. Two results are proved independent of the listing order: the staged archive (`Grouper.StagedArchive`) and `fix_cbz.py`'s plain-order sort (`FixCbz.SortPaths`).
- JSON encoding and the atomic temp-file rename of `save_status`: each is only a saved snapshot of the status (`StateManager.Saved`). JSON that holds something other than an object with the two maps is not modelled.
- A status map whose key is absent is `None`. A loaded status that lacks `processed_cbz_parts` or `converted_mobi_parts` ends the folder run with `StatusKeyMissing`, the `KeyError` of scripts/combine_and_process_cbz.py:129-132; the exception itself and its message are not modelled.
- Metadata lookup (`fetch_manga_info_jikan`), `download_cover_image` and the KCC conversion: these are network and subprocess calls. Their outcomes are parameters: `metadata`, `downloaded` and `World.convertOk`. Empty metadata is modelled as `None`.
- `display_manga_info`, logging, progress bars and `print`: these are output only.
- `create_output_folder` is modelled only as whether its `mkdir` succeeds (`World.outputDirOk`); `clean_cover_image`, `zip_files` and the output path are I/O, and only the output name is modelled. The cover file that stays behind after the `TypeError` of a missing output folder is not modelled.
- The temporary cover file: its deletion, and the file leaked when its copy fails.
- Files left behind by a partial extraction.
- A chapter stem that collides with a staged name. Chapter folders and staged files are kept apart as `Dir` and `File` entries.
- Utils.IsCbzName, Grouper.BaseName, FixCbz.Join and FixCbz.SortPaths: the model fixes POSIX path behaviour, with a case-sensitive `glob("*.cbz")` and `/` as the only separator. The code expects Windows (it looks for `bin/kcc.exe`). There, `glob` ignores case, so a folder holding only `Chapter 1.CBZ` is processed, where `FolderRun` gives `NoCbzFiles`. `os.path.join` and `os.walk` also build paths with `\` there, and `\` sorts after the capital letters where `/` sorts before them, so `all_images.sort()` can order walked directories differently (`A\x.jpg` after `AB\x.jpg`). `Path.name` and `Path.stem` would also split at `\`.
- Character classes: `\d`, `str.lower` and `isdigit` are ASCII only. `\s` and `str.strip` use Python's whitespace set. `pathlib` path normalisation is not modelled.
- Floating point: chapter numbers are exact reals. `Parser.FloatOfGroup` models the forms `float()` accepts for a captured group: an integer, `D.F`, trailing whitespace, an exponent and an underscore separator. It does not model rounding or the range limits of a binary float.
- An exception raised inside `fix_cbz_structure` ends the whole run in the source. The model treats each rebuild as succeeding.
- The module-level call of `process_cbz_in_folder(".")` in scripts/fix_cbz.py:62-65 is a script side effect. The folder is a parameter.
- src/constants.py is not part of this model. `CHAPTERS_PER_PART`, `IMAGE_EXTENSIONS` and `STATUS_FILE` are parameters.
- Orchestrator.RunPacks: the loop lemmas are stated for any combine step. Those that need it assume only that processed ranges are skipped (`Orchestrator.SkipsDone`), or that the step never raises (`Orchestrator.NeverRaises`). `FolderRun` and `ProcessMangaFolder` pass Grouper's model of `combine_to_cbz`.
- The `FileNotFoundError` of a member-less chapter is an outcome (`Grouper.NoChapterDir`) after which the loop stops. The traceback, the temporary directory's removal and the cover file left behind are not modelled.
- What a chapter's directory lists (`World.listing`) is a parameter. It is not derived from the archive's member names, so nested members, `..` components and absolute member paths are not modelled. A member-less chapter whose stem names a folder an earlier chapter of the part already created would find that folder; the model has it raise in every case.
