/**
 * The driver of one manga folder: the early exits of `process_manga_folder`
 * and the per-part loop of `process_packs`.
 *
 * Combining a part is the Grouper model. Everything the driver hands to code
 * outside this model (extracting chapters, copying and zipping, converting,
 * writing the status file, fetching metadata and the cover) is an outcome
 * supplied as a parameter.
 */
module Orchestrator {
  import opened Wrappers
  import Strings
  import StateManager
  import Parser
  import Utils
  import Grouper
  import Extractor

  /**
   * The outcomes of the steps outside the model. Parts are numbered from 1,
   * as `enumerate(parts, start=1)` numbers them.
   */
  datatype World = World(
    archives: string -> Extractor.Archive,     // what opening each chapter file gives
    extractOk: string -> bool,                 // whether writing each chapter's members out succeeds
    listing: string -> seq<string>,            // the entries `iterdir` yields for each extracted chapter directory
    copyOk: nat -> nat -> bool,                // per part, whether the copy to each ordinal succeeds
    zipOk: nat -> bool,                        // per part, whether writing the archive succeeds
    convertOk: nat -> bool,                    // per part, what `convert_cbz_to_mobi` returns
    statusWriteOk: nat -> bool,                // per part, whether the save in `update_status` succeeds
    conversionWriteOk: nat -> bool,            // per part, whether the save in `update_conversion_status` succeeds
    coverExists: bool,                         // whether the cover file exists when a part is staged
    outputDirOk: bool)                         // whether `create_output_folder` can make the `Converted` folder

  // ---------------------------------------------------------------------
  // The key of a part
  // ---------------------------------------------------------------------

  /** `[parse_chapter_number(cbz.name) or 0 for cbz in part_cbz_files]` */
  function ChapterNumbers(part: seq<string>): (numbers: seq<real>)
    ensures |numbers| == |part|
  {
    if part == [] then [] else ChapterNumbers(part[..|part| - 1]) + [Parser.ChapterValue(part[|part| - 1])]
  }

  /** The number of each file is its parsed chapter number, or 0 when it has none. */
  lemma {:induction false} ChapterNumbersAt(part: seq<string>, j: nat)
    requires j < |part|
    ensures ChapterNumbers(part)[j] == Parser.ChapterValue(part[j])
    ensures Parser.ParseChapterNumber(part[j]).None? ==> ChapterNumbers(part)[j] == 0.0
    ensures Parser.ParseChapterNumber(part[j]).Some? ==> ChapterNumbers(part)[j] == Parser.ParseChapterNumber(part[j]).value
  {
    var init := part[..|part| - 1];
    if j < |init| {
      ChapterNumbersAt(init, j);
      assert init[j] == part[j];
    }
  }

  /** The chapter range a part is recorded under. */
  function PartRange(part: seq<string>): string {
    Utils.ChapterRange(ChapterNumbers(part))
  }

  /**
   * Different parts can share a label: chapters 5.1 and 5.2 make the same
   * range as chapters 5.3 and 5.4.
   */
  lemma RangeLabelsCollide()
    ensures Utils.ChapterRange([5.1, 5.2]) == Utils.ChapterRange([5.3, 5.4]) == Utils.RangeLabel(5, 5)
  {
    Utils.MinUnique([5.1, 5.2], 5.1);
    Utils.MaxUnique([5.1, 5.2], 5.2);
    Utils.MinUnique([5.3, 5.4], 5.3);
    Utils.MaxUnique([5.3, 5.4], 5.4);
    assert Utils.Trunc(5.1) == 5 && Utils.Trunc(5.2) == 5;
    assert Utils.Trunc(5.3) == 5 && Utils.Trunc(5.4) == 5;
  }

  /** `f"{manga_name} {chapter_range}.cbz"` */
  function OutputName(mangaName: string, chapterRange: string): string {
    mangaName + " " + chapterRange + ".cbz"
  }

  /** What extracting a chapter file leaves for staging. */
  function ChapterExtraction(file: string, w: World): Grouper.Extraction {
    Extractor.ChapterExtraction(w.archives(file), w.extractOk(file), w.listing(file))
  }

  /** What extracting each chapter file of a part leaves. */
  function Extracted(part: seq<string>, w: World): (r: seq<Grouper.Extraction>)
    ensures |r| == |part|
  {
    if part == [] then [] else Extracted(part[..|part| - 1], w) + [ChapterExtraction(part[|part| - 1], w)]
  }

  /** Each chapter of a part is extracted from the archive its file opens to. */
  lemma {:induction false} ExtractedAt(part: seq<string>, w: World, j: nat)
    requires j < |part|
    ensures Extracted(part, w)[j] == ChapterExtraction(part[j], w)
  {
    var init := part[..|part| - 1];
    if j < |init| {
      ExtractedAt(init, w, j);
      assert init[j] == part[j];
    }
  }

  // ---------------------------------------------------------------------
  // The dry-run notice
  // ---------------------------------------------------------------------

  /** A value as Python compares it with `in`: an integer is never equal to a string. */
  datatype PyValue = PyInt(i: int) | PyStr(s: string)

  /**
   * `part_number in status.get("processed_cbz_parts", [])`: the integer part
   * number looked up among the keys, which JSON makes strings.
   */
  predicate DryRunSeesProcessed(s: StateManager.Status, partNumber: int) {
    PyInt(partNumber) in (set k | k in StateManager.Keys(s.processed) :: PyStr(k))
  }

  /** The dry-run notice about an already processed part is never given, whatever the status holds. */
  lemma DryRunNoticeNeverShown(s: StateManager.Status, partNumber: int)
    ensures !DryRunSeesProcessed(s, partNumber)
  {
  }

  // ---------------------------------------------------------------------
  // One part
  // ---------------------------------------------------------------------

  /** The in-memory status and the status file. */
  datatype Progress = Progress(status: StateManager.Status, file: StateManager.StatusFile)

  /** How far conversion got for a part that was not a dry run. */
  datatype Conversion = NotReached | AlreadyDone | Succeeded | Failed {
    /** The range is converted: before this run or by it. */
    predicate Converted() {
      AlreadyDone? || Succeeded?
    }
  }

  /**
   * What the loop did with one part: a dry run (with whether the notice
   * about an already processed part was given), or a real run with what
   * `combine_to_cbz` returned and how conversion went.
   */
  datatype PartOutcome =
    | DryRun(chapterRange: string, outputName: string, noticed: bool)
    | Ran(chapterRange: string, outputName: string, combine: Grouper.CombineResult, conversion: Conversion)
  {
    /** Combining the part raised, and nothing catches it: the run ends here. */
    predicate Raised() {
      Ran? && combine.NoChapterDir?
    }
  }

  /** The last part handled raised, so no further part is handled. */
  predicate Stopped(outs: seq<PartOutcome>) {
    outs != [] && outs[|outs| - 1].Raised()
  }

  /**
   * What `combine_to_cbz` returns for a part, given the status, the part's
   * range, its number and its chapter files.
   */
  type Combiner = (StateManager.Status, string, nat, seq<string>) -> Grouper.CombineResult

  /**
   * The combine of `process_packs`: Grouper's model, fed with what the
   * world yields for the part numbered `n`.
   */
  function CombinerOf(cover: Option<string>, imageExtensions: seq<string>, w: World): Combiner {
    (s: StateManager.Status, range: string, n: nat, part: seq<string>) =>
      Grouper.CombineToCbzOutcome(s, range, part, cover, w.coverExists, Extracted(part, w),
                                  imageExtensions, w.copyOk(n), w.zipOk(n))
  }

  /** A combiner that never raises. */
  ghost predicate NeverRaises(combine: Combiner) {
    forall s, range, n, part :: !combine(s, range, n, part).NoChapterDir?
  }

  /**
   * When every chapter file that opens with no members also fails to
   * extract, the combine of `process_packs` never raises.
   */
  lemma CombinerNeverRaises(cover: Option<string>, imageExtensions: seq<string>, w: World)
    requires forall file :: !ChapterExtraction(file, w).NoDirectory?
    ensures NeverRaises(CombinerOf(cover, imageExtensions, w))
  {
    forall s, range, n, part ensures !CombinerOf(cover, imageExtensions, w)(s, range, n, part).NoChapterDir? {
      CombinerRaises(cover, imageExtensions, w, s, range, n, part);
    }
  }

  /**
   * The combine of `process_packs` raises exactly when the range is not yet
   * processed and some chapter file of the part extracts to no directory.
   */
  lemma CombinerRaises(cover: Option<string>, imageExtensions: seq<string>, w: World,
                       s: StateManager.Status, range: string, n: nat, part: seq<string>)
    ensures CombinerOf(cover, imageExtensions, w)(s, range, n, part).NoChapterDir?
            <==> !StateManager.PartAlreadyProcessed(s, range)
                 && exists j :: 0 <= j < |part| && ChapterExtraction(part[j], w).NoDirectory?
  {
    var extracted := Extracted(part, w);
    assert CombinerOf(cover, imageExtensions, w)(s, range, n, part)
           == Grouper.CombineToCbzOutcome(s, range, part, cover, w.coverExists, extracted,
                                          imageExtensions, w.copyOk(n), w.zipOk(n));
    Grouper.CombineToCbzCases(s, range, part, cover, w.coverExists, extracted,
                              imageExtensions, w.copyOk(n), w.zipOk(n));
    forall j | 0 <= j < |part| ensures extracted[j] == ChapterExtraction(part[j], w) {
      ExtractedAt(part, w, j);
    }
  }

  /**
   * A part not yet processed that holds a chapter archive without members,
   * whose extraction succeeds, raises: the status and the file stay as
   * they were.
   */
  lemma MemberlessChapterRaises(p: Progress, mangaName: string, partNumber: nat, part: seq<string>,
                                cover: Option<string>, imageExtensions: seq<string>, w: World, j: nat)
    requires j < |part| && w.archives(part[j]) == Extractor.Members([]) && w.extractOk(part[j])
    requires !StateManager.PartAlreadyProcessed(p.status, PartRange(part))
    ensures var (q, out) := PackStep(p, false, mangaName, partNumber, part, CombinerOf(cover, imageExtensions, w), w);
            out.Raised() && q == p
  {
    assert ChapterExtraction(part[j], w).NoDirectory?;
    CombinerRaises(cover, imageExtensions, w, p.status, PartRange(part), partNumber, part);
  }

  /** A combiner that does nothing for a range the status already holds. */
  ghost predicate SkipsDone(combine: Combiner) {
    forall s, range, n, part ::
      StateManager.PartAlreadyProcessed(s, range) ==> combine(s, range, n, part) == Grouper.AlreadyCombined
  }

  /** The combine of `process_packs` skips every processed range. */
  lemma CombinerSkipsDone(cover: Option<string>, imageExtensions: seq<string>, w: World)
    ensures SkipsDone(CombinerOf(cover, imageExtensions, w))
  {
    var combine := CombinerOf(cover, imageExtensions, w);
    forall s, range, n, part | StateManager.PartAlreadyProcessed(s, range)
      ensures combine(s, range, n, part) == Grouper.AlreadyCombined
    {
      assert combine(s, range, n, part)
             == Grouper.CombineToCbzOutcome(s, range, part, cover, w.coverExists, Extracted(part, w),
                                            imageExtensions, w.copyOk(n), w.zipOk(n));
    }
  }

  /** One iteration of the loop of `process_packs` for the part numbered `partNumber`. */
  function PackStep(p: Progress, dryRun: bool, mangaName: string, partNumber: nat, part: seq<string>,
                    combine: Combiner, w: World): (Progress, PartOutcome)
  {
    var range := PartRange(part);
    var out := OutputName(mangaName, range);
    if dryRun then (p, DryRun(range, out, DryRunSeesProcessed(p.status, partNumber)))
    else
      var combined := combine(p.status, range, partNumber, part);
      if !combined.Truthy() then (p, Ran(range, out, combined, NotReached))
      else
        var s1 := StateManager.MarkProcessed(p.status, range);
        var p1 := Progress(s1, if w.statusWriteOk(partNumber) then StateManager.Saved(s1) else p.file);
        if StateManager.PartAlreadyConverted(s1, range) then (p1, Ran(range, out, combined, AlreadyDone))
        else if !w.convertOk(partNumber) then (p1, Ran(range, out, combined, Failed))
        else
          var s2 := StateManager.MarkConverted(s1, range);
          (Progress(s2, if w.conversionWriteOk(partNumber) then StateManager.Saved(s2) else p1.file),
           Ran(range, out, combined, Succeeded))
  }

  /** A dry run changes nothing and never gives the notice. */
  lemma DryRunStep(p: Progress, mangaName: string, partNumber: nat, part: seq<string>, combine: Combiner, w: World)
    ensures var (q, out) := PackStep(p, true, mangaName, partNumber, part, combine, w);
            q == p && out == DryRun(PartRange(part), OutputName(mangaName, PartRange(part)), false)
  {
    DryRunNoticeNeverShown(p.status, partNumber);
  }

  /**
   * The cases of a real run: the part is combined from the status it
   * meets; a combine that fails leaves the status and the file as they were
   * and goes no further; otherwise the range is processed afterwards,
   * conversion is attempted only when the range was not converted before,
   * and the range is converted afterwards exactly when it was before or the
   * conversion succeeded.
   */
  lemma RealStep(p: Progress, mangaName: string, partNumber: nat, part: seq<string>, combine: Combiner, w: World)
    ensures var (q, out) := PackStep(p, false, mangaName, partNumber, part, combine, w);
            var range := PartRange(part);
            && out.Ran? && out.chapterRange == range
            && out.combine == combine(p.status, range, partNumber, part)
            && (!out.combine.Truthy() <==> out.conversion == NotReached)
            && (!out.combine.Truthy() ==> q == p)
            && (out.combine.Truthy() ==>
                  && StateManager.PartAlreadyProcessed(q.status, range)
                  && (out.conversion == AlreadyDone <==> StateManager.PartAlreadyConverted(p.status, range))
                  && (out.conversion == Succeeded <==>
                        !StateManager.PartAlreadyConverted(p.status, range) && w.convertOk(partNumber))
                  && (StateManager.PartAlreadyConverted(q.status, range) <==> out.conversion.Converted()))
  {
  }

  /**
   * A range that is already processed is not combined again, and one that
   * is also converted is not converted again.
   */
  lemma DoneRangeSkipped(p: Progress, mangaName: string, partNumber: nat, part: seq<string>, combine: Combiner, w: World)
    requires SkipsDone(combine)
    requires StateManager.PartAlreadyProcessed(p.status, PartRange(part))
    ensures PackStep(p, false, mangaName, partNumber, part, combine, w).1.combine == Grouper.AlreadyCombined
    ensures StateManager.PartAlreadyConverted(p.status, PartRange(part)) ==>
              var (q, out) := PackStep(p, false, mangaName, partNumber, part, combine, w);
              && out.conversion == AlreadyDone
              && StateManager.Keys(q.status.processed) == StateManager.Keys(p.status.processed)
              && q.status.converted == p.status.converted
  {
  }

  /** A step records its part under the part's range. */
  lemma StepRange(p: Progress, dryRun: bool, mangaName: string, partNumber: nat, part: seq<string>,
                  combine: Combiner, w: World)
    ensures PackStep(p, dryRun, mangaName, partNumber, part, combine, w).1.chapterRange == PartRange(part)
  {
  }

  /** With both writes succeeding, a step that starts in agreement with the file ends in agreement. */
  lemma StepSynced(p: Progress, dryRun: bool, mangaName: string, partNumber: nat, part: seq<string>,
                   combine: Combiner, w: World)
    requires p.file == StateManager.Saved(p.status)
    requires w.statusWriteOk(partNumber) && w.conversionWriteOk(partNumber)
    ensures var q := PackStep(p, dryRun, mangaName, partNumber, part, combine, w).0;
            q.file == StateManager.Saved(q.status)
  {
  }

  /** A step only adds ranges, and it keeps every converted range processed. */
  lemma StepMonotone(p: Progress, dryRun: bool, mangaName: string, partNumber: nat, part: seq<string>,
                     combine: Combiner, w: World)
    ensures var q := PackStep(p, dryRun, mangaName, partNumber, part, combine, w).0;
            && StateManager.Keys(p.status.processed) <= StateManager.Keys(q.status.processed)
            && StateManager.Keys(p.status.converted) <= StateManager.Keys(q.status.converted)
            && (StateManager.ConvertedImpliesProcessed(p.status) ==> StateManager.ConvertedImpliesProcessed(q.status))
  {
  }

  /**
   * Two parts with the same label: once the first is converted, the second
   * is neither combined nor converted.
   */
  lemma SameLabelSkipsLaterPart(p: Progress, mangaName: string, n: nat, part: seq<string>,
                                n': nat, part': seq<string>, combine: Combiner, w: World)
    requires SkipsDone(combine)
    requires PartRange(part) == PartRange(part')
    requires PackStep(p, false, mangaName, n, part, combine, w).1.conversion == Succeeded
    ensures var q := PackStep(p, false, mangaName, n, part, combine, w).0;
            PackStep(q, false, mangaName, n', part', combine, w).1
            == Ran(PartRange(part), OutputName(mangaName, PartRange(part)), Grouper.AlreadyCombined, AlreadyDone)
  {
    RealStep(p, mangaName, n, part, combine, w);
  }

  // ---------------------------------------------------------------------
  // All parts
  // ---------------------------------------------------------------------

  /**
   * The loop of `process_packs` over `parts`, from the progress `p`: one
   * outcome per part handled, up to and including a part that raised.
   */
  function RunPacks(p: Progress, dryRun: bool, mangaName: string, parts: seq<seq<string>>,
                    combine: Combiner, w: World): (r: (Progress, seq<PartOutcome>))
    ensures |r.1| <= |parts|
    ensures |r.1| < |parts| ==> Stopped(r.1)
  {
    if parts == [] then (p, [])
    else
      var (q, outs) := RunPacks(p, dryRun, mangaName, parts[..|parts| - 1], combine, w);
      if Stopped(outs) then (q, outs)
      else
        var (q', out) := PackStep(q, dryRun, mangaName, |parts|, parts[|parts| - 1], combine, w);
        (q', outs + [out])
  }

  /**
   * Running one more part, when none before it raised, is one more step,
   * numbered after the parts before it.
   */
  lemma RunPacksNext(p: Progress, dryRun: bool, mangaName: string, parts: seq<seq<string>>, i: nat,
                     combine: Combiner, w: World)
    requires i < |parts|
    requires !Stopped(RunPacks(p, dryRun, mangaName, parts[..i], combine, w).1)
    ensures var (q, outs) := RunPacks(p, dryRun, mangaName, parts[..i], combine, w);
            var (q', out) := PackStep(q, dryRun, mangaName, i + 1, parts[i], combine, w);
            && |outs| == i
            && RunPacks(p, dryRun, mangaName, parts[..i + 1], combine, w) == (q', outs + [out])
  {
    assert parts[..i + 1][..i] == parts[..i];
  }

  /** Once a part has raised, the parts after it change nothing. */
  lemma {:induction false} RunPacksAfterStop(p: Progress, dryRun: bool, mangaName: string, parts: seq<seq<string>>,
                                             j: nat, combine: Combiner, w: World)
    requires j <= |parts|
    requires Stopped(RunPacks(p, dryRun, mangaName, parts[..j], combine, w).1)
    ensures RunPacks(p, dryRun, mangaName, parts, combine, w) == RunPacks(p, dryRun, mangaName, parts[..j], combine, w)
    decreases |parts|
  {
    if j < |parts| {
      var init := parts[..|parts| - 1];
      assert init[..j] == parts[..j];
      RunPacksAfterStop(p, dryRun, mangaName, init, j, combine, w);
    } else {
      assert parts[..j] == parts;
    }
  }

  /**
   * The loop ends at the first part that raises: no earlier part raised, and
   * unless the last part handled raised, every part was handled.
   */
  lemma {:induction false} RunPacksStopsAtRaise(p: Progress, dryRun: bool, mangaName: string, parts: seq<seq<string>>,
                                                combine: Combiner, w: World)
    ensures var outs := RunPacks(p, dryRun, mangaName, parts, combine, w).1;
            && (forall i :: 0 <= i < |outs| - 1 ==> !outs[i].Raised())
            && (|outs| == |parts| || (outs != [] && outs[|outs| - 1].Raised()))
  {
    if parts != [] {
      RunPacksStopsAtRaise(p, dryRun, mangaName, parts[..|parts| - 1], combine, w);
    }
  }

  /** With a combine that never raises, every part is handled. */
  lemma {:induction false} RunPacksCompletes(p: Progress, dryRun: bool, mangaName: string, parts: seq<seq<string>>,
                                             combine: Combiner, w: World)
    requires NeverRaises(combine)
    ensures var outs := RunPacks(p, dryRun, mangaName, parts, combine, w).1;
            |outs| == |parts| && !Stopped(outs)
  {
    if parts != [] {
      var init := parts[..|parts| - 1];
      RunPacksCompletes(p, dryRun, mangaName, init, combine, w);
      var q := RunPacks(p, dryRun, mangaName, init, combine, w).0;
      StepNeverRaises(q, dryRun, mangaName, |parts|, parts[|parts| - 1], combine, w);
    }
  }

  /** A step whose combine never raises does not raise. */
  lemma StepNeverRaises(p: Progress, dryRun: bool, mangaName: string, partNumber: nat, part: seq<string>,
                        combine: Combiner, w: World)
    requires NeverRaises(combine)
    ensures !PackStep(p, dryRun, mangaName, partNumber, part, combine, w).1.Raised()
  {
    if !dryRun {
      RealStep(p, mangaName, partNumber, part, combine, w);
    }
  }

  /** A dry run changes neither the status nor the file, and reports every part as a dry run. */
  lemma {:induction false} DryRunChangesNothing(p: Progress, mangaName: string, parts: seq<seq<string>>,
                                                combine: Combiner, w: World)
    ensures var (q, outs) := RunPacks(p, true, mangaName, parts, combine, w);
            && q == p && |outs| == |parts|
            && forall i :: 0 <= i < |outs| ==> outs[i].DryRun? && !outs[i].noticed
  {
    if parts != [] {
      var init := parts[..|parts| - 1];
      DryRunChangesNothing(p, mangaName, init, combine, w);
      DryRunStep(p, mangaName, |parts|, parts[|parts| - 1], combine, w);
      var outs := RunPacks(p, true, mangaName, init, combine, w).1;
      assert !Stopped(outs) by {
        if outs != [] {
          assert outs[|outs| - 1].DryRun?;
        }
      }
    }
  }

  /** Ranges are only ever added, and every converted range stays processed. */
  lemma {:induction false} RunPacksMonotone(p: Progress, dryRun: bool, mangaName: string, parts: seq<seq<string>>,
                                            combine: Combiner, w: World)
    ensures var q := RunPacks(p, dryRun, mangaName, parts, combine, w).0;
            && StateManager.Keys(p.status.processed) <= StateManager.Keys(q.status.processed)
            && StateManager.Keys(p.status.converted) <= StateManager.Keys(q.status.converted)
            && (StateManager.ConvertedImpliesProcessed(p.status) ==> StateManager.ConvertedImpliesProcessed(q.status))
  {
    if parts != [] {
      var init := parts[..|parts| - 1];
      RunPacksMonotone(p, dryRun, mangaName, init, combine, w);
      var (q, outs) := RunPacks(p, dryRun, mangaName, init, combine, w);
      if !Stopped(outs) {
        StepMonotone(q, dryRun, mangaName, |parts|, parts[|parts| - 1], combine, w);
      }
    }
  }

  /**
   * The status `s` records the outcome `out` of `part`: a combine that
   * succeeded or was skipped has the range processed, and a conversion done
   * now or before has it converted.
   */
  predicate Recorded(s: StateManager.Status, part: seq<string>, out: PartOutcome) {
    out.Ran? && out.combine.Truthy() ==>
      && StateManager.PartAlreadyProcessed(s, PartRange(part))
      && (out.conversion.Converted() ==> StateManager.PartAlreadyConverted(s, PartRange(part)))
  }

  /** At the end of a run, the status records the outcome of every part handled. */
  lemma {:induction false} RunPacksRecords(p: Progress, dryRun: bool, mangaName: string, parts: seq<seq<string>>,
                                           combine: Combiner, w: World)
    ensures var (q, outs) := RunPacks(p, dryRun, mangaName, parts, combine, w);
            forall i :: 0 <= i < |outs| ==> Recorded(q.status, parts[i], outs[i])
  {
    if parts != [] {
      var n := |parts| - 1;
      var init, last := parts[..n], parts[n];
      RunPacksRecords(p, dryRun, mangaName, init, combine, w);
      var (q, outs) := RunPacks(p, dryRun, mangaName, init, combine, w);
      if Stopped(outs) {
        forall i | 0 <= i < |outs| ensures Recorded(q.status, parts[i], outs[i]) {
          assert init[i] == parts[i];
        }
      } else {
        var (q', out) := PackStep(q, dryRun, mangaName, n + 1, last, combine, w);
        StepRecords(q, dryRun, mangaName, n + 1, last, combine, w);
        RecordsExtended(q.status, q'.status, parts, outs, out);
      }
    }
  }

  /** Records of earlier parts survive a status that holds more ranges, and the last part adds its own. */
  lemma RecordsExtended(s: StateManager.Status, s': StateManager.Status, parts: seq<seq<string>>,
                        outs: seq<PartOutcome>, out: PartOutcome)
    requires |parts| == |outs| + 1
    requires forall i :: 0 <= i < |outs| ==> Recorded(s, parts[..|outs|][i], outs[i])
    requires Recorded(s', parts[|outs|], out)
    requires StateManager.Keys(s.processed) <= StateManager.Keys(s'.processed)
    requires StateManager.Keys(s.converted) <= StateManager.Keys(s'.converted)
    ensures forall i :: 0 <= i < |parts| ==> Recorded(s', parts[i], (outs + [out])[i])
  {
    forall i | 0 <= i < |parts|
      ensures Recorded(s', parts[i], (outs + [out])[i])
    {
      if i < |outs| {
        assert parts[..|outs|][i] == parts[i] && (outs + [out])[i] == outs[i];
        RecordedKept(s, s', parts[i], outs[i]);
      }
    }
  }

  /** A step records its own outcome, and only adds ranges. */
  lemma StepRecords(p: Progress, dryRun: bool, mangaName: string, partNumber: nat, part: seq<string>,
                    combine: Combiner, w: World)
    ensures var (q, out) := PackStep(p, dryRun, mangaName, partNumber, part, combine, w);
            && Recorded(q.status, part, out)
            && StateManager.Keys(p.status.processed) <= StateManager.Keys(q.status.processed)
            && StateManager.Keys(p.status.converted) <= StateManager.Keys(q.status.converted)
  {
    StepMonotone(p, dryRun, mangaName, partNumber, part, combine, w);
    if !dryRun {
      RealStep(p, mangaName, partNumber, part, combine, w);
    }
  }

  /** A record survives a status that holds more ranges. */
  lemma RecordedKept(s: StateManager.Status, s': StateManager.Status, part: seq<string>, out: PartOutcome)
    requires Recorded(s, part, out)
    requires StateManager.Keys(s.processed) <= StateManager.Keys(s'.processed)
    requires StateManager.Keys(s.converted) <= StateManager.Keys(s'.converted)
    ensures Recorded(s', part, out)
  {
  }

  /** Every range of `parts` is both processed and converted in `s`. */
  predicate AllDone(s: StateManager.Status, parts: seq<seq<string>>) {
    forall i :: 0 <= i < |parts| ==>
      StateManager.PartAlreadyProcessed(s, PartRange(parts[i])) && StateManager.PartAlreadyConverted(s, PartRange(parts[i]))
  }

  /**
   * Resuming over parts that are all done combines nothing and converts
   * nothing, and records no new range.
   */
  lemma {:induction false} ResumeDoesNothing(p: Progress, mangaName: string, parts: seq<seq<string>>,
                                             combine: Combiner, w: World)
    requires SkipsDone(combine)
    requires AllDone(p.status, parts)
    ensures var (q, outs) := RunPacks(p, false, mangaName, parts, combine, w);
            && StateManager.Keys(q.status.processed) == StateManager.Keys(p.status.processed)
            && StateManager.Keys(q.status.converted) == StateManager.Keys(p.status.converted)
            && |outs| == |parts|
            && forall i :: 0 <= i < |outs| ==>
                 outs[i].Ran? && outs[i].combine == Grouper.AlreadyCombined && outs[i].conversion == AlreadyDone
  {
    if parts != [] {
      var init, last := parts[..|parts| - 1], parts[|parts| - 1];
      AllDoneSplit(p.status, parts);
      ResumeDoesNothing(p, mangaName, init, combine, w);
      var (q, outs) := RunPacks(p, false, mangaName, init, combine, w);
      assert !Stopped(outs) by {
        if outs != [] {
          assert outs[|outs| - 1].combine == Grouper.AlreadyCombined;
        }
      }
      assert StateManager.PartAlreadyProcessed(q.status, PartRange(last));
      assert StateManager.PartAlreadyConverted(q.status, PartRange(last));
      DoneRangeSkipped(q, mangaName, |parts|, last, combine, w);
      var outs' := RunPacks(p, false, mangaName, parts, combine, w).1;
      forall i | 0 <= i < |outs'|
        ensures outs'[i].Ran? && outs'[i].combine == Grouper.AlreadyCombined && outs'[i].conversion == AlreadyDone
      {
        if i < |init| {
          assert outs'[i] == outs[i];
        }
      }
    }
  }

  lemma AllDoneSplit(s: StateManager.Status, parts: seq<seq<string>>)
    requires parts != [] && AllDone(s, parts)
    ensures AllDone(s, parts[..|parts| - 1])
    ensures StateManager.PartAlreadyProcessed(s, PartRange(parts[|parts| - 1]))
    ensures StateManager.PartAlreadyConverted(s, PartRange(parts[|parts| - 1]))
  {
    var init := parts[..|parts| - 1];
    forall i | 0 <= i < |init|
      ensures StateManager.PartAlreadyProcessed(s, PartRange(init[i])) && StateManager.PartAlreadyConverted(s, PartRange(init[i]))
    {
      assert init[i] == parts[i];
    }
  }

  /**
   * After a run in which every part was converted (now or before), a second
   * run over the same parts from the in-memory status it left combines and
   * converts nothing, whatever the world and the combiner (with its cover)
   * are the second time. `SecondRunFromFile` starts the second run from the
   * status file instead.
   */
  lemma SecondRunDoesNothing(p: Progress, mangaName: string, parts: seq<seq<string>>,
                             combine: Combiner, w: World, combine': Combiner, w': World)
    requires SkipsDone(combine')
    requires var outs := RunPacks(p, false, mangaName, parts, combine, w).1;
             forall i :: 0 <= i < |outs| ==> outs[i].Ran? && outs[i].conversion.Converted()
    ensures var q := RunPacks(p, false, mangaName, parts, combine, w).0;
            var outs' := RunPacks(q, false, mangaName, parts, combine', w').1;
            |outs'| == |parts| &&
            forall i :: 0 <= i < |outs'| ==>
              outs'[i].Ran? && outs'[i].combine == Grouper.AlreadyCombined && outs'[i].conversion == AlreadyDone
  {
    var (q, outs) := RunPacks(p, false, mangaName, parts, combine, w);
    RunPacksRecords(p, false, mangaName, parts, combine, w);
    ConvertedRunCompletes(p, mangaName, parts, combine, w);
    forall i | 0 <= i < |parts|
      ensures StateManager.PartAlreadyProcessed(q.status, PartRange(parts[i]))
      ensures StateManager.PartAlreadyConverted(q.status, PartRange(parts[i]))
    {
      assert outs[i].conversion.Converted();
      RealStepOutcome(p, mangaName, parts, combine, w, i);
      assert Recorded(q.status, parts[i], outs[i]);
    }
    ResumeDoesNothing(q, mangaName, parts, combine', w');
  }

  /** A real run whose every outcome was converted handled every part: none raised. */
  lemma ConvertedRunCompletes(p: Progress, mangaName: string, parts: seq<seq<string>>, combine: Combiner, w: World)
    requires var outs := RunPacks(p, false, mangaName, parts, combine, w).1;
             forall i :: 0 <= i < |outs| ==> outs[i].Ran? && outs[i].conversion.Converted()
    ensures |RunPacks(p, false, mangaName, parts, combine, w).1| == |parts|
  {
    var outs := RunPacks(p, false, mangaName, parts, combine, w).1;
    if |outs| < |parts| {
      RealStepOutcome(p, mangaName, parts, combine, w, |outs| - 1);
    }
  }

  /** In a real run, a part whose conversion was reached had a combine that succeeded or was skipped. */
  lemma {:induction false} RealStepOutcome(p: Progress, mangaName: string, parts: seq<seq<string>>,
                                           combine: Combiner, w: World, i: nat)
    requires i < |RunPacks(p, false, mangaName, parts, combine, w).1|
    ensures var out := RunPacks(p, false, mangaName, parts, combine, w).1[i];
            out.Ran? && (out.conversion != NotReached <==> out.combine.Truthy())
  {
    var init := parts[..|parts| - 1];
    var (q, outs) := RunPacks(p, false, mangaName, init, combine, w);
    if i < |outs| {
      RealStepOutcome(p, mangaName, init, combine, w, i);
    } else {
      RealStep(q, mangaName, |parts|, parts[|parts| - 1], combine, w);
    }
  }

  /**
   * When every status write succeeds, the file ends up holding the final
   * in-memory status, provided the two agreed at the start.
   */
  lemma {:induction false} RunPacksSynced(p: Progress, dryRun: bool, mangaName: string, parts: seq<seq<string>>,
                                          combine: Combiner, w: World)
    requires p.file == StateManager.Saved(p.status)
    requires forall n: nat :: w.statusWriteOk(n) && w.conversionWriteOk(n)
    ensures var q := RunPacks(p, dryRun, mangaName, parts, combine, w).0;
            q.file == StateManager.Saved(q.status)
  {
    if parts != [] {
      var init := parts[..|parts| - 1];
      RunPacksSynced(p, dryRun, mangaName, init, combine, w);
      var (q, outs) := RunPacks(p, dryRun, mangaName, init, combine, w);
      if !Stopped(outs) {
        StepSynced(q, dryRun, mangaName, |parts|, parts[|parts| - 1], combine, w);
      }
    }
  }

  /**
   * With both writes succeeding, a step that starts from the status its file
   * loads as ends with a file that loads as its new status. This covers a
   * status file that is missing or unreadable at the start, as long as the
   * status is then the empty one `load_status` gives.
   */
  lemma StepLoaded(p: Progress, dryRun: bool, mangaName: string, partNumber: nat, part: seq<string>,
                   combine: Combiner, w: World)
    requires StateManager.LoadStatus(p.file) == p.status
    requires w.statusWriteOk(partNumber) && w.conversionWriteOk(partNumber)
    ensures var q := PackStep(p, dryRun, mangaName, partNumber, part, combine, w).0;
            StateManager.LoadStatus(q.file) == q.status
  {
  }

  /**
   * When every status write succeeds, a run that starts from what its status
   * file loads as leaves a file that loads as its final status: what the
   * next invocation of the program starts from.
   */
  lemma {:induction false} RunPacksLoaded(p: Progress, dryRun: bool, mangaName: string, parts: seq<seq<string>>,
                                          combine: Combiner, w: World)
    requires StateManager.LoadStatus(p.file) == p.status
    requires forall n: nat :: w.statusWriteOk(n) && w.conversionWriteOk(n)
    ensures var q := RunPacks(p, dryRun, mangaName, parts, combine, w).0;
            StateManager.LoadStatus(q.file) == q.status
  {
    if parts != [] {
      var init := parts[..|parts| - 1];
      RunPacksLoaded(p, dryRun, mangaName, init, combine, w);
      var (q, outs) := RunPacks(p, dryRun, mangaName, init, combine, w);
      if !Stopped(outs) {
        StepLoaded(q, dryRun, mangaName, |parts|, parts[|parts| - 1], combine, w);
      }
    }
  }

  /** A step whose writes all fail leaves the status file as it was. */
  lemma StepFailedWritesKeepFile(p: Progress, dryRun: bool, mangaName: string, partNumber: nat, part: seq<string>,
                                 combine: Combiner, w: World)
    requires !w.statusWriteOk(partNumber) && !w.conversionWriteOk(partNumber)
    ensures PackStep(p, dryRun, mangaName, partNumber, part, combine, w).0.file == p.file
  {
  }

  /**
   * `save_status` swallows a failed write, so a run whose writes all fail
   * leaves the status file as it was, whatever it combined and converted.
   */
  lemma {:induction false} RunPacksFailedWritesKeepFile(p: Progress, dryRun: bool, mangaName: string,
                                                        parts: seq<seq<string>>, combine: Combiner, w: World)
    requires forall n: nat :: !w.statusWriteOk(n) && !w.conversionWriteOk(n)
    ensures RunPacks(p, dryRun, mangaName, parts, combine, w).0.file == p.file
  {
    if parts != [] {
      var init := parts[..|parts| - 1];
      RunPacksFailedWritesKeepFile(p, dryRun, mangaName, init, combine, w);
      var (q, outs) := RunPacks(p, dryRun, mangaName, init, combine, w);
      if !Stopped(outs) {
        StepFailedWritesKeepFile(q, dryRun, mangaName, |parts|, parts[|parts| - 1], combine, w);
      }
    }
  }

  /**
   * The next invocation starts from what the status file loads as. When
   * every write of the first run succeeded and every part was converted,
   * that second run combines and converts nothing.
   */
  lemma SecondRunFromFile(file: StateManager.StatusFile, mangaName: string, parts: seq<seq<string>>,
                          combine: Combiner, w: World, combine': Combiner, w': World)
    requires SkipsDone(combine')
    requires forall n: nat :: w.statusWriteOk(n) && w.conversionWriteOk(n)
    requires var outs := RunPacks(Progress(StateManager.LoadStatus(file), file), false, mangaName, parts, combine, w).1;
             forall i :: 0 <= i < |outs| ==> outs[i].Ran? && outs[i].conversion.Converted()
    ensures var q := RunPacks(Progress(StateManager.LoadStatus(file), file), false, mangaName, parts, combine, w).0;
            var outs' := RunPacks(Progress(StateManager.LoadStatus(q.file), q.file), false, mangaName, parts, combine', w').1;
            |outs'| == |parts| &&
            forall i :: 0 <= i < |outs'| ==>
              outs'[i].Ran? && outs'[i].combine == Grouper.AlreadyCombined && outs'[i].conversion == AlreadyDone
  {
    var p := Progress(StateManager.LoadStatus(file), file);
    RunPacksLoaded(p, false, mangaName, parts, combine, w);
    SecondRunDoesNothing(p, mangaName, parts, combine, w, combine', w');
  }

  /**
   * When every write of the first run fails, the next invocation loads the
   * same status as the first did, and so, in the same world, does all of
   * the first run's work again.
   */
  lemma SecondRunAfterFailedWrites(file: StateManager.StatusFile, dryRun: bool, mangaName: string,
                                   parts: seq<seq<string>>, combine: Combiner, w: World)
    requires forall n: nat :: !w.statusWriteOk(n) && !w.conversionWriteOk(n)
    ensures var p := Progress(StateManager.LoadStatus(file), file);
            var q := RunPacks(p, dryRun, mangaName, parts, combine, w).0;
            RunPacks(Progress(StateManager.LoadStatus(q.file), q.file), dryRun, mangaName, parts, combine, w)
            == RunPacks(p, dryRun, mangaName, parts, combine, w)
  {
    RunPacksFailedWritesKeepFile(Progress(StateManager.LoadStatus(file), file), dryRun, mangaName, parts, combine, w);
  }

  /** A step keeps both maps of the status present. */
  lemma StepKeepsMaps(p: Progress, dryRun: bool, mangaName: string, partNumber: nat, part: seq<string>,
                      combine: Combiner, w: World)
    requires p.status.processed.Some? && p.status.converted.Some?
    ensures var q := PackStep(p, dryRun, mangaName, partNumber, part, combine, w).0;
            q.status.processed.Some? && q.status.converted.Some?
  {
  }

  /** A run that starts with both maps present ends with both present. */
  lemma {:induction false} RunPacksKeepsMaps(p: Progress, dryRun: bool, mangaName: string, parts: seq<seq<string>>,
                                             combine: Combiner, w: World)
    requires p.status.processed.Some? && p.status.converted.Some?
    ensures var q := RunPacks(p, dryRun, mangaName, parts, combine, w).0;
            q.status.processed.Some? && q.status.converted.Some?
  {
    if parts != [] {
      var init := parts[..|parts| - 1];
      RunPacksKeepsMaps(p, dryRun, mangaName, init, combine, w);
      var (q, outs) := RunPacks(p, dryRun, mangaName, init, combine, w);
      if !Stopped(outs) {
        StepKeepsMaps(q, dryRun, mangaName, |parts|, parts[|parts| - 1], combine, w);
      }
    }
  }

  // ---------------------------------------------------------------------
  // process_packs
  // ---------------------------------------------------------------------

  /** The body of the loop of `process_packs`, each `continue` a `return`. */
  method ProcessPart(dryRun: bool, mangaName: string, partNumber: nat, part: seq<string>,
                     cover: Option<string>, imageExtensions: seq<string>, w: World,
                     store: StateManager.StatusStore)
    returns (out: PartOutcome)
    modifies store
    ensures (Progress(store.status, store.file), out)
            == PackStep(Progress(old(store.status), old(store.file)), dryRun, mangaName, partNumber, part,
                        CombinerOf(cover, imageExtensions, w), w)
  {
    var chapterNumbers := ChapterNumbers(part);
    var chapterRange := Utils.ChapterRange(chapterNumbers);
    var outputName := OutputName(mangaName, chapterRange);
    if dryRun {
      var noticed := DryRunSeesProcessed(store.status, partNumber);
      return DryRun(chapterRange, outputName, noticed);
    }
    var combined := Grouper.CombineToCbz(store.status, chapterRange, part, cover, w.coverExists, Extracted(part, w),
                                         imageExtensions, w.copyOk(partNumber), w.zipOk(partNumber));
    assert combined == CombinerOf(cover, imageExtensions, w)(store.status, chapterRange, partNumber, part);
    if !combined.Truthy() {
      return Ran(chapterRange, outputName, combined, NotReached);
    }
    store.UpdateStatus(chapterRange, w.statusWriteOk(partNumber));
    if StateManager.PartAlreadyConverted(store.status, chapterRange) {
      return Ran(chapterRange, outputName, combined, AlreadyDone);
    }
    var success := w.convertOk(partNumber);
    if success {
      store.UpdateConversionStatus(chapterRange, w.conversionWriteOk(partNumber));
      out := Ran(chapterRange, outputName, combined, Succeeded);
    } else {
      out := Ran(chapterRange, outputName, combined, Failed);
    }
  }

  /**
   * `process_packs(dry_run, manga_name, ..., parts, ..., status, cover_image_path)`;
   * a part whose combine raises ends the loop, as the exception leaves it.
   */
  method ProcessPacks(dryRun: bool, mangaName: string, parts: seq<seq<string>>,
                      cover: Option<string>, imageExtensions: seq<string>, w: World,
                      store: StateManager.StatusStore)
    returns (outcomes: seq<PartOutcome>)
    modifies store
    ensures (Progress(store.status, store.file), outcomes)
            == RunPacks(Progress(old(store.status), old(store.file)), dryRun, mangaName, parts,
                        CombinerOf(cover, imageExtensions, w), w)
  {
    ghost var start := Progress(store.status, store.file);
    ghost var combine := CombinerOf(cover, imageExtensions, w);
    outcomes := [];
    for i := 0 to |parts|
      invariant (Progress(store.status, store.file), outcomes) == RunPacks(start, dryRun, mangaName, parts[..i], combine, w)
      invariant !Stopped(outcomes)
    {
      RunPacksNext(start, dryRun, mangaName, parts, i, combine, w);
      var out := ProcessPart(dryRun, mangaName, i + 1, parts[i], cover, imageExtensions, w, store);
      outcomes := outcomes + [out];
      if out.Raised() {
        RunPacksAfterStop(start, dryRun, mangaName, parts, i + 1, combine, w);
        return;
      }
    }
    assert parts[..|parts|] == parts;
  }

  // ---------------------------------------------------------------------
  // process_manga_folder
  // ---------------------------------------------------------------------

  /** The fields of the metadata the driver reads: the author and the cover URL. */
  datatype Metadata = Metadata(author: string, coverImageUrl: Option<string>)

  /** How `process_manga_folder` ended. */
  datatype FolderOutcome =
    | NoCbzFiles
    | NoMangaName
    | NoMetadata
    | StatusKeyMissing
    | OutputDirFailed(cover: Option<string>)
    | Processed(mangaName: string, cover: Option<string>, packs: seq<seq<string>>, outcomes: seq<PartOutcome>)

  /** What opening each chapter file gives, for the cover. */
  function ArchivesOf(cbzFiles: seq<string>, archives: string -> Extractor.Archive): (r: seq<Extractor.Archive>)
    ensures |r| == |cbzFiles|
  {
    seq(|cbzFiles|, j requires 0 <= j < |cbzFiles| => archives(cbzFiles[j]))
  }

  /**
   * `process_manga_folder(dir, dry_run)` as a value: the outcome and the
   * status file left behind. `entries` are the names in the folder,
   * `metadata` what the metadata lookup returns for the manga's name, and
   * `downloaded`, `tempName` and `coverCopyOk` what the cover extraction
   * meets. A manga name that is `None` or empty ends the run, and so does a
   * loaded status that lacks one of its two maps, whose lookup raises
   * `KeyError`. When the output folder cannot be made, `create_output_folder`
   * returns `False` and the first part's `False / output_cbz_name` raises
   * `TypeError`, dry run or not, before any part is handled (there is always
   * a first part, since there are `.cbz` files). A run whose last outcome
   * raised ended with that error.
   */
  function FolderRun(directoryName: string, entries: seq<string>, dryRun: bool, metadata: Option<Metadata>,
                     downloaded: Option<string>, tempName: string, coverCopyOk: bool,
                     chaptersPerPart: nat, imageExtensions: seq<string>,
                     statusFile: StateManager.StatusFile, w: World): (FolderOutcome, StateManager.StatusFile)
    requires chaptersPerPart > 0
  {
    var cbzFiles := Utils.GetSortedCbzFiles(entries);
    var name := Parser.GetMangaName(directoryName, cbzFiles);
    if cbzFiles == [] then (NoCbzFiles, statusFile)
    else if name.None? || name.value == [] then (NoMangaName, statusFile)
    else if metadata.None? then (NoMetadata, statusFile)
    else FolderRunNamed(name.value, cbzFiles, dryRun, metadata.value, downloaded, tempName,
                        coverCopyOk, chaptersPerPart, imageExtensions, statusFile, w)
  }

  /**
   * The rest of `process_manga_folder` once the manga name and the metadata
   * are known: the cover, the packs, the status lookup and the run.
   */
  function FolderRunNamed(mangaName: string, cbzFiles: seq<string>, dryRun: bool, metadata: Metadata,
                          downloaded: Option<string>, tempName: string, coverCopyOk: bool,
                          chaptersPerPart: nat, imageExtensions: seq<string>,
                          statusFile: StateManager.StatusFile, w: World): (FolderOutcome, StateManager.StatusFile)
    requires chaptersPerPart > 0
  {
    var cover := if dryRun then None
                 else Extractor.ExtractAndSaveCoverImage(ArchivesOf(cbzFiles, w.archives), true,
                                                         metadata.coverImageUrl, downloaded,
                                                         imageExtensions, tempName, coverCopyOk);
    var packs := Grouper.GroupCbzIntoPacks(cbzFiles, chaptersPerPart);
    var status := StateManager.LoadStatus(statusFile);
    if status.processed.None? || status.converted.None? then (StatusKeyMissing, statusFile)
    else if !w.outputDirOk then (OutputDirFailed(cover), statusFile)
    else
      var (q, outs) := RunPacks(Progress(status, statusFile), dryRun, mangaName, packs,
                                CombinerOf(cover, imageExtensions, w), w);
      (Processed(mangaName, cover, packs, outs), q.file)
  }

  /** `process_manga_folder`, with the status store it loads. */
  method ProcessMangaFolder(directoryName: string, entries: seq<string>, dryRun: bool, metadata: Option<Metadata>,
                            downloaded: Option<string>, tempName: string, coverCopyOk: bool,
                            chaptersPerPart: nat, imageExtensions: seq<string>,
                            statusFile: StateManager.StatusFile, w: World)
    returns (outcome: FolderOutcome, file: StateManager.StatusFile)
    requires chaptersPerPart > 0
    ensures (outcome, file) == FolderRun(directoryName, entries, dryRun, metadata, downloaded, tempName,
                                         coverCopyOk, chaptersPerPart, imageExtensions, statusFile, w)
  {
    var cbzFiles := Utils.GetSortedCbzFiles(entries);
    if cbzFiles == [] {
      return NoCbzFiles, statusFile;
    }
    var mangaName := Parser.GetMangaName(directoryName, cbzFiles);
    if mangaName.None? || mangaName.value == [] {
      return NoMangaName, statusFile;
    }
    if metadata.None? {
      return NoMetadata, statusFile;
    }
    var cover: Option<string> := None;
    if !dryRun {
      cover := Extractor.ExtractAndSaveCoverImage(ArchivesOf(cbzFiles, w.archives), true,
                                                  metadata.value.coverImageUrl, downloaded,
                                                  imageExtensions, tempName, coverCopyOk);
    }
    var packs := Grouper.GroupCbzIntoPacks(cbzFiles, chaptersPerPart);
    var outputDirOk := w.outputDirOk;
    var store := new StateManager.StatusStore.Load(statusFile);
    if store.status.processed.None? || store.status.converted.None? {
      return StatusKeyMissing, statusFile;
    }
    if !outputDirOk {
      return OutputDirFailed(cover), statusFile;
    }
    var outcomes := ProcessPacks(dryRun, mangaName.value, packs, cover, imageExtensions, w, store);
    return Processed(mangaName.value, cover, packs, outcomes), store.file;
  }

  /**
   * The early exits. No `.cbz` entry ends the run; an empty manga name,
   * possible only for a directory with an empty name, ends it next; then
   * missing metadata; then a status without both maps; then an output
   * folder that cannot be made. Each leaves the status file untouched.
   */
  lemma FolderGuards(directoryName: string, entries: seq<string>, dryRun: bool, metadata: Option<Metadata>,
                     downloaded: Option<string>, tempName: string, coverCopyOk: bool,
                     chaptersPerPart: nat, imageExtensions: seq<string>,
                     statusFile: StateManager.StatusFile, w: World)
    requires chaptersPerPart > 0
    ensures var (r, file) := FolderRun(directoryName, entries, dryRun, metadata, downloaded, tempName,
                                       coverCopyOk, chaptersPerPart, imageExtensions, statusFile, w);
            var found := exists k :: 0 <= k < |entries| && Utils.IsCbzName(entries[k]);
            var named := Parser.GetMangaName(directoryName, Utils.GetSortedCbzFiles(entries)) != Some([]);
            var status := StateManager.LoadStatus(statusFile);
            && (r == NoCbzFiles <==> !found)
            && (r == NoMangaName <==> found && !named)
            && (r == NoMangaName ==> directoryName == [])
            && (r == NoMetadata <==> found && named && metadata.None?)
            && (r == StatusKeyMissing <==>
                  found && named && metadata.Some? && (status.processed.None? || status.converted.None?))
            && (r.OutputDirFailed? <==>
                  found && named && metadata.Some? && status.processed.Some? && status.converted.Some?
                  && !w.outputDirOk)
            && (!r.Processed? ==> file == statusFile)
  {
    var cbzFiles := Utils.GetSortedCbzFiles(entries);
    var name := Parser.GetMangaName(directoryName, cbzFiles);
    CbzFilesFound(entries);
    Parser.BlankNameFromDirectory(directoryName, cbzFiles);
    if cbzFiles != [] && name.Some? && name.value != [] && metadata.Some? {
      var res := FolderRunNamed(name.value, cbzFiles, dryRun, metadata.value, downloaded, tempName,
                                coverCopyOk, chaptersPerPart, imageExtensions, statusFile, w);
      assert FolderRun(directoryName, entries, dryRun, metadata, downloaded, tempName,
                       coverCopyOk, chaptersPerPart, imageExtensions, statusFile, w) == res;
      FolderNamedGuard(name.value, cbzFiles, dryRun, metadata.value, downloaded, tempName,
                       coverCopyOk, chaptersPerPart, imageExtensions, statusFile, w);
    }
  }

  /**
   * Once named, a folder stops at a status without both maps, or next at an
   * output folder that cannot be made, in both cases untouched, or else is
   * processed.
   */
  lemma FolderNamedGuard(mangaName: string, cbzFiles: seq<string>, dryRun: bool, metadata: Metadata,
                         downloaded: Option<string>, tempName: string, coverCopyOk: bool,
                         chaptersPerPart: nat, imageExtensions: seq<string>,
                         statusFile: StateManager.StatusFile, w: World)
    requires chaptersPerPart > 0
    ensures var (r, file) := FolderRunNamed(mangaName, cbzFiles, dryRun, metadata, downloaded, tempName,
                                            coverCopyOk, chaptersPerPart, imageExtensions, statusFile, w);
            var status := StateManager.LoadStatus(statusFile);
            && (r.StatusKeyMissing? || r.OutputDirFailed? || r.Processed?)
            && (r.StatusKeyMissing? <==> status.processed.None? || status.converted.None?)
            && (r.OutputDirFailed? <==> status.processed.Some? && status.converted.Some? && !w.outputDirOk)
            && (!r.Processed? ==> file == statusFile)
  {
  }

  /**
   * A folder at the root of the file system has an empty name, so with a
   * single chapter `001.cbz`, whose name gives no manga name, the run stops
   * for lack of one.
   */
  lemma RootFolderHasNoName(dryRun: bool, metadata: Option<Metadata>, downloaded: Option<string>,
                            tempName: string, coverCopyOk: bool, chaptersPerPart: nat, imageExtensions: seq<string>,
                            statusFile: StateManager.StatusFile, w: World)
    requires chaptersPerPart > 0
    ensures FolderRun([], ["001.cbz"], dryRun, metadata, downloaded, tempName, coverCopyOk,
                      chaptersPerPart, imageExtensions, statusFile, w) == (NoMangaName, statusFile)
  {
    var name := "001.cbz";
    assert Utils.IsCbzName(name) by {
      assert name[|name| - 4..] == ".cbz";
    }
    SingleCbzFile(name);
    assert forall b :: 0 <= b <= |name| ==> !Parser.ChapterWordAt(name, b) by {
      assert Strings.LowerChar(name[0]) == '0';
    }
    Parser.NoChapterWordNoName([], [name]);
  }

  /** A folder holding one `.cbz` entry lists just that file. */
  lemma SingleCbzFile(name: string)
    requires Utils.IsCbzName(name)
    ensures Utils.GetSortedCbzFiles([name]) == [name]
  {
    var r := Utils.GetSortedCbzFiles([name]);
    assert multiset(r) == multiset{name} by {
      forall x ensures multiset(r)[x] == multiset{name}[x] {
      }
    }
    assert |r| == |multiset(r)| == 1;
    assert r[0] in multiset(r);
  }

  /** The folder has `.cbz` files exactly when one of its entries is named so. */
  lemma CbzFilesFound(entries: seq<string>)
    ensures Utils.GetSortedCbzFiles(entries) != [] <==> exists k :: 0 <= k < |entries| && Utils.IsCbzName(entries[k])
  {
    var cbzFiles := Utils.GetSortedCbzFiles(entries);
    if exists k :: 0 <= k < |entries| && Utils.IsCbzName(entries[k]) {
      var k :| 0 <= k < |entries| && Utils.IsCbzName(entries[k]);
      assert multiset(entries)[entries[k]] > 0;
      assert multiset(cbzFiles)[entries[k]] > 0;
    }
    if cbzFiles != [] {
      assert multiset(cbzFiles)[cbzFiles[0]] > 0;
      assert Utils.IsCbzName(cbzFiles[0]) && cbzFiles[0] in multiset(entries);
    }
  }

  /**
   * A processed folder has one outcome per part handled, and every part is
   * handled unless one raised, which then is the last; the parts hold
   * exactly the `.cbz` entries. A dry run extracts no cover, handles every
   * part and leaves the status file untouched.
   */
  lemma FolderProcessed(directoryName: string, entries: seq<string>, dryRun: bool, metadata: Option<Metadata>,
                        downloaded: Option<string>, tempName: string, coverCopyOk: bool,
                        chaptersPerPart: nat, imageExtensions: seq<string>,
                        statusFile: StateManager.StatusFile, w: World)
    requires chaptersPerPart > 0
    ensures var (r, file) := FolderRun(directoryName, entries, dryRun, metadata, downloaded, tempName,
                                       coverCopyOk, chaptersPerPart, imageExtensions, statusFile, w);
            r.Processed? ==>
              && |r.outcomes| <= |r.packs|
              && (|r.outcomes| < |r.packs| ==> r.outcomes != [] && r.outcomes[|r.outcomes| - 1].Raised())
              && (forall name :: multiset(Grouper.Flatten(r.packs))[name]
                                 == if Utils.IsCbzName(name) then multiset(entries)[name] else 0)
              && (dryRun ==> r.cover == None && |r.outcomes| == |r.packs| && file == statusFile)
  {
    var cbzFiles := Utils.GetSortedCbzFiles(entries);
    var name := Parser.GetMangaName(directoryName, cbzFiles);
    if cbzFiles != [] && name.Some? && name.value != [] && metadata.Some? {
      var res := FolderRunNamed(name.value, cbzFiles, dryRun, metadata.value, downloaded, tempName,
                                coverCopyOk, chaptersPerPart, imageExtensions, statusFile, w);
      assert FolderRun(directoryName, entries, dryRun, metadata, downloaded, tempName,
                       coverCopyOk, chaptersPerPart, imageExtensions, statusFile, w) == res;
      FolderNamedProcessed(name.value, cbzFiles, dryRun, metadata.value, downloaded, tempName,
                           coverCopyOk, chaptersPerPart, imageExtensions, statusFile, w);
      if res.0.Processed? {
        PacksHoldCbzEntries(res.0.packs, entries);
      }
    }
  }

  /** Parts that hold the sorted `.cbz` files hold exactly the `.cbz` entries. */
  lemma PacksHoldCbzEntries(packs: seq<seq<string>>, entries: seq<string>)
    requires multiset(Grouper.Flatten(packs)) == multiset(Utils.GetSortedCbzFiles(entries))
    ensures forall name :: multiset(Grouper.Flatten(packs))[name]
                           == if Utils.IsCbzName(name) then multiset(entries)[name] else 0
  {
  }

  /** `FolderProcessed` for the chapter files of a named manga. */
  lemma FolderNamedProcessed(mangaName: string, cbzFiles: seq<string>, dryRun: bool, metadata: Metadata,
                             downloaded: Option<string>, tempName: string, coverCopyOk: bool,
                             chaptersPerPart: nat, imageExtensions: seq<string>,
                             statusFile: StateManager.StatusFile, w: World)
    requires chaptersPerPart > 0
    ensures var (r, file) := FolderRunNamed(mangaName, cbzFiles, dryRun, metadata, downloaded, tempName,
                                            coverCopyOk, chaptersPerPart, imageExtensions, statusFile, w);
            r.Processed? ==>
              && |r.outcomes| <= |r.packs|
              && (|r.outcomes| < |r.packs| ==> r.outcomes != [] && r.outcomes[|r.outcomes| - 1].Raised())
              && multiset(Grouper.Flatten(r.packs)) == multiset(cbzFiles)
              && (dryRun ==> r.cover == None && |r.outcomes| == |r.packs| && file == statusFile)
  {
    var cover := if dryRun then None
                 else Extractor.ExtractAndSaveCoverImage(ArchivesOf(cbzFiles, w.archives), true,
                                                         metadata.coverImageUrl, downloaded,
                                                         imageExtensions, tempName, coverCopyOk);
    var packs := Grouper.GroupCbzIntoPacks(cbzFiles, chaptersPerPart);
    var status := StateManager.LoadStatus(statusFile);
    var start := Progress(status, statusFile);
    var combine := CombinerOf(cover, imageExtensions, w);
    RunPacksShape(start, dryRun, mangaName, packs, combine, w);
    if status.processed.Some? && status.converted.Some? && w.outputDirOk {
      var (q, outs) := RunPacks(start, dryRun, mangaName, packs, combine, w);
      assert FolderRunNamed(mangaName, cbzFiles, dryRun, metadata, downloaded, tempName,
                            coverCopyOk, chaptersPerPart, imageExtensions, statusFile, w)
             == (Processed(mangaName, cover, packs, outs), q.file);
    }
  }

  /**
   * Running the program twice on the same folder: when the first real run
   * was processed, every status write in it succeeded and every part was
   * converted, then the second real run, which starts from the status file
   * the first left and fetches the metadata and the cover anew, is processed
   * and neither combines nor converts any part.
   */
  lemma SecondFolderRunDoesNothing(directoryName: string, entries: seq<string>,
                                   metadata: Option<Metadata>, downloaded: Option<string>, tempName: string,
                                   coverCopyOk: bool, metadata': Option<Metadata>, downloaded': Option<string>,
                                   tempName': string, coverCopyOk': bool, chaptersPerPart: nat,
                                   imageExtensions: seq<string>, statusFile: StateManager.StatusFile,
                                   w: World, w': World)
    requires chaptersPerPart > 0
    requires forall n: nat :: w.statusWriteOk(n) && w.conversionWriteOk(n)
    requires metadata'.Some? && w'.outputDirOk
    requires var r := FolderRun(directoryName, entries, false, metadata, downloaded, tempName, coverCopyOk,
                                chaptersPerPart, imageExtensions, statusFile, w).0;
             r.Processed? && forall i :: 0 <= i < |r.outcomes| ==> r.outcomes[i].Ran? && r.outcomes[i].conversion.Converted()
    ensures var file := FolderRun(directoryName, entries, false, metadata, downloaded, tempName, coverCopyOk,
                                  chaptersPerPart, imageExtensions, statusFile, w).1;
            var r' := FolderRun(directoryName, entries, false, metadata', downloaded', tempName', coverCopyOk',
                                chaptersPerPart, imageExtensions, file, w').0;
            && r'.Processed? && |r'.outcomes| == |r'.packs|
            && forall i :: 0 <= i < |r'.outcomes| ==>
                 r'.outcomes[i].Ran? && r'.outcomes[i].combine == Grouper.AlreadyCombined
                 && r'.outcomes[i].conversion == AlreadyDone
  {
    var cbzFiles := Utils.GetSortedCbzFiles(entries);
    var name := Parser.GetMangaName(directoryName, cbzFiles);
    var first := FolderRunNamed(name.value, cbzFiles, false, metadata.value, downloaded, tempName,
                                coverCopyOk, chaptersPerPart, imageExtensions, statusFile, w);
    assert FolderRun(directoryName, entries, false, metadata, downloaded, tempName, coverCopyOk,
                     chaptersPerPart, imageExtensions, statusFile, w) == first;
    assert FolderRun(directoryName, entries, false, metadata', downloaded', tempName', coverCopyOk',
                     chaptersPerPart, imageExtensions, first.1, w')
           == FolderRunNamed(name.value, cbzFiles, false, metadata'.value, downloaded', tempName',
                             coverCopyOk', chaptersPerPart, imageExtensions, first.1, w');
    SecondNamedRunDoesNothing(name.value, cbzFiles, metadata.value, downloaded, tempName, coverCopyOk,
                              metadata'.value, downloaded', tempName', coverCopyOk', chaptersPerPart,
                              imageExtensions, statusFile, w, w');
  }

  /** `SecondFolderRunDoesNothing` for the chapter files of a named manga. */
  lemma SecondNamedRunDoesNothing(mangaName: string, cbzFiles: seq<string>,
                                  metadata: Metadata, downloaded: Option<string>, tempName: string,
                                  coverCopyOk: bool, metadata': Metadata, downloaded': Option<string>,
                                  tempName': string, coverCopyOk': bool, chaptersPerPart: nat,
                                  imageExtensions: seq<string>, statusFile: StateManager.StatusFile,
                                  w: World, w': World)
    requires chaptersPerPart > 0
    requires forall n: nat :: w.statusWriteOk(n) && w.conversionWriteOk(n)
    requires w'.outputDirOk
    requires var r := FolderRunNamed(mangaName, cbzFiles, false, metadata, downloaded, tempName, coverCopyOk,
                                     chaptersPerPart, imageExtensions, statusFile, w).0;
             r.Processed? && forall i :: 0 <= i < |r.outcomes| ==> r.outcomes[i].Ran? && r.outcomes[i].conversion.Converted()
    ensures var file := FolderRunNamed(mangaName, cbzFiles, false, metadata, downloaded, tempName, coverCopyOk,
                                       chaptersPerPart, imageExtensions, statusFile, w).1;
            var r' := FolderRunNamed(mangaName, cbzFiles, false, metadata', downloaded', tempName', coverCopyOk',
                                     chaptersPerPart, imageExtensions, file, w').0;
            && r'.Processed? && |r'.outcomes| == |r'.packs|
            && forall i :: 0 <= i < |r'.outcomes| ==>
                 r'.outcomes[i].Ran? && r'.outcomes[i].combine == Grouper.AlreadyCombined
                 && r'.outcomes[i].conversion == AlreadyDone
  {
    var cover := Extractor.ExtractAndSaveCoverImage(ArchivesOf(cbzFiles, w.archives), true,
                                                    metadata.coverImageUrl, downloaded,
                                                    imageExtensions, tempName, coverCopyOk);
    var cover' := Extractor.ExtractAndSaveCoverImage(ArchivesOf(cbzFiles, w'.archives), true,
                                                     metadata'.coverImageUrl, downloaded',
                                                     imageExtensions, tempName', coverCopyOk');
    var packs := Grouper.GroupCbzIntoPacks(cbzFiles, chaptersPerPart);
    var start := Progress(StateManager.LoadStatus(statusFile), statusFile);
    var combine := CombinerOf(cover, imageExtensions, w);
    var combine' := CombinerOf(cover', imageExtensions, w');
    FolderNamedGuard(mangaName, cbzFiles, false, metadata, downloaded, tempName, coverCopyOk,
                     chaptersPerPart, imageExtensions, statusFile, w);
    var (q, outs) := RunPacks(start, false, mangaName, packs, combine, w);
    assert FolderRunNamed(mangaName, cbzFiles, false, metadata, downloaded, tempName, coverCopyOk,
                          chaptersPerPart, imageExtensions, statusFile, w)
           == (Processed(mangaName, cover, packs, outs), q.file);
    RunPacksLoaded(start, false, mangaName, packs, combine, w);
    RunPacksKeepsMaps(start, false, mangaName, packs, combine, w);
    CombinerSkipsDone(cover', imageExtensions, w');
    SecondRunFromFile(statusFile, mangaName, packs, combine, w, combine', w');
    var (q', outs') := RunPacks(Progress(StateManager.LoadStatus(q.file), q.file), false, mangaName, packs, combine', w');
    assert FolderRunNamed(mangaName, cbzFiles, false, metadata', downloaded', tempName', coverCopyOk',
                          chaptersPerPart, imageExtensions, q.file, w')
           == (Processed(mangaName, cover', packs, outs'), q'.file);
  }

  /** How far a run gets: every part, or up to the part that raised; a dry run gets through and saves nothing. */
  lemma RunPacksShape(p: Progress, dryRun: bool, mangaName: string, parts: seq<seq<string>>,
                      combine: Combiner, w: World)
    ensures var (q, outs) := RunPacks(p, dryRun, mangaName, parts, combine, w);
            && |outs| <= |parts|
            && (|outs| < |parts| ==> outs != [] && outs[|outs| - 1].Raised())
            && (dryRun ==> |outs| == |parts| && q.file == p.file)
  {
    if dryRun {
      DryRunChangesNothing(p, mangaName, parts, combine, w);
    }
  }
}
