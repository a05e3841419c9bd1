/**
 * The progress store: per folder, the chapter ranges already combined into
 * an archive ("processed_cbz_parts") and those already converted
 * ("converted_mobi_parts").
 *
 * Only the keys of the two maps are ever read, so each map is modelled as
 * its key set; `None` stands for a map missing from the status object. The
 * status file on disk is its own value, written whole or not at all.
 */
module StateManager {
  import opened Wrappers

  datatype Status = Status(processed: Option<set<string>>, converted: Option<set<string>>)

  /** The keys of a map that may be missing (`status.get(name, {})`). */
  function Keys(m: Option<set<string>>): set<string> {
    if m.Some? then m.value else {}
  }

  /** `{"processed_cbz_parts": {}, "converted_mobi_parts": {}}` */
  const EmptyStatus := Status(Some({}), Some({}))

  /** The status file: absent, unreadable (malformed or failing to open), or holding a status. */
  datatype StatusFile = Missing | Unreadable | Holds(saved: Status)

  // ---------------------------------------------------------------------
  // load_status and save_status
  // ---------------------------------------------------------------------

  /** `load_status`: the saved status, or two empty maps when there is none to read. */
  function LoadStatus(file: StatusFile): (s: Status)
    ensures file.Holds? ==> s == file.saved
    ensures !file.Holds? ==> s == EmptyStatus && Keys(s.processed) == {} && Keys(s.converted) == {}
  {
    if file.Holds? then file.saved else EmptyStatus
  }

  /** The file written by a successful `save_status`. */
  function Saved(s: Status): StatusFile {
    Holds(s)
  }

  /** Saving and loading again gives back the status that was saved. */
  lemma SaveLoadRoundTrip(s: Status)
    ensures LoadStatus(Saved(s)) == s
  {
  }

  // ---------------------------------------------------------------------
  // The two updates and the two membership tests
  // ---------------------------------------------------------------------

  /** `status.setdefault("processed_cbz_parts", {})[chapter_range] = True` */
  function MarkProcessed(s: Status, chapterRange: string): (t: Status)
    ensures t.processed.Some? && t.processed.value == Keys(s.processed) + {chapterRange}
    ensures t.converted == s.converted
  {
    Status(Some(Keys(s.processed) + {chapterRange}), s.converted)
  }

  /** `status.setdefault("converted_mobi_parts", {})[chapter_range] = True` */
  function MarkConverted(s: Status, chapterRange: string): (t: Status)
    ensures t.converted.Some? && t.converted.value == Keys(s.converted) + {chapterRange}
    ensures t.processed == s.processed
  {
    Status(s.processed, Some(Keys(s.converted) + {chapterRange}))
  }

  /** `part_already_processed(status, chapter_range)` */
  predicate PartAlreadyProcessed(s: Status, chapterRange: string) {
    chapterRange in Keys(s.processed)
  }

  /** `part_already_converted_to_mobi(status, chapter_range)` */
  predicate PartAlreadyConverted(s: Status, chapterRange: string) {
    chapterRange in Keys(s.converted)
  }

  /** A missing map holds no range. */
  lemma MissingMapsHoldNothing(chapterRange: string)
    ensures !PartAlreadyProcessed(Status(None, None), chapterRange)
    ensures !PartAlreadyConverted(Status(None, None), chapterRange)
  {
  }

  /** After marking a range processed, exactly that range has been added; conversion is unaffected. */
  lemma MarkProcessedEffect(s: Status, chapterRange: string, other: string)
    ensures PartAlreadyProcessed(MarkProcessed(s, chapterRange), other)
            <==> other == chapterRange || PartAlreadyProcessed(s, other)
    ensures PartAlreadyConverted(MarkProcessed(s, chapterRange), other) == PartAlreadyConverted(s, other)
  {
  }

  lemma MarkConvertedEffect(s: Status, chapterRange: string, other: string)
    ensures PartAlreadyConverted(MarkConverted(s, chapterRange), other)
            <==> other == chapterRange || PartAlreadyConverted(s, other)
    ensures PartAlreadyProcessed(MarkConverted(s, chapterRange), other) == PartAlreadyProcessed(s, other)
  {
  }

  /** Marking twice is marking once. */
  lemma MarkIdempotent(s: Status, chapterRange: string)
    ensures MarkProcessed(MarkProcessed(s, chapterRange), chapterRange) == MarkProcessed(s, chapterRange)
    ensures MarkConverted(MarkConverted(s, chapterRange), chapterRange) == MarkConverted(s, chapterRange)
  {
  }

  /** Marking a range that is already present only materializes a missing map. */
  lemma MarkPresent(s: Status, chapterRange: string)
    requires s.processed.Some? && PartAlreadyProcessed(s, chapterRange)
    ensures MarkProcessed(s, chapterRange) == s
  {
    assert Keys(s.processed) + {chapterRange} == Keys(s.processed);
  }

  /**
   * Every converted range is also processed: the relation the pipeline
   * keeps, although the store does not enforce it.
   */
  ghost predicate ConvertedImpliesProcessed(s: Status) {
    Keys(s.converted) <= Keys(s.processed)
  }

  lemma MarkKeepsConvertedImpliesProcessed(s: Status, chapterRange: string)
    requires ConvertedImpliesProcessed(s)
    ensures ConvertedImpliesProcessed(MarkProcessed(s, chapterRange))
    ensures PartAlreadyProcessed(s, chapterRange) ==> ConvertedImpliesProcessed(MarkConverted(s, chapterRange))
  {
  }

  // ---------------------------------------------------------------------
  // The status dictionary together with the file it is persisted to
  // ---------------------------------------------------------------------

  /**
   * The in-memory status dictionary of one folder and its status file. Each
   * update changes the dictionary and then rewrites the file; a write that
   * fails is reported and otherwise ignored, and leaves the old file in
   * place (the new content goes to a temporary file that replaces the old
   * one only once it is complete).
   */
  class StatusStore {
    var status: Status
    var file: StatusFile

    /** In memory and on disk agree. */
    predicate Synced()
      reads this
    {
      file == Saved(status)
    }

    /** `load_status(current_dir, status_file)` */
    constructor Load(f: StatusFile)
      ensures status == LoadStatus(f) && file == f
    {
      status := LoadStatus(f);
      file := f;
    }

    /** `save_status(status_file, status)`; `writeOk` is the outcome of the write. */
    method Save(writeOk: bool)
      modifies this
      ensures status == old(status)
      ensures file == if writeOk then Saved(status) else old(file)
    {
      if writeOk {
        file := Saved(status);
      }
    }

    /** `update_status(status_file, status, chapter_range)` */
    method UpdateStatus(chapterRange: string, writeOk: bool)
      modifies this
      ensures status == MarkProcessed(old(status), chapterRange)
      ensures file == if writeOk then Saved(status) else old(file)
      ensures writeOk ==> Synced()
    {
      status := MarkProcessed(status, chapterRange);
      Save(writeOk);
    }

    /** `update_conversion_status(status_file, status, chapter_range)` */
    method UpdateConversionStatus(chapterRange: string, writeOk: bool)
      modifies this
      ensures status == MarkConverted(old(status), chapterRange)
      ensures file == if writeOk then Saved(status) else old(file)
      ensures writeOk ==> Synced()
    {
      status := MarkConverted(status, chapterRange);
      Save(writeOk);
    }
  }
}
