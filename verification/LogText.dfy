/** What bytes that are not text do to the log: a write cut inside a multi-byte character leaves a line at
    which every reader stops with an error. */
module LogText {
  import opened Wrappers
  import opened LogModel
  import opened LogSafety

  // --------------------------------------------------------------------- opening ---

  /** The disk after an attempt to open, and the process if there is one. */
  datatype Opening = Opening(disk: Disk, mem: Option<Mem>)

  ghost function TryOpen(d: Disk, today: Day, clk: Clock): Opening {
    if TryRecover(d).Ok? then Opening(ApplyAll(d, OpenWrites(d, today, clk)), Some(OpenMem(d, today, clk)))
    else Opening(d, None)
  }

  /** The disk after attempts on these days, each by a process that writes nothing more. */
  ghost function Attempted(d: Disk, tries: seq<(Day, Clock)>): Disk {
    if tries == [] then d
    else
      var last := tries[|tries| - 1];
      TryOpen(Attempted(d, tries[..|tries| - 1]), last.0, last.1).disk
  }

  lemma {:induction false} NothingChanges(d: Disk, tries: seq<(Day, Clock)>)
    requires TryRecover(d).Err?
    ensures Attempted(d, tries) == d
    decreases |tries|
  {
    hide TryRecover;
    if tries != [] {
      NothingChanges(d, tries[..|tries| - 1]);
    }
  }

  /** Opening after a torn write succeeds exactly if what the write left is text. If it does not, the disk
      stays as it is, and no later attempt succeeds, however many come before it and on whatever days. */
  lemma {:induction false} TornOpensExactly(d: Disk, h: seq<Record>, torn: Day, fragment: Line,
                                            tries: seq<(Day, Clock)>, today: Day, clk: Clock)
    requires DiskOk(d, h) && torn in d.files && IsLast(torn, d.files.Keys) && IsFragment(h, fragment)
    ensures var d1 := Tear(d, torn, fragment);
            && (TryOpen(d1, today, clk).mem.Some? <==> !fragment.NotText?)
            && (fragment.NotText? ==>
                  Attempted(d1, tries) == d1 && TryOpen(Attempted(d1, tries), today, clk) == Opening(d1, None))
  {
    hide TryRecover, DiskOk, Logged;
    var d1 := Tear(d, torn, fragment);
    TornRecovery(d, h, torn, fragment);
    if fragment.NotText? {
      NothingChanges(d1, tries);
    }
  }

  /** One record is enough: the write of the second is cut inside a character, and nothing opens the log
      again. */
  lemma {:induction false} CutCharacterStopsStartup(rec: Record, tries: seq<(Day, Clock)>, today: Day, clk: Clock)
    requires rec.seqNo == FIRST_SEQ
    ensures var d := Disk(map[1 := DayFile([Whole(rec)], None)], 2);
            var d1 := Tear(d, 1, NotText);
            && DiskOk(d, [rec]) && TryOpen(d, today, clk).mem.Some?
            && Attempted(d1, tries) == d1 && TryOpen(d1, today, clk) == Opening(d1, None)
  {
    hide TryRecover, Recover, CanRecover, Logged, Attempted;
    var d0 := Disk(map[1 := DayFile([Whole(rec)], None)], 0);
    var d := d0.(marker := 2);
    OneFile(1, rec);
    assert 1 in d.files && IsLast(1, d.files.Keys);
    TornOpensExactly(d, [rec], 1, NotText, tries, today, clk);
    SoundOpens(d, [rec], today, clk);
  }

  lemma SoundOpens(d: Disk, h: seq<Record>, today: Day, clk: Clock)
    requires DiskOk(d, h)
    ensures TryOpen(d, today, clk).mem.Some?
  {
    hide AllLines, Logged;
    CleanReads(d.files, 0, 0);
  }

  // --------------------------------------------------------------------- replaying ---

  /** A replay can be read exactly if every retained file can, or more than `max` records after the cursor
      come before the first line that is not text. */
  lemma {:induction false} ReplayReadable(files: map<Day, DayFile>, cursor: nat, max: nat)
    ensures TryReplay(files, cursor, max).Ok?
       <==> || (forall k :: k in files ==> files[k].Legible())
            || |After(Parsed(TextPrefix(AllLines(files))), cursor)| > max
  {
    hide AllLines, Replay, TextPrefix, After, Parsed, DayFile.Legible;
    AllLinesText(files);
  }

  /** With a bound that the retained records do not exceed: exactly if every retained file can be read. */
  lemma {:induction false} ReplayReadableInBound(files: map<Day, DayFile>, cursor: nat, max: nat)
    requires |After(Logged(files), cursor)| <= max
    ensures TryReplay(files, cursor, max).Ok? <==> forall k :: k in files ==> files[k].Legible()
  {
    hide AllLines, Logged, TryReplay, After, Parsed, DayFile.Legible;
    ReplayReadable(files, cursor, max);
    LoggedLines(files);
    var all := AllLines(files);
    var text := TextPrefix(all);
    ParsedConcat(text, all[|text|..]);
    assert text + all[|text|..] == all;
    AfterConcat(Parsed(text), Parsed(all[|text|..]), cursor);
  }
}
