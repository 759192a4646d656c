/** The log object of app/server/src/jsonl.rs: counters and a write buffer over a directory of day
    files, every operation proved to perform exactly the disk writes the model lists. */
module Jsonl {
  import opened Wrappers
  import opened LogModel
  import opened LogSafety
  import opened Sets

  /** The log directory. It outlives the process; `journal` records every write made to it. */
  class LogDir {
    var files: map<Day, DayFile>
    var marker: nat
    ghost var journal: seq<Write>

    constructor ()
      ensures Disk() == EMPTY_DISK && journal == []
    {
      files, marker, journal := map[], 0, [];
    }

    function Disk(): Disk
      reads this
    {
      LogModel.Disk(files, marker)
    }

    /** What `journal` says the disk must be, and every record that ever reached it. */
    ghost predicate Valid()
      reads this
    {
      Disk() == ApplyAll(EMPTY_DISK, journal)
    }

    ghost function History(): seq<Record>
      reads this
    {
      Puts(journal)
    }

    method Write(w: Write)
      requires Valid()
      modifies this
      ensures Valid() && journal == old(journal) + [w] && Disk() == ApplyWrite(old(Disk()), w)
      ensures History() == old(History()) + Puts([w])
    {
      match w {
        case PutMarker(n) => marker := n;
        case OpenFile(day) =>
          if day !in files {
            files := files[day := EMPTY_FILE];
          }
        case PutLine(day, rec) =>
          var f := if day in files then files[day] else EMPTY_FILE;
          files := files[day := AddLine(f, rec)];
        case DeleteFile(day) => files := files - {day};
      }
      assert Disk() == ApplyWrite(old(Disk()), w) by {
        if w.OpenFile? && w.day in old(files) {
          assert old(files)[w.day := old(files)[w.day]] == old(files);
        }
      }
      journal := journal + [w];
      assert journal[..|journal| - 1] == old(journal);
      PutsConcat(old(journal), [w]);
    }

    /** The file names sorted; the loop is the library's sort. */
    method SortedDays() returns (days: seq<Day>)
      ensures Lists(days, files)
    {
      days := [];
      var left := files.Keys;
      while left != {}
        invariant left <= files.Keys
        invariant Ascending(days)
        invariant forall d :: d in files <==> d in days || d in left
        invariant forall d, e :: d in days && e in left ==> d < e
        decreases left
      {
        var least := Pick(left);
        var rest := left - {least};
        while rest != {}
          invariant least in left && rest <= left
          invariant forall d :: d in left && d !in rest ==> least <= d
          decreases rest
        {
          var d := Pick(rest);
          rest := rest - {d};
          if d < least {
            least := d;
          }
        }
        assert forall d :: d in left ==> least <= d;
        forall i | 0 <= i < |days| ensures days[i] < least {
          assert days[i] in days;
        }
        days := days + [least];
        left := left - {least};
      }
    }
  }

  ghost predicate Ascending(days: seq<Day>) {
    forall i, j :: 0 <= i < j < |days| ==> days[i] < days[j]
  }

  // ----------------------------------------------------- reading files in order ---

  /** The lines of the listed files one after the other. */
  ghost function LinesOf(files: map<Day, DayFile>, days: seq<Day>): seq<Line>
    requires forall i :: 0 <= i < |days| ==> days[i] in files
  {
    if days == [] then []
    else LinesOf(files, days[..|days| - 1]) + files[days[|days| - 1]].Content()
  }

  lemma {:induction false} LinesOfLocal(a: map<Day, DayFile>, b: map<Day, DayFile>, days: seq<Day>)
    requires forall i :: 0 <= i < |days| ==> days[i] in a && days[i] in b && a[days[i]] == b[days[i]]
    ensures LinesOf(a, days) == LinesOf(b, days)
    decreases |days|
  {
    if days != [] {
      LinesOfLocal(a, b, days[..|days| - 1]);
    }
  }

  ghost predicate Lists(days: seq<Day>, files: map<Day, DayFile>) {
    Ascending(days) && forall d :: d in days <==> d in files
  }

  /** The last of the names is the newest file, and the names before it list the others. */
  lemma ListsLast(days: seq<Day>, files: map<Day, DayFile>)
    requires Lists(days, files) && days != []
    ensures var n := |days| - 1;
            && days[n] in files && Newest(files.Keys) == days[n]
            && Lists(days[..n], files - {days[n]})
  {
    var n := |days| - 1;
    assert days == days[..n] + [days[n]];
    assert days[n] in days;
    var m := Newest(files.Keys);
    assert m in days;
    assert m == days[n];
  }

  lemma {:induction false} LinesInOrder(files: map<Day, DayFile>, days: seq<Day>)
    requires Lists(days, files)
    requires forall i :: 0 <= i < |days| ==> days[i] in files
    ensures LinesOf(files, days) == AllLines(files)
    decreases |days|
  {
    hide Lists, Newest, DayFile.Content;
    if days == [] {
      ListsNothing(files);
    } else {
      hide AllLines;
      var n := |days| - 1;
      ListsLast(days, files);
      var rest := files - {days[n]};
      forall i | 0 <= i < n ensures days[i] in rest {
        ListsIn(days[..n], rest, i);
      }
      LinesInOrder(rest, days[..n]);
      LinesOfLocal(files, rest, days[..n]);
      AllLinesStep(files);
    }
  }

  lemma ListsNothing(files: map<Day, DayFile>)
    requires Lists([], files)
    ensures files.Keys == {}
  {
    var days: seq<Day> := [];
    assert forall d :: d in files ==> d in days;
  }

  lemma ListsIn(days: seq<Day>, files: map<Day, DayFile>, i: nat)
    requires Lists(days, files) && i < |days|
    ensures days[i] in files
  {
    assert days[i] in days;
  }

  // ------------------------------------------------------------------ recovery ---

  method NewestDay(dir: LogDir) returns (newest: Option<Day>)
    ensures newest.None? <==> dir.files.Keys == {}
    ensures newest.Some? ==> newest.value in dir.files && newest.value == Newest(dir.files.Keys)
  {
    newest := None;
    var left := dir.files.Keys;
    while left != {}
      invariant left <= dir.files.Keys
      invariant newest.None? ==> left == dir.files.Keys
      invariant newest.Some? ==> newest.value in dir.files
      invariant newest.Some? ==> forall d :: d in dir.files && d !in left ==> d <= newest.value
      decreases left
    {
      var day := Pick(left);
      left := left - {day};
      if newest.None? || day > newest.value {
        newest := Some(day);
      }
    }
  }

  /** One past the largest number in a file and whether its end is torn, unless it cannot be read. */
  method ScanFile(f: DayFile) returns (r: Result<(nat, bool), LogError>)
    ensures r.Ok? <==> f.Legible()
    ensures r.Ok? ==> r.value == (f.Next(), f.Torn())
  {
    hide ScanNext, TornEnd, DayFile.Content, DayFile.Next, DayFile.Torn;
    var next, torn := 0, false;
    var lines := f.Content();
    var i := 0;
    ScanNothing();
    while i < |lines|
      invariant 0 <= i <= |lines|
      invariant AllText(lines[..i])
      invariant next == ScanNext(lines[..i])
      invariant torn <==> TornEnd(lines[..i])
    {
      assert lines[..i + 1] == lines[..i] + [lines[i]];
      ScanAppend(lines[..i], lines[i]);
      TornAppend(lines[..i], lines[i]);
      match lines[i] {
        case NotText =>
          return Err(Io);
        case Blank =>
        case Whole(rec) =>
          next := MaxNat(next, rec.seqNo + 1);
          torn := false;
        case Garbage =>
          torn := true;
      }
      i := i + 1;
    }
    assert lines[..i] == lines;
    ReadingFinds(f);
    return Ok((next, torn));
  }

  method RecoverNextSeq(dir: LogDir) returns (r: Result<Recovery, LogError>)
    ensures r == TryRecover(dir.Disk())
  {
    hide DayFile.Legible, DayFile.Next, DayFile.Torn;
    var newest := NewestDay(dir);
    var fromFiles, torn := 0, false;
    if newest.Some? {
      var scan := ScanFile(dir.files[newest.value]);
      if scan.Err? {
        return Err(Io);
      }
      fromFiles, torn := scan.value.0, scan.value.1;
    }
    r := Ok(Recovery(MaxNat(MaxNat(dir.marker, fromFiles), FIRST_SEQ), fromFiles > dir.marker, torn));
  }

  // ------------------------------------------------------------------- the log ---

  /** The writes a buffered list of records turns into when flushed to one day's file. */
  function Lines(day: Day, recs: seq<Record>): seq<Write> {
    seq(|recs|, i requires 0 <= i < |recs| => PutLine(day, recs[i]))
  }

  lemma LinesSnoc(day: Day, recs: seq<Record>, rec: Record)
    ensures Lines(day, recs + [rec]) == Lines(day, recs) + [PutLine(day, rec)]
    ensures Lines(day, [rec]) == [PutLine(day, rec)] && Lines(day, []) == []
  {
  }

  class JsonlLog {
    const dir: LogDir
    var nextSeq: nat
    var day: Day
    var unsynced: nat
    var buffer: seq<Record>

    function Mem(): Mem
      reads this
    {
      LogModel.Mem(nextSeq, day, unsynced)
    }

    /** Between operations nothing is left in the write buffer. */
    ghost predicate Valid()
      reads this, dir
    {
      dir.Valid() && buffer == []
    }

    ghost function Sys(): Sys
      reads this, dir
    {
      LogSafety.Sys(dir.Disk(), Some(Mem()), dir.History())
    }

    /** What `open` does with the counters recovered: today's file, and the recovery line if due. */
    constructor (dir: LogDir, recovered: Recovery, today: Day, clk: Clock)
      requires dir.Valid() && recovered == Recover(dir.Disk())
      modifies dir
      ensures Valid() && this.dir == dir
      ensures dir.journal == old(dir.journal) + OpenWrites(old(dir.Disk()), today, clk)
      ensures dir.Disk() == ApplyAll(old(dir.Disk()), OpenWrites(old(dir.Disk()), today, clk))
      ensures Mem() == OpenMem(old(dir.Disk()), today, clk)
      ensures recovered.fromScan ==>
                && old(dir.History()) < dir.History()
                && dir.History()[|dir.History()| - 1]
                   == Record(nextSeq - 1, clk.ms, System, None, None,
                             Recovered(recovered.nextSeq, recovered.tornLine), None)
      ensures !recovered.fromScan ==> dir.History() == old(dir.History())
    {
      hide Recover, ApplyAll, Puts, AppendWrites, Rotated;
      this.dir := dir;
      nextSeq, day, unsynced, buffer := recovered.nextSeq, today, 0, [];
      new;
      PutsOne(OpenFile(today));
      dir.Write(OpenFile(today));
      ghost var d := old(dir.Disk());
      ApplyOne(d, OpenFile(today));
      if recovered.fromScan {
        var _ := Append(clk, RecoveryEntry(recovered));
        ghost var more := AppendWrites(LogModel.Mem(recovered.nextSeq, today, 0), clk, RecoveryEntry(recovered));
        assert old(dir.journal) + [OpenFile(today)] + more == old(dir.journal) + ([OpenFile(today)] + more);
        ApplyAllConcat(d, [OpenFile(today)], more);
      } else {
        assert [OpenFile(today)] + [] == [OpenFile(today)];
      }
    }

    method FlushBuffer()
      requires dir.Valid()
      modifies this`buffer, dir
      ensures Valid()
      ensures dir.journal == old(dir.journal) + Lines(day, old(buffer))
    {
      hide Lines, ApplyAll, Puts;
      ghost var all := buffer;
      ghost var done := 0;
      LinesSnoc(day, [], RotationRecord(Mem(), Clock(day, 0, 0, false)));
      assert all[..0] == [];
      while buffer != []
        invariant dir.Valid()
        invariant 0 <= done <= |all| && buffer == all[done..]
        invariant dir.journal == old(dir.journal) + Lines(day, all[..done])
        decreases buffer
      {
        dir.Write(PutLine(day, buffer[0]));
        LinesSnoc(day, all[..done], all[done]);
        assert all[..done + 1] == all[..done] + [all[done]];
        buffer := buffer[1..];
        done := done + 1;
      }
      assert all[..done] == all;
    }

    method Sync()
      requires dir.Valid()
      modifies this, dir
      ensures Valid()
      ensures dir.journal == old(dir.journal) + Lines(old(day), old(buffer)) + [PutMarker(old(nextSeq))]
      ensures Mem() == old(Mem()).(unsynced := 0)
    {
      FlushBuffer();
      dir.Write(PutMarker(nextSeq));
      unsynced := 0;
    }

    /** Switch to a new day's file; its first record waits in the buffer for the next flush. */
    method Rotate(clk: Clock)
      requires Valid() && clk.day != day
      modifies this, dir
      ensures dir.Valid() && Mem() == Rotated(old(Mem()), clk)
      ensures buffer == [RotationRecord(old(Mem()), clk)]
      ensures buffer == [Record(old(nextSeq), clk.rotateMs, System, None, None, RotatedFrom(old(day)), None)]
      ensures dir.journal == old(dir.journal) + [PutMarker(old(nextSeq)), OpenFile(clk.day)]
    {
      Sync();
      var previous := day;
      dir.Write(OpenFile(clk.day));
      day := clk.day;
      buffer := buffer + [Record(nextSeq, clk.rotateMs, System, None, None, RotatedFrom(previous), None)];
      nextSeq := nextSeq + 1;
    }

    /** Assign the number and write the line, after rotating if the day changed. */
    method WriteRecord(clk: Clock, e: Entry) returns (seqNo: nat)
      requires Valid()
      modifies this, dir
      ensures Valid()
      ensures dir.journal == old(dir.journal)
                             + (RotateWrites(old(Mem()), clk) + [PutLine(clk.day, Stamp(seqNo, clk.ms, e))])
      ensures seqNo == Rotated(old(Mem()), clk).nextSeq
      ensures Mem() == LogModel.Mem(seqNo + 1, clk.day, Rotated(old(Mem()), clk).unsynced + 1)
    {
      hide Lines;
      if clk.day != day {
        Rotate(clk);
      }
      seqNo := nextSeq;
      ghost var waiting := buffer;
      var rec := Stamp(seqNo, clk.ms, e);
      buffer := buffer + [rec];
      FlushBuffer();
      nextSeq := seqNo + 1;
      unsynced := unsynced + 1;
      LinesSnoc(clk.day, waiting, rec);
      LinesSnoc(clk.day, [], RotationRecord(old(Mem()), clk));
      assert dir.journal == old(dir.journal) + (RotateWrites(old(Mem()), clk) + [PutLine(clk.day, rec)]);
    }

    method Append(clk: Clock, e: Entry) returns (seqNo: nat)
      requires Valid()
      modifies this, dir
      ensures Valid()
      ensures dir.journal == old(dir.journal) + AppendWrites(old(Mem()), clk, e)
      ensures dir.Disk() == ApplyAll(old(dir.Disk()), AppendWrites(old(Mem()), clk, e))
      ensures Mem() == AppendMem(old(Mem()), clk, e)
      ensures seqNo == Rotated(old(Mem()), clk).nextSeq
      ensures old(dir.History()) < dir.History()
      ensures dir.History()[|dir.History()| - 1]
           == Record(seqNo, clk.ms, e.kind, e.target, e.origin, e.event, e.fanout)
    {
      hide ApplyAll, ApplyWrite, Puts, RotateWrites;
      AppendExactly(dir.Disk(), Mem(), clk, e);
      PutsConcat(dir.journal, AppendWrites(Mem(), clk, e));
      seqNo := WriteRecord(clk, e);
      ghost var written := RotateWrites(old(Mem()), clk) + [PutLine(clk.day, Stamp(seqNo, clk.ms, e))];
      if unsynced >= SYNC_EVERY_LINES || clk.due {
        Sync();
        assert AppendWrites(old(Mem()), clk, e) == written + [PutMarker(seqNo + 1)];
      } else {
        assert AppendWrites(old(Mem()), clk, e) == written;
      }
      assert dir.journal == old(dir.journal) + AppendWrites(old(Mem()), clk, e);
      ApplyAllConcat(EMPTY_DISK, old(dir.journal), AppendWrites(old(Mem()), clk, e));
    }

    method Flush()
      requires Valid()
      modifies this, dir
      ensures Valid()
      ensures dir.journal == old(dir.journal) + [PutMarker(old(nextSeq))]
      ensures Mem() == old(Mem()).(unsynced := 0)
    {
      Sync();
    }

    /** Read every file in name order, collecting what lies after the cursor; give up as soon as
        that is more than `max`, or at the end if the oldest record is past the cursor. */
    method ReplaySince(after: nat, max: nat) returns (r: Result<Option<seq<Record>>, LogError>)
      ensures r == TryReplay(dir.files, after, max)
    {
      hide After, Logged, Parsed, Lists, AllText, AllLines, TextPrefix, TryReplay, Replay, DayFile.Content, LinesOf;
      var days := dir.SortedDays();
      var out: seq<Record> := [];
      var oldest: Option<nat> := None;
      forall k | 0 <= k < |days| ensures days[k] in dir.files {
        ListsIn(days, dir.files, k);
      }
      LinesInOrder(dir.files, days);
      ghost var all := AllLines(dir.files);
      NothingRead(dir.files, after);
      var i := 0;
      assert days[..0] == [];
      while i < |days|
        invariant 0 <= i <= |days|
        invariant AllText(LinesOf(dir.files, days[..i]))
        invariant out == After(Parsed(LinesOf(dir.files, days[..i])), after) && |out| <= max
        invariant oldest == FirstSeq(Parsed(LinesOf(dir.files, days[..i])))
      {
        ghost var seen := LinesOf(dir.files, days[..i]);
        LinesOfNext(dir.files, days, i);
        LinesOfPrefix(dir.files, days, i + 1);
        var scan, k := ScanLines(dir.files[days[i]].Content(), after, max, out, oldest, seen);
        match scan {
          case Unreadable =>
            StopsUnread(dir.files, all, seen + dir.files[days[i]].Content(), k, after, max);
            return Err(Io);
          case TooMuch =>
            StopsFull(dir.files, all, seen + dir.files[days[i]].Content(), k, after, max);
            return Ok(None);
          case More(o, first) =>
            out, oldest := o, first;
        }
        i := i + 1;
      }
      assert days[..i] == days;
      LoggedLines(dir.files);
      ReadToTheEnd(dir.files, after, max);
      if oldest.Some? && after + 1 < oldest.value {
        return Ok(None);
      }
      return Ok(Some(out));
    }
  }

  /** `JsonlLog::open`: nothing is written unless the counters can be recovered. */
  method Open(dir: LogDir, today: Day, clk: Clock) returns (r: Result<JsonlLog, LogError>)
    requires dir.Valid()
    modifies dir
    ensures dir.Valid()
    ensures r.Ok? <==> CanRecover(old(dir.Disk()))
    ensures r.Err? ==> unchanged(dir)
    ensures r.Ok? ==> fresh(r.value) && r.value.Valid() && r.value.dir == dir
    ensures r.Ok? ==> dir.journal == old(dir.journal) + OpenWrites(old(dir.Disk()), today, clk)
    ensures r.Ok? ==> dir.Disk() == ApplyAll(old(dir.Disk()), OpenWrites(old(dir.Disk()), today, clk))
    ensures r.Ok? ==> r.value.Mem() == OpenMem(old(dir.Disk()), today, clk)
  {
    hide Recover, CanRecover, OpenWrites, OpenMem, ApplyAll;
    var recovered := RecoverNextSeq(dir);
    if recovered.Err? {
      return Err(recovered.error);
    }
    var log := new JsonlLog(dir, recovered.value, today, clk);
    return Ok(log);
  }

  // ------------------------------------------------------------- where reading ends ---

  lemma {:induction false} NothingRead(files: map<Day, DayFile>, after: nat)
    ensures LinesOf(files, []) == [] && AllText([]) && Parsed([]) == [] && After([], after) == []
  {
  }

  lemma {:induction false} LinesOfNext(files: map<Day, DayFile>, days: seq<Day>, i: nat)
    requires i < |days| && forall k :: 0 <= k < |days| ==> days[k] in files
    ensures LinesOf(files, days[..i + 1]) == LinesOf(files, days[..i]) + files[days[i]].Content()
  {
    assert days[..i + 1][..i] == days[..i];
  }

  lemma {:induction false} LinesOfPrefix(files: map<Day, DayFile>, days: seq<Day>, i: nat)
    requires i <= |days| && forall k :: 0 <= k < |days| ==> days[k] in files
    ensures LinesOf(files, days[..i]) <= LinesOf(files, days)
    decreases |days|
  {
    if i < |days| {
      LinesOfPrefix(files, days[..|days| - 1], i);
      assert days[..|days| - 1][..i] == days[..i];
    } else {
      assert days[..i] == days;
    }
  }

  /** A line that is not text comes before the bound is exceeded. */
  lemma {:induction false} StopsUnread(
      files: map<Day, DayFile>, all: seq<Line>, read: seq<Line>, k: nat, after: nat, max: nat)
    requires all == AllLines(files) && read <= all && k < |read|
    requires AllText(read[..k]) && read[k].NotText? && |After(Parsed(read[..k]), after)| <= max
    ensures TryReplay(files, after, max) == Err(Io)
  {
    hide After, Parsed, AllLines, TextPrefix;
    assert read[..k] == all[..k] && all[k] == read[k];
    TextPrefixIs(all, k);
  }

  /** The bound is exceeded before such a line. */
  lemma {:induction false} StopsFull(
      files: map<Day, DayFile>, all: seq<Line>, read: seq<Line>, k: nat, after: nat, max: nat)
    requires all == AllLines(files) && read <= all && k <= |read|
    requires AllText(read[..k]) && |After(Parsed(read[..k]), after)| > max
    ensures TryReplay(files, after, max) == Ok(None)
  {
    hide After, Parsed, AllLines, TextPrefix, Logged;
    assert read[..k] == all[..k];
    LoggedLines(files);
    if AllText(all) {
      PartAfter(all, k, after);
    } else {
      TextPrefixAtLeast(all, k);
      var text := TextPrefix(all);
      assert text[..k] == all[..k];
      PartAfter(text, k, after);
    }
  }

  lemma {:induction false} PartAfter(lines: seq<Line>, k: nat, after: nat)
    requires k <= |lines|
    ensures |After(Parsed(lines[..k]), after)| <= |After(Parsed(lines), after)|
  {
    ParsedConcat(lines[..k], lines[k..]);
    assert lines[..k] + lines[k..] == lines;
    AfterConcat(Parsed(lines[..k]), Parsed(lines[k..]), after);
  }

  lemma {:induction false} ReadToTheEnd(files: map<Day, DayFile>, after: nat, max: nat)
    requires AllText(AllLines(files)) && |After(Logged(files), after)| <= max
    ensures var all := Logged(files);
            TryReplay(files, after, max)
            == Ok(if all != [] && after + 1 < all[0].seqNo then None else Some(After(all, after)))
  {
    hide After, Logged, AllLines;
  }

  function FirstSeq(recs: seq<Record>): Option<nat> {
    if recs == [] then None else Some(recs[0].seqNo)
  }

  /** How reading one file ends. */
  datatype Scan = Unreadable | TooMuch | More(out: seq<Record>, oldest: Option<nat>)

  /** One file of a replay, given what the files before it contributed; `k` is how much of everything
      was read. */
  method ScanLines(lines: seq<Line>, after: nat, max: nat, out0: seq<Record>, oldest0: Option<nat>,
                   ghost seen: seq<Line>)
    returns (scan: Scan, ghost k: nat)
    requires AllText(seen)
    requires out0 == After(Parsed(seen), after) && |out0| <= max && oldest0 == FirstSeq(Parsed(seen))
    ensures k <= |seen + lines| && AllText((seen + lines)[..k])
    ensures scan.Unreadable? ==>
              k < |seen + lines| && (seen + lines)[k].NotText? && |After(Parsed((seen + lines)[..k]), after)| <= max
    ensures scan.TooMuch? ==> |After(Parsed((seen + lines)[..k]), after)| > max
    ensures scan.More? ==> k == |seen + lines| && AllText(seen + lines)
                           && scan.out == After(Parsed(seen + lines), after) && |scan.out| <= max
                           && scan.oldest == FirstSeq(Parsed(seen + lines))
  {
    hide After, Parsed;
    var out, oldest := out0, oldest0;
    var j := 0;
    ghost var all := seen + lines;
    k := |seen|;
    assert all[..k] == seen;
    while j < |lines|
      invariant 0 <= j <= |lines| && k == |seen| + j
      invariant AllText(all[..k])
      invariant out == After(Parsed(all[..k]), after) && |out| <= max
      invariant oldest == FirstSeq(Parsed(all[..k]))
    {
      assert all[k] == lines[j] && all[..k + 1] == all[..k] + [lines[j]];
      ParsedSnoc(all[..k], lines[j]);
      match lines[j] {
        case NotText =>
          return Unreadable, k;
        case Whole(rec) =>
          AfterSnoc(Parsed(all[..k]), rec, after);
          if oldest.None? {
            oldest := Some(rec.seqNo);
          }
          if rec.seqNo > after {
            out := out + [rec];
            if |out| > max {
              return TooMuch, k + 1;
            }
          }
        case _ =>
          assert Parsed(all[..k]) + [] == Parsed(all[..k]);
      }
      j := j + 1;
      k := k + 1;
    }
    assert all[..k] == all;
    scan := More(out, oldest);
  }

  lemma {:induction false} AfterSnoc(recs: seq<Record>, rec: Record, after: nat)
    ensures After(recs + [rec], after)
         == After(recs, after) + if rec.seqNo > after then [rec] else []
  {
    assert (recs + [rec])[..|recs|] == recs;
  }
}
