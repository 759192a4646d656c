/** What every run of the event log keeps: numbering without gap or repeat across rotations,
    flushes, crashes and reopens, and exactly where that stops being true. */
module LogSafety {
  import opened Wrappers
  import opened LogModel
  import opened Sets

  // ---------------------------------------------------------------- invariant ---

  ghost predicate Sequenced(h: seq<Record>) {
    forall i :: 0 <= i < |h| ==> h[i].seqNo == FIRST_SEQ + i
  }

  ghost predicate Clean(files: map<Day, DayFile>) {
    forall d :: d in files ==>
                  files[d].tail.None?
                  && forall i :: 0 <= i < |files[d].lines| ==> files[d].lines[i].Whole?
  }

  predicate IsSuffix(s: seq<Record>, h: seq<Record>) {
    |s| <= |h| && s == h[|h| - |s|..]
  }

  predicate IsLast(day: Day, days: set<Day>) {
    forall d :: d in days ==> d <= day
  }

  /** The newest file holds a record, or the watermark has caught up with everything logged. */
  ghost predicate CaughtUp(d: Disk, h: seq<Record>) {
    d.files.Keys != {} ==>
      d.files[Newest(d.files.Keys)].lines != [] || d.marker == |h| + 1 || h == []
  }

  /** The disk against the history `h` of every record that ever reached it. */
  ghost predicate Numbered(d: Disk, h: seq<Record>) {
    && Sequenced(h)
    && Clean(d.files)
    && IsSuffix(Logged(d.files), h)
    && d.marker <= |h| + 1
    && (d.files.Keys == {} ==> h == [])
  }

  ghost predicate DiskOk(d: Disk, h: seq<Record>) {
    Numbered(d, h) && CaughtUp(d, h)
  }

  ghost predicate Running(d: Disk, h: seq<Record>, mem: Mem) {
    && mem.nextSeq == |h| + 1
    && mem.day in d.files
    && IsLast(mem.day, d.files.Keys)
  }

  // -------------------------------------------------------- effects on `Logged` ---

  lemma LoggedNewest(files: map<Day, DayFile>, day: Day, f: DayFile)
    requires IsLast(day, files.Keys)
    ensures Logged(files[day := f]) == Logged(files - {day}) + f.Records()
    ensures Newest(files[day := f].Keys) == day
  {
    var g := files[day := f];
    assert day in g.Keys && IsLast(day, g.Keys);
    assert g - {day} == files - {day};
  }

  lemma LoggedOpen(d: Disk, day: Day)
    requires IsLast(day, d.files.Keys)
    ensures Logged(ApplyWrite(d, OpenFile(day)).files) == Logged(d.files)
  {
    LoggedNewest(d.files, day, FileAt(d, day));
    if day in d.files {
      assert d.files[day := d.files[day]] == d.files;
    } else {
      assert d.files - {day} == d.files;
      assert Parsed([]) == [];
    }
  }

  /** A line becomes a record exactly when it does not merge into a fragment; if the fragment was
      itself a record, merging costs that one too. */
  lemma LoggedPut(d: Disk, day: Day, rec: Record)
    requires IsLast(day, d.files.Keys)
    ensures var d' := ApplyWrite(d, PutLine(day, rec));
            match FileAt(d, day).tail
            case Some(Whole(lost)) => Logged(d.files) == Logged(d'.files) + [lost]
            case Some(Garbage) => Logged(d'.files) == Logged(d.files)
            case Some(NotText) => Logged(d'.files) == Logged(d.files)
            case _ => Logged(d'.files) == Logged(d.files) + [rec]
  {
    hide Logged, Newest, Parsed;
    var f := FileAt(d, day);
    LoggedNewest(d.files, day, AddLine(f, rec));
    LoggedNewest(d.files, day, f);
    LoggedOpen(d, day);
    ParsedSnoc(f.lines, Merged(f.tail, rec));
  }

  lemma {:induction false} LoggedOldest(files: map<Day, DayFile>, day: Day)
    requires day in files && forall e :: e in files ==> day <= e
    ensures Logged(files) == files[day].Records() + Logged(files - {day})
    decreases |files|
  {
    var m := Newest(files.Keys);
    assert (files - {m}).Keys == files.Keys - {m};
    if m == day {
      assert (files - {day}).Keys == {} by {
        assert forall e :: e in files ==> e == day;
      }
    } else {
      LoggedOldest(files - {m}, day);
      var rest := files - {day};
      assert rest.Keys == files.Keys - {day};
      assert m in rest.Keys;
      assert Newest(rest.Keys) == m;
      assert rest - {m} == files - {m} - {day};
    }
  }

  // ------------------------------------------------------------ one disk write ---

  ghost predicate SafeWrite(d: Disk, h: seq<Record>, w: Write) {
    match w
    case PutMarker(n) => n == |h| + 1
    case OpenFile(day) =>
      && IsLast(day, d.files.Keys)
      && (day in d.files || d.marker == |h| + 1 || h == [])
    case PutLine(day, rec) =>
      day in d.files && IsLast(day, d.files.Keys) && rec.seqNo == |h| + 1
    case DeleteFile(day) =>
      && day in d.files
      && (exists e :: e in d.files && day < e)
      && forall e :: e in d.files ==> day <= e
  }

  /** A record or a current watermark re-establishes what creating an empty file may break. */
  predicate Repairs(w: Write) {
    w.PutLine? || w.PutMarker?
  }

  ghost predicate Grows(d: Disk, d': Disk, recs: seq<Record>) {
    Logged(d'.files) == Logged(d.files) + recs
  }

  lemma OpenKeeps(d: Disk, h: seq<Record>, day: Day)
    requires Numbered(d, h) && SafeWrite(d, h, OpenFile(day))
    ensures var d' := ApplyWrite(d, OpenFile(day));
            Numbered(d', h) && Grows(d, d', []) && (CaughtUp(d, h) ==> CaughtUp(d', h))
  {
    hide Newest, Logged, Sequenced, IsSuffix;
    LoggedOpen(d, day);
    LoggedNewest(d.files, day, FileAt(d, day));
    if day in d.files {
      assert Newest(d.files.Keys) == day;
    }
  }

  lemma SuffixSnoc(s: seq<Record>, h: seq<Record>, rec: Record)
    requires IsSuffix(s, h)
    ensures IsSuffix(s + [rec], h + [rec])
  {
  }

  lemma PutKeeps(d: Disk, h: seq<Record>, day: Day, rec: Record)
    requires Numbered(d, h) && SafeWrite(d, h, PutLine(day, rec))
    ensures var d' := ApplyWrite(d, PutLine(day, rec));
            DiskOk(d', h + [rec]) && Grows(d, d', [rec])
  {
    hide Logged, Newest, Parsed;
    LoggedPut(d, day, rec);
    LoggedNewest(d.files, day, AddLine(FileAt(d, day), rec));
    SuffixSnoc(Logged(d.files), h, rec);
  }

  lemma DeleteKeeps(d: Disk, h: seq<Record>, day: Day)
    requires Numbered(d, h) && SafeWrite(d, h, DeleteFile(day))
    ensures var d' := ApplyWrite(d, DeleteFile(day));
            Numbered(d', h) && (CaughtUp(d, h) ==> CaughtUp(d', h))
  {
    var d' := ApplyWrite(d, DeleteFile(day));
    var e :| e in d.files && day < e;
    assert e in d'.files;
    LoggedOldest(d.files, day);
    assert Newest(d.files.Keys) in d'.files.Keys;
    assert Newest(d'.files.Keys) == Newest(d.files.Keys);
  }

  lemma SafeWriteKeeps(d: Disk, h: seq<Record>, w: Write)
    requires Numbered(d, h) && SafeWrite(d, h, w)
    ensures Numbered(ApplyWrite(d, w), h + Puts([w]))
    ensures CaughtUp(d, h) || Repairs(w) ==> CaughtUp(ApplyWrite(d, w), h + Puts([w]))
    ensures !w.DeleteFile? ==> Grows(d, ApplyWrite(d, w), Puts([w]))
  {
    PutsOne(w);
    assert h + [] == h;
    match w {
      case PutMarker(n) =>
      case OpenFile(day) => OpenKeeps(d, h, day);
      case PutLine(day, rec) => PutKeeps(d, h, day, rec);
      case DeleteFile(day) => DeleteKeeps(d, h, day);
    }
  }

  /** Every write of the list is safe in the state the ones before it leave. */
  ghost predicate AllSafe(d: Disk, h: seq<Record>, ws: seq<Write>) {
    ws == []
    || var n := |ws| - 1;
       AllSafe(d, h, ws[..n]) && SafeWrite(ApplyAll(d, ws[..n]), h + Puts(ws[..n]), ws[n])
  }

  predicate NoDelete(ws: seq<Write>) {
    forall i :: 0 <= i < |ws| ==> !ws[i].DeleteFile?
  }

  lemma {:induction false} SafeSnoc(d: Disk, h: seq<Record>, ws: seq<Write>, w: Write)
    requires AllSafe(d, h, ws) && SafeWrite(ApplyAll(d, ws), h + Puts(ws), w)
    ensures AllSafe(d, h, ws + [w])
    ensures ApplyAll(d, ws + [w]) == ApplyWrite(ApplyAll(d, ws), w)
    ensures h + Puts(ws + [w]) == h + Puts(ws) + if w.PutLine? then [w.rec] else []
  {
    assert (ws + [w])[..|ws|] == ws;
  }

  lemma LastWrite(d: Disk, h: seq<Record>, ws: seq<Write>)
    requires ws != []
    ensures var before, last := ws[..|ws| - 1], ws[|ws| - 1];
            && ApplyAll(d, ws) == ApplyWrite(ApplyAll(d, before), last)
            && h + Puts(ws) == h + Puts(before) + Puts([last])
            && Puts(ws) == Puts(before) + Puts([last])
  {
    PutsOne(ws[|ws| - 1]);
  }

  lemma {:induction false} AllSafeKeeps(d: Disk, h: seq<Record>, ws: seq<Write>)
    requires Numbered(d, h) && AllSafe(d, h, ws)
    ensures Numbered(ApplyAll(d, ws), h + Puts(ws))
    ensures CaughtUp(d, h) || (ws != [] && Repairs(ws[0])) ==> CaughtUp(ApplyAll(d, ws), h + Puts(ws))
    decreases |ws|
  {
    hide Numbered, CaughtUp, SafeWrite, ApplyWrite, Grows, Repairs;
    if ws == [] {
      assert h + Puts(ws) == h;
    } else {
      var before, last := ws[..|ws| - 1], ws[|ws| - 1];
      LastWrite(d, h, ws);
      AllSafeKeeps(d, h, before);
      SafeWriteKeeps(ApplyAll(d, before), h + Puts(before), last);
    }
  }

  lemma {:induction false} AllSafeGrows(d: Disk, h: seq<Record>, ws: seq<Write>)
    requires Numbered(d, h) && AllSafe(d, h, ws) && NoDelete(ws)
    ensures Grows(d, ApplyAll(d, ws), Puts(ws))
    decreases |ws|
  {
    hide Numbered, CaughtUp, SafeWrite, ApplyWrite, Repairs, Logged;
    if ws != [] {
      var before, last := ws[..|ws| - 1], ws[|ws| - 1];
      LastWrite(d, h, ws);
      AllSafeGrows(d, h, before);
      AllSafeKeeps(d, h, before);
      SafeWriteKeeps(ApplyAll(d, before), h + Puts(before), last);
    }
  }

  lemma {:induction false} SafePrefix(d: Disk, h: seq<Record>, ws: seq<Write>, k: nat)
    requires AllSafe(d, h, ws) && k <= |ws|
    ensures AllSafe(d, h, ws[..k])
    decreases |ws|
  {
    if k < |ws| {
      SafePrefix(d, h, ws[..|ws| - 1], k);
      assert ws[..|ws| - 1][..k] == ws[..k];
    } else {
      assert ws[..k] == ws;
    }
  }

  /** After any prefix of safe writes, that is after a crash at any point, the disk is sound. */
  lemma {:induction false} PrefixKeeps(d: Disk, h: seq<Record>, ws: seq<Write>, k: nat)
    requires DiskOk(d, h) && AllSafe(d, h, ws) && NoDelete(ws) && k <= |ws|
    ensures DiskOk(ApplyAll(d, ws[..k]), h + Puts(ws[..k]))
    ensures Grows(d, ApplyAll(d, ws[..k]), Puts(ws[..k]))
  {
    hide Numbered, CaughtUp, AllSafe, ApplyAll, Puts, Grows, Repairs;
    SafePrefix(d, h, ws, k);
    AllSafeKeeps(d, h, ws[..k]);
    AllSafeGrows(d, h, ws[..k]);
  }

  // ------------------------------------------------------------------- append ---

  lemma {:induction false} RotateSafe(d: Disk, h: seq<Record>, mem: Mem, clk: Clock)
    requires Numbered(d, h) && Running(d, h, mem) && mem.day <= clk.day
    ensures var ws := RotateWrites(mem, clk);
            && AllSafe(d, h, ws)
            && Running(ApplyAll(d, ws), h + Puts(ws), Rotated(mem, clk))
  {
    assert h + Puts([]) == h;
    if clk.day != mem.day {
      var mark, open, put :=
        PutMarker(mem.nextSeq), OpenFile(clk.day), PutLine(clk.day, RotationRecord(mem, clk));
      SafeSnoc(d, h, [], mark);
      assert [] + [mark] == [mark];
      SafeSnoc(d, h, [mark], open);
      assert [mark] + [open] == [mark, open];
      SafeSnoc(d, h, [mark, open], put);
      assert [mark, open] + [put] == RotateWrites(mem, clk);
    }
  }

  /** Every write of an append is safe, and the counters stay in step with the disk. */
  lemma {:induction false} AppendSafe(d: Disk, h: seq<Record>, mem: Mem, clk: Clock, e: Entry)
    requires Numbered(d, h) && Running(d, h, mem) && mem.day <= clk.day
    ensures var ws := AppendWrites(mem, clk, e);
            && AllSafe(d, h, ws)
            && Running(ApplyAll(d, ws), h + Puts(ws), AppendMem(mem, clk, e))
            && Repairs(ws[0])
            && NoDelete(ws)
  {
    hide AllSafe, Numbered, ApplyAll, Puts;
    var ws := RotateWrites(mem, clk);
    var m := Rotated(mem, clk);
    RotateSafe(d, h, mem, clk);
    var put := PutLine(clk.day, Stamp(m.nextSeq, clk.ms, e));
    SafeSnoc(d, h, ws, put);
    if SyncDue(m, clk) {
      SafeSnoc(d, h, ws + [put], PutMarker(m.nextSeq + 1));
    } else {
      assert ws + [put] + [] == ws + [put];
    }
  }

  // ----------------------------------------------------------------- recovery ---

  lemma {:induction false} ScanSequenced(lines: seq<Line>, bound: nat)
    requires forall i :: 0 <= i < |lines| ==> lines[i].Whole?
    requires forall i :: 0 <= i < |lines| ==> lines[i].rec.seqNo == bound - |lines| + i
    requires |lines| <= bound
    ensures ScanNext(lines) == if lines == [] then 0 else bound
    decreases |lines|
  {
    if lines != [] {
      ScanSequenced(lines[..|lines| - 1], bound - 1);
    }
  }

  lemma {:induction false} ParsedWhole(lines: seq<Line>)
    requires forall i :: 0 <= i < |lines| ==> lines[i].Whole?
    ensures |Parsed(lines)| == |lines|
    ensures forall i :: 0 <= i < |lines| ==> Parsed(lines)[i] == lines[i].rec
  {
    if lines != [] {
      ParsedWhole(lines[..|lines| - 1]);
    }
  }

  /** The scan of the newest file is exact as soon as that file holds anything. */
  lemma FromFilesExact(d: Disk, h: seq<Record>)
    requires Sequenced(h) && IsSuffix(Logged(d.files), h)
    requires d.files.Keys != {}
    requires var f := d.files[Newest(d.files.Keys)];
             f.tail.None? && forall i :: 0 <= i < |f.lines| ==> f.lines[i].Whole?
    ensures FromFiles(d) == if d.files[Newest(d.files.Keys)].lines == [] then 0 else |h| + 1
  {
    var m := Newest(d.files.Keys);
    var lines := d.files[m].lines;
    var before := Logged(d.files - {m});
    assert Logged(d.files) == before + Parsed(lines);
    ParsedWhole(lines);
    var all := Logged(d.files);
    forall i | 0 <= i < |lines| ensures lines[i].rec.seqNo == |h| + 1 - |lines| + i {
      assert lines[i].rec == all[|before| + i] == h[|h| - |all| + |before| + i];
    }
    ScanSequenced(lines, |h| + 1);
  }

  /** When the watermark plus the newest file give back the right counter: exactly when nothing
      was ever logged, or the watermark is current, or the newest file holds a record. */
  lemma RecoveryExact(d: Disk, h: seq<Record>)
    requires Sequenced(h) && Clean(d.files) && IsSuffix(Logged(d.files), h) && d.marker <= |h| + 1
    ensures Recover(d).nextSeq == |h| + 1
       <==> (|| h == []
             || d.marker == |h| + 1
             || (d.files.Keys != {} && d.files[Newest(d.files.Keys)].lines != []))
  {
    if d.files.Keys != {} {
      FromFilesExact(d, h);
    }
  }

  lemma OpenNumbered(d: Disk, h: seq<Record>, day: Day)
    requires Numbered(d, h) && IsLast(day, d.files.Keys)
    ensures Numbered(ApplyWrite(d, OpenFile(day)), h) && Grows(d, ApplyWrite(d, OpenFile(day)), [])
  {
    hide Logged, Newest, Sequenced;
    LoggedOpen(d, day);
  }

  /** Creating today's file is harmless, unless it is new and the counter came from a scan: then the
      recovery has to be logged next. */
  lemma OpenFileKeeps(d: Disk, h: seq<Record>, today: Day)
    requires DiskOk(d, h) && IsLast(today, d.files.Keys)
    ensures Recover(d).nextSeq == |h| + 1
    ensures today in ApplyWrite(d, OpenFile(today)).files && IsLast(today, ApplyWrite(d, OpenFile(today)).files.Keys)
    ensures !Recover(d).fromScan || today in d.files ==> CaughtUp(ApplyWrite(d, OpenFile(today)), h)
  {
    hide Logged, Sequenced, IsSuffix;
    RecoveryExact(d, h);
    var d1 := ApplyWrite(d, OpenFile(today));
    assert today in d1.files.Keys && IsLast(today, d1.files.Keys);
    if today in d.files {
      assert d.files[today := d.files[today]] == d.files;
    } else if d.files.Keys != {} {
      FromFilesExact(d, h);
    }
  }

  /** The recovery line repairs whatever creating the file may have broken. */
  lemma RecoveryLogged(d: Disk, h: seq<Record>, today: Day, clk: Clock)
    requires DiskOk(d, h) && IsLast(today, d.files.Keys) && today <= clk.day && Recover(d).fromScan
    ensures var d1 := ApplyWrite(d, OpenFile(today));
            var mem, e := Mem(Recover(d).nextSeq, today, 0), RecoveryEntry(Recover(d));
            var more := AppendWrites(mem, clk, e);
            && DiskOk(ApplyAll(d1, more), h + Puts(more))
            && Running(ApplyAll(d1, more), h + Puts(more), AppendMem(mem, clk, e))
            && Grows(d1, ApplyAll(d1, more), Puts(more))
  {
    OpenNumbered(d, h, today);
    OpenFileKeeps(d, h, today);
    hide Numbered, CaughtUp, ApplyWrite, AppendWrites, AppendMem, Recover, IsLast, ApplyAll, Puts;
    hide AllSafe, Grows, Repairs;
    var d1 := ApplyWrite(d, OpenFile(today));
    var mem, e := Mem(Recover(d).nextSeq, today, 0), RecoveryEntry(Recover(d));
    AppendSafe(d1, h, mem, clk, e);
    AllSafeKeeps(d1, h, AppendWrites(mem, clk, e));
    AllSafeGrows(d1, h, AppendWrites(mem, clk, e));
  }

  lemma {:induction false} OpenSplits(d: Disk, today: Day, clk: Clock)
    ensures var more := if Recover(d).fromScan
                        then AppendWrites(Mem(Recover(d).nextSeq, today, 0), clk, RecoveryEntry(Recover(d))) else [];
            && ApplyAll(d, OpenWrites(d, today, clk)) == ApplyAll(ApplyWrite(d, OpenFile(today)), more)
            && Puts(OpenWrites(d, today, clk)) == Puts(more)
  {
    var r := Recover(d);
    var more := if r.fromScan then AppendWrites(Mem(r.nextSeq, today, 0), clk, RecoveryEntry(r)) else [];
    hide Recover, AppendWrites;
    assert OpenWrites(d, today, clk) == [OpenFile(today)] + more;
    hide ApplyAll, Puts, OpenWrites;
    PutsOne(OpenFile(today));
    ApplyOne(d, OpenFile(today));
    ApplyAllConcat(d, [OpenFile(today)], more);
    PutsConcat([OpenFile(today)], more);
    assert [] + Puts(more) == Puts(more);
  }

  lemma {:induction false} OpenSafe(d: Disk, h: seq<Record>, today: Day, clk: Clock)
    requires DiskOk(d, h) && IsLast(today, d.files.Keys) && today <= clk.day
    ensures Recover(d).nextSeq == |h| + 1
    ensures var ws := OpenWrites(d, today, clk);
            && DiskOk(ApplyAll(d, ws), h + Puts(ws))
            && Running(ApplyAll(d, ws), h + Puts(ws), OpenMem(d, today, clk))
            && Grows(d, ApplyAll(d, ws), Puts(ws))
  {
    RecoveryExact(d, h);
    OpenNumbered(d, h, today);
    OpenFileKeeps(d, h, today);
    OpenSplits(d, today, clk);
    var d1 := ApplyWrite(d, OpenFile(today));
    NoWrites(d1);
    assert h + [] == h;
    if Recover(d).fromScan {
      RecoveryLogged(d, h, today, clk);
    }
    hide Numbered, CaughtUp, ApplyWrite, AppendWrites, AppendMem, Recover, IsLast, ApplyAll, Puts, OpenWrites;
    var ws := OpenWrites(d, today, clk);
    GrowsThrough(d, d1, ApplyAll(d, ws), Puts(ws));
  }

  /** The one point inside `open` at which a crash does damage: the file is new, and the line that
      says what the scan recovered is not yet written. */
  ghost predicate Harmless(d: Disk, today: Day, done: nat) {
    done != 1 || !Recover(d).fromScan || today in d.files
  }

  /** A crash after the first write of an append repairs what an empty new file may have broken. */
  lemma {:induction false} AppendPrefix(d: Disk, h: seq<Record>, mem: Mem, clk: Clock, e: Entry, k: nat)
    requires Numbered(d, h) && Running(d, h, mem) && mem.day <= clk.day && 0 < k <= |AppendWrites(mem, clk, e)|
    ensures var ws := AppendWrites(mem, clk, e)[..k];
            && DiskOk(ApplyAll(d, ws), h + Puts(ws))
            && Grows(d, ApplyAll(d, ws), Puts(ws))
  {
    hide Numbered, CaughtUp, AllSafe, Running, AppendWrites, AppendMem, ApplyAll, Puts, Grows, Repairs;
    AppendSafe(d, h, mem, clk, e);
    var ws := AppendWrites(mem, clk, e);
    SafePrefix(d, h, ws, k);
    AllSafeKeeps(d, h, ws[..k]);
    AllSafeGrows(d, h, ws[..k]);
  }

  /** Opening and then, perhaps, logging. */
  lemma {:induction false} AfterFirst(d: Disk, first: Write, more: seq<Write>, k: nat)
    requires k <= |more| && !first.PutLine?
    ensures var ws := ([first] + more)[..k + 1];
            ApplyAll(d, ws) == ApplyAll(ApplyWrite(d, first), more[..k]) && Puts(ws) == Puts(more[..k])
  {
    assert ([first] + more)[..k + 1] == [first] + more[..k];
    PutsOne(first);
    ApplyOne(d, first);
    ApplyAllConcat(d, [first], more[..k]);
    PutsConcat([first], more[..k]);
  }

  lemma {:induction false} NoWrites(d: Disk)
    ensures ApplyAll(d, []) == d && Puts([]) == []
  {
  }

  lemma GrowsThrough(d: Disk, d1: Disk, d2: Disk, recs: seq<Record>)
    requires Grows(d, d1, []) && Grows(d1, d2, recs)
    ensures Grows(d, d2, recs)
  {
    hide Logged;
    assert Logged(d.files) + [] == Logged(d.files);
  }

  /** At every other point a crash inside `open` leaves a sound disk. */
  lemma {:induction false} CrashInOpenSafe(d: Disk, h: seq<Record>, today: Day, clk: Clock, done: nat)
    requires DiskOk(d, h) && IsLast(today, d.files.Keys) && today <= clk.day
    requires done <= |OpenWrites(d, today, clk)| && Harmless(d, today, done)
    ensures var ws := OpenWrites(d, today, clk)[..done];
            && DiskOk(ApplyAll(d, ws), h + Puts(ws))
            && Grows(d, ApplyAll(d, ws), Puts(ws))
  {
    hide Numbered, CaughtUp, Logged, ApplyWrite, AppendWrites, AppendMem, Recover, IsLast;
    var r := Recover(d);
    var open := OpenFile(today);
    var d1 := ApplyWrite(d, open);
    var mem, e := Mem(r.nextSeq, today, 0), RecoveryEntry(r);
    var more := if r.fromScan then AppendWrites(mem, clk, e) else [];
    assert OpenWrites(d, today, clk) == [open] + more;
    assert h + [] == h;
    hide OpenWrites, ApplyAll, Puts, Grows;
    OpenNumbered(d, h, today);
    NoWrites(d);
    NoWrites(d1);
    if done == 0 {
      assert OpenWrites(d, today, clk)[..0] == [];
      NothingGrows(d);
    } else {
      AfterFirst(d, open, more, done - 1);
      if done == 1 {
        assert more[..0] == [];
        OpenFileKeeps(d, h, today);
      } else {
        OpenFileKeeps(d, h, today);
        AppendPrefix(d1, h, mem, clk, e, done - 1);
        GrowsThrough(d, d1, ApplyAll(d1, more[..done - 1]), Puts(more[..done - 1]));
      }
    }
  }

  lemma NothingGrows(d: Disk)
    ensures Grows(d, d, [])
  {
  }

  // --------------------------------------------------------------------- runs ---

  /** The disk, the process if one is up, and every record that ever reached the disk. */
  datatype Sys = Sys(disk: Disk, mem: Option<Mem>, history: seq<Record>)

  const FRESH := Sys(EMPTY_DISK, None, [])

  datatype Step =
    | DoAppend(clk: Clock, entry: Entry)
    | DoFlush
    | Crash
    | CrashInAppend(clk: Clock, entry: Entry, done: nat)
    | DoOpen(today: Day, clk: Clock)
    | CrashInOpen(today: Day, clk: Clock, done: nat)
    | DeleteOldest(day: Day)

  /** Days never go backwards, one process at a time, and only whole oldest files are deleted. */
  ghost predicate Enabled(s: Sys, step: Step) {
    match step
    case DoAppend(clk, _) => s.mem.Some? && s.mem.value.day <= clk.day
    case DoFlush => s.mem.Some?
    case Crash => s.mem.Some?
    case CrashInAppend(clk, e, done) =>
      s.mem.Some? && s.mem.value.day <= clk.day && done <= |AppendWrites(s.mem.value, clk, e)|
    case DoOpen(today, clk) =>
      s.mem.None? && IsLast(today, s.disk.files.Keys) && today <= clk.day
    case CrashInOpen(today, clk, done) =>
      && s.mem.None? && IsLast(today, s.disk.files.Keys) && today <= clk.day
      && done <= |OpenWrites(s.disk, today, clk)| && Harmless(s.disk, today, done)
    case DeleteOldest(day) => SafeWrite(s.disk, s.history, DeleteFile(day))
  }

  ghost function Perform(s: Sys, ws: seq<Write>, mem: Option<Mem>): Sys {
    Sys(ApplyAll(s.disk, ws), mem, s.history + Puts(ws))
  }

  /** A step that is not enabled does not happen. */
  ghost function Next(s: Sys, step: Step): Sys
  {
    if !Enabled(s, step) then s else
    match step
    case DoAppend(clk, e) =>
      Perform(s, AppendWrites(s.mem.value, clk, e), Some(AppendMem(s.mem.value, clk, e)))
    case DoFlush =>
      Perform(s, [PutMarker(s.mem.value.nextSeq)], Some(s.mem.value.(unsynced := 0)))
    case Crash => s.(mem := None)
    case CrashInAppend(clk, e, done) =>
      Perform(s, AppendWrites(s.mem.value, clk, e)[..done], None)
    case DoOpen(today, clk) =>
      Perform(s, OpenWrites(s.disk, today, clk), Some(OpenMem(s.disk, today, clk)))
    case CrashInOpen(today, clk, done) => Perform(s, OpenWrites(s.disk, today, clk)[..done], None)
    case DeleteOldest(day) => Perform(s, [DeleteFile(day)], s.mem)
  }

  ghost predicate SysOk(s: Sys) {
    DiskOk(s.disk, s.history) && (s.mem.Some? ==> Running(s.disk, s.history, s.mem.value))
  }

  lemma StepKeeps(s: Sys, step: Step)
    requires SysOk(s)
    ensures SysOk(Next(s, step))
    ensures s.history <= Next(s, step).history
    ensures !step.DeleteOldest? ==>
              |Logged(Next(s, step).disk.files)| - |Logged(s.disk.files)|
              == |Next(s, step).history| - |s.history|
  {
    if !Enabled(s, step) {
      return;
    }
    match step {
      case DoAppend(clk, e) =>
        var ws := AppendWrites(s.mem.value, clk, e);
        AppendSafe(s.disk, s.history, s.mem.value, clk, e);
        AllSafeKeeps(s.disk, s.history, ws);
        AllSafeGrows(s.disk, s.history, ws);
      case DoFlush =>
        OneWrite(s, PutMarker(s.mem.value.nextSeq));
      case Crash =>
      case CrashInAppend(clk, e, done) =>
        AppendSafe(s.disk, s.history, s.mem.value, clk, e);
        PrefixKeeps(s.disk, s.history, AppendWrites(s.mem.value, clk, e), done);
      case DoOpen(today, clk) =>
        OpenSafe(s.disk, s.history, today, clk);
      case CrashInOpen(today, clk, done) =>
        CrashInOpenSafe(s.disk, s.history, today, clk, done);
      case DeleteOldest(day) =>
        OneWrite(s, DeleteFile(day));
    }
  }

  lemma OneWrite(s: Sys, w: Write)
    requires SysOk(s) && SafeWrite(s.disk, s.history, w) && !w.PutLine?
    ensures ApplyAll(s.disk, [w]) == ApplyWrite(s.disk, w) && s.history + Puts([w]) == s.history
    ensures DiskOk(ApplyWrite(s.disk, w), s.history)
    ensures !w.DeleteFile? ==> Grows(s.disk, ApplyWrite(s.disk, w), [])
  {
    PutsOne(w);
    assert [w][..0] == [] && s.history + [] == s.history;
    SafeWriteKeeps(s.disk, s.history, w);
  }

  ghost function RunOf(steps: seq<Step>): Sys {
    if steps == [] then FRESH
    else Next(RunOf(steps[..|steps| - 1]), steps[|steps| - 1])
  }

  lemma {:induction false} RunKeeps(steps: seq<Step>)
    ensures SysOk(RunOf(steps))
    decreases |steps|
  {
    if steps != [] {
      RunKeeps(steps[..|steps| - 1]);
      StepKeeps(RunOf(steps[..|steps| - 1]), steps[|steps| - 1]);
    }
  }

  lemma {:induction false} NothingDeleted(steps: seq<Step>)
    requires forall i :: 0 <= i < |steps| ==> !steps[i].DeleteOldest?
    ensures |Logged(RunOf(steps).disk.files)| == |RunOf(steps).history|
    decreases |steps|
  {
    if steps != [] {
      var n := |steps| - 1;
      NothingDeleted(steps[..n]);
      RunKeeps(steps[..n]);
      StepKeeps(RunOf(steps[..n]), steps[n]);
    }
  }

  /** Over every run of appends, rotations, flushes, crashes (also inside an append, a rotation or, but for
      one point, an `open`), reopens and deletions of oldest files: the retained numbers are consecutive
      and end at the last one ever logged, they start at FIRST_SEQ if nothing was deleted, and both the
      live counter and the one recovered from disk are one past the last. */
  lemma {:induction false} RetainedNumbers(steps: seq<Step>)
    ensures var s := RunOf(steps);
            var all := Logged(s.disk.files);
            && |all| <= |s.history|
            && (forall i :: 0 <= i < |s.history| ==> s.history[i].seqNo == FIRST_SEQ + i)
            && (forall i :: 0 <= i < |all| ==> all[i].seqNo == |s.history| - |all| + i + FIRST_SEQ)
            && ((forall i :: 0 <= i < |steps| ==> !steps[i].DeleteOldest?) ==> all == s.history)
            && Recover(s.disk).nextSeq == |s.history| + FIRST_SEQ
            && (s.mem.Some? ==> s.mem.value.nextSeq == |s.history| + FIRST_SEQ)
  {
    RunKeeps(steps);
    var s := RunOf(steps);
    RecoveryExact(s.disk, s.history);
    if forall i :: 0 <= i < |steps| ==> !steps[i].DeleteOldest? {
      NothingDeleted(steps);
    }
  }

  // ----------------------------------------------------- outside the fault model ---

  /** A crash inside `open`, after today's file is created and before the recovery line is
      written, keeps the counter recoverable exactly when there was nothing to recover from a
      scan or today's file already existed. */
  lemma CrashInOpenExact(d: Disk, h: seq<Record>, today: Day)
    requires DiskOk(d, h) && IsLast(today, d.files.Keys)
    ensures Recover(ApplyWrite(d, OpenFile(today))).nextSeq == |h| + 1
       <==> !Recover(d).fromScan || today in d.files
  {
    var d1 := ApplyWrite(d, OpenFile(today));
    LoggedOpen(d, today);
    LoggedNewest(d.files, today, FileAt(d, today));
    RecoveryExact(d, h);
    RecoveryExact(d1, h);
    if d.files.Keys != {} {
      FromFilesExact(d, h);
    }
  }

  /** A log of one record and no watermark yet. */
  lemma OneFile(day: Day, rec: Record)
    requires rec.seqNo == FIRST_SEQ
    ensures var d := Disk(map[day := DayFile([Whole(rec)], None)], 0);
            Logged(d.files) == [rec] && DiskOk(d, [rec])
  {
    var f := DayFile([Whole(rec)], None);
    var none: map<Day, DayFile> := map[];
    var d := Disk(map[day := f], 0);
    assert d.files == none[day := f];
    LoggedNewest(none, day, f);
    assert [Whole(rec)][..0] == [] && Parsed([]) == [];
    assert none - {day} == none;
    assert [rec] == [rec][0..];
  }

  /** The failing case on one record: number 1 is issued a second time. */
  lemma CrashInOpenReissues(rec: Record)
    requires rec.seqNo == FIRST_SEQ
    ensures var d := Disk(map[1 := DayFile([Whole(rec)], None)], 0);
            && DiskOk(d, [rec])
            && Recover(d).nextSeq == 2
            && Recover(ApplyWrite(d, OpenFile(2))).nextSeq == rec.seqNo
  {
    var d := Disk(map[1 := DayFile([Whole(rec)], None)], 0);
    OneFile(1, rec);
    RecoveryExact(d, [rec]);
    LoggedNewest(d.files, 2, EMPTY_FILE);
    assert FromFiles(ApplyWrite(d, OpenFile(2))) == 0;
  }

  /** A partial write leaves an unterminated fragment at the end of a file. */
  function Tear(d: Disk, day: Day, fragment: Line): Disk {
    d.(files := d.files[day := FileAt(d, day).(tail := Some(fragment))])
  }

  /** What a write of the next record can leave behind: part of it, perhaps cut inside a character, or
      all of it but the line end. */
  predicate IsFragment(h: seq<Record>, fragment: Line) {
    fragment.Garbage? || fragment.NotText? || (fragment.Whole? && fragment.rec.seqNo == |h| + 1)
  }

  /** What the fragment counts for as long as nothing is written after it. */
  function Salvaged(fragment: Line): seq<Record> {
    if fragment.Whole? then [fragment.rec] else []
  }

  /** After a torn write recovery works exactly if what is left is text. It goes on from whatever can be
      read, and reports a torn line exactly if that is nothing. */
  lemma TornRecovery(d: Disk, h: seq<Record>, torn: Day, fragment: Line)
    requires DiskOk(d, h) && torn in d.files && IsLast(torn, d.files.Keys) && IsFragment(h, fragment)
    ensures var d1 := Tear(d, torn, fragment);
            && Logged(d1.files) == Logged(d.files) + Salvaged(fragment)
            && (TryRecover(d1).Ok? <==> !fragment.NotText?)
            && (TryRecover(d1).Ok? ==>
                  && TryRecover(d1).value.nextSeq == |h| + |Salvaged(fragment)| + 1
                  && (TryRecover(d1).value.tornLine <==> fragment.Garbage?))
  {
    hide Logged, Parsed;
    var f := d.files[torn];
    var f1 := f.(tail := Some(fragment));
    LoggedNewest(d.files, torn, f);
    LoggedNewest(d.files, torn, f1);
    assert d.files[torn := f] == d.files;
    RecoveryExact(d, h);
    FromFilesExact(d, h);
    assert f1.Content()[|f.lines|] == fragment;
  }

  /** If what is left is not text, no process opens the log again. Otherwise the next one opens a file and
      writes its first line. In another file that line, and the fragment's own record if it was one, are
      kept. In the same file both are lost, and until the watermark moves a further recovery hands out
      the numbers after the last intact line again. */
  lemma TornTailExact(d: Disk, h: seq<Record>, torn: Day, fragment: Line, today: Day, rec: Record)
    requires DiskOk(d, h) && torn in d.files && IsLast(torn, d.files.Keys) && torn <= today
    requires IsFragment(h, fragment)
    requires TryRecover(Tear(d, torn, fragment)).Ok? ==> rec.seqNo == TryRecover(Tear(d, torn, fragment)).value.nextSeq
    ensures TryRecover(Tear(d, torn, fragment)).Ok? <==> !fragment.NotText?
    ensures !fragment.NotText? ==>
              var d2 := ApplyAll(Tear(d, torn, fragment), [OpenFile(today), PutLine(today, rec)]);
              && (Logged(d2.files)
                  == if today != torn then Logged(d.files) + Salvaged(fragment) + [rec] else Logged(d.files))
              && Recover(d2).nextSeq == (if today != torn then rec.seqNo + 1 else |h| + 1)
              && (Recover(d2).nextSeq > rec.seqNo <==> today != torn)
  {
    hide Logged, Parsed, ScanNext, TornEnd, Newest, DiskOk, Recover, CanRecover;
    var d1 := Tear(d, torn, fragment);
    TornRecovery(d, h, torn, fragment);
    if !fragment.NotText? {
      var open, put := OpenFile(today), PutLine(today, rec);
      var d1' := ApplyWrite(d1, open);
      var d2 := ApplyWrite(d1', put);
      TwoWrites(d1, open, put);
      LoggedOpen(d1, today);
      LoggedPut(d1', today, rec);
      if today == torn && fragment.Whole? {
        SameEnds(Logged(d.files), fragment.rec, Logged(d2.files), fragment.rec);
      }
      MergedRecovery(d, h, torn, fragment, today, rec);
    }
  }

  lemma MergedRecovery(d: Disk, h: seq<Record>, torn: Day, fragment: Line, today: Day, rec: Record)
    requires DiskOk(d, h) && torn in d.files && IsLast(torn, d.files.Keys) && torn <= today
    requires IsFragment(h, fragment) && !fragment.NotText? && rec.seqNo == |h| + |Salvaged(fragment)| + 1
    ensures var d2 := ApplyWrite(ApplyWrite(Tear(d, torn, fragment), OpenFile(today)), PutLine(today, rec));
            Recover(d2).nextSeq == if today != torn then rec.seqNo + 1 else |h| + 1
  {
    hide Logged, Parsed, ScanNext, TornEnd;
    var d1' := ApplyWrite(Tear(d, torn, fragment), OpenFile(today));
    var f := FileAt(d1', today);
    var f2 := AddLine(f, rec);
    LoggedNewest(d1'.files, today, f2);
    ScanAppend(f.lines, Merged(f.tail, rec));
    if today == torn {
      RecoveryExact(d, h);
      FromFilesExact(d, h);
    } else {
      assert f == EMPTY_FILE;
      ScanNothing();
    }
  }

  lemma {:induction false} TwoWrites(d: Disk, a: Write, b: Write)
    ensures ApplyAll(d, [a, b]) == ApplyWrite(ApplyWrite(d, a), b)
  {
    assert [a, b][..1] == [a] && [a][..0] == [];
    assert ApplyAll(d, [a]) == ApplyWrite(d, a);
  }

  // ------------------------------------------------------------------- replay ---

  /** A sound log can be read. */
  lemma CleanReads(files: map<Day, DayFile>, cursor: nat, max: nat)
    requires Clean(files)
    ensures forall k :: k in files ==> files[k].Legible()
    ensures TryReplay(files, cursor, max) == Ok(Replay(files, cursor, max))
  {
    hide AllLines, Replay, TextPrefix;
    AllLinesText(files);
  }

  /** In a consecutive stretch, what lies after the cursor is a suffix. */
  lemma {:induction false} AfterConsecutive(recs: seq<Record>, first: nat, cursor: nat)
    requires forall i :: 0 <= i < |recs| ==> recs[i].seqNo == first + i
    ensures var from := if cursor < first then 0 else MinNat(cursor + 1 - first, |recs|);
            After(recs, cursor) == recs[from..]
    decreases |recs|
  {
    hide After;
    AfterStep(recs, cursor);
    if recs != [] {
      var n := |recs| - 1;
      var init, last := recs[..n], recs[n];
      AfterConsecutive(init, first, cursor);
      var from := if cursor < first then 0 else MinNat(cursor + 1 - first, n);
      assert recs == init + [last];
      assert init[from..] + [last] == recs[from..];
    }
  }

  lemma {:induction false} AfterStep(recs: seq<Record>, cursor: nat)
    ensures After(recs, cursor)
         == if recs == [] then []
            else
              var n := |recs| - 1;
              After(recs[..n], cursor) + if recs[n].seqNo > cursor then [recs[n]] else []
  {
  }

  function MinNat(a: nat, b: nat): nat {
    if a < b then a else b
  }

  function Missed(h: seq<Record>, cursor: nat): seq<Record> {
    h[MinNat(cursor, |h|)..]
  }

  /** A replay is served exactly when the cursor reaches the oldest retained record and no more
      than `max` retained records follow it. What is served is then everything ever logged after
      the cursor, in order, unless nothing at all is retained while something was missed. */
  lemma ReplayExact(d: Disk, h: seq<Record>, cursor: nat, max: nat)
    requires DiskOk(d, h)
    ensures var all := Logged(d.files);
            var r := Replay(d.files, cursor, max);
            && (r.Some? <==>
                  if all == [] then true
                  else all[0].seqNo <= cursor + 1 && |Missed(h, cursor)| <= max)
            && (r.Some? ==> (r.value == Missed(h, cursor) <==> all != [] || Missed(h, cursor) == []))
  {
    hide Logged, After, Clean, CaughtUp;
    var all := Logged(d.files);
    var gap := |h| - |all|;
    assert forall i :: 0 <= i < |all| ==> all[i] == h[gap + i];
    AfterConsecutive(all, gap + 1, cursor);
  }
}
