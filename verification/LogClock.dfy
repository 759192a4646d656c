/** What an append does when the day it was stamped with is not the newest one: the day is read before
    the lock is taken, so two appends around midnight can reach the log in the other order. */
module LogClock {
  import opened Wrappers
  import opened LogModel
  import opened LogSafety

  predicate InOrder(recs: seq<Record>) {
    forall i, j :: 0 <= i < j < |recs| ==> recs[i].seqNo < recs[j].seqNo
  }

  // ----------------------------------------------------------- the writes at once ---

  lemma {:induction false} FiveWrites(d: Disk, a: Write, b: Write, c: Write, e: Write, last: seq<Write>)
    requires |last| <= 1
    ensures var four := ApplyWrite(ApplyWrite(ApplyWrite(ApplyWrite(d, a), b), c), e);
            ApplyAll(d, [a, b, c, e] + last) == if last == [] then four else ApplyWrite(four, last[0])
  {
    TwoWrites(d, a, b);
    var d2 := ApplyAll(d, [a, b]);
    TwoWrites(d2, c, e);
    assert [a, b] + [c, e] == [a, b, c, e];
    ApplyAllConcat(d, [a, b], [c, e]);
    if last == [] {
      assert [a, b, c, e] + last == [a, b, c, e];
    } else {
      assert ([a, b, c, e] + last)[..4] == [a, b, c, e];
    }
  }

  /** The file of that day once the rotation record and the appended one are in it. */
  function FileAfter(d: Disk, mem: Mem, clk: Clock, e: Entry): DayFile {
    AddLine(AddLine(FileAt(d, clk.day), RotationRecord(mem, clk)), Stamp(mem.nextSeq + 1, clk.ms, e))
  }

  lemma {:induction false} RotatingAppend(d: Disk, mem: Mem, clk: Clock, e: Entry)
    requires clk.day != mem.day
    ensures ApplyAll(d, AppendWrites(mem, clk, e))
         == Disk(d.files[clk.day := FileAfter(d, mem, clk, e)], if clk.due then mem.nextSeq + 2 else mem.nextSeq)
    ensures AppendMem(mem, clk, e).nextSeq == mem.nextSeq + 2
  {
    var mark, open := PutMarker(mem.nextSeq), OpenFile(clk.day);
    var rot := PutLine(clk.day, RotationRecord(mem, clk));
    var put := PutLine(clk.day, Stamp(mem.nextSeq + 1, clk.ms, e));
    var last := if clk.due then [PutMarker(mem.nextSeq + 2)] else [];
    FiveWrites(d, mark, open, rot, put, last);
    assert AppendWrites(mem, clk, e) == [mark, open, rot, put] + last;
    assert d.files[clk.day := FileAt(d, clk.day)]
                  [clk.day := AddLine(FileAt(d, clk.day), RotationRecord(mem, clk))]
                  [clk.day := FileAfter(d, mem, clk, e)] == d.files[clk.day := FileAfter(d, mem, clk, e)];
  }

  // -------------------------------------------------------------------- recovery ---

  lemma {:induction false} ForwardSafe(d: Disk, h: seq<Record>, mem: Mem, clk: Clock, e: Entry)
    requires DiskOk(d, h) && Running(d, h, mem) && mem.day <= clk.day
    ensures var ws := AppendWrites(mem, clk, e);
            && DiskOk(ApplyAll(d, ws), h + Puts(ws))
            && Running(ApplyAll(d, ws), h + Puts(ws), AppendMem(mem, clk, e))
  {
    hide Numbered, CaughtUp, AllSafe, AppendWrites, AppendMem, ApplyAll, Puts, Running;
    AppendSafe(d, h, mem, clk, e);
    AllSafeKeeps(d, h, AppendWrites(mem, clk, e));
  }

  /** After an append to a sound log the counter can be recovered if and only if the append was not
      stamped with an earlier day, or it was due for a sync. */
  lemma {:induction false} AppendRecovers(d: Disk, h: seq<Record>, mem: Mem, clk: Clock, e: Entry)
    requires DiskOk(d, h) && Running(d, h, mem)
    ensures Recover(ApplyAll(d, AppendWrites(mem, clk, e))).nextSeq == AppendMem(mem, clk, e).nextSeq
       <==> mem.day <= clk.day || clk.due
  {
    hide AppendWrites, AppendMem, ApplyAll, Puts;
    if mem.day <= clk.day {
      ForwardSafe(d, h, mem, clk, e);
      var ws := AppendWrites(mem, clk, e);
      RecoveryExact(ApplyAll(d, ws), h + Puts(ws));
    } else {
      RotatingAppend(d, mem, clk, e);
      var d' := ApplyAll(d, AppendWrites(mem, clk, e));
      assert Newest(d.files.Keys) == mem.day;
      assert mem.day in d'.files && IsLast(mem.day, d'.files.Keys);
      assert Newest(d'.files.Keys) == mem.day;
      FromFilesExact(d, h);
      assert FromFiles(d') == FromFiles(d);
    }
  }

  // ------------------------------------------------------------------------ order ---

  function Low(files: map<Day, DayFile>, day: Day): map<Day, DayFile> {
    map k | k in files && k <= day :: files[k]
  }

  function High(files: map<Day, DayFile>, day: Day): map<Day, DayFile> {
    map k | k in files && day < k :: files[k]
  }

  /** Taking out the newest file takes it out of the later half. */
  lemma WithoutNewest(files: map<Day, DayFile>, m: Day, day: Day)
    requires m in files && IsLast(m, files.Keys) && day < m
    ensures Low(files, day) == Low(files - {m}, day)
    ensures m in High(files, day) && High(files, day)[m] == files[m]
    ensures High(files, day) - {m} == High(files - {m}, day)
    ensures Newest(files.Keys) == m && Newest(High(files, day).Keys) == m
    ensures |files - {m}| < |files|
  {
    assert (files - {m}).Keys == files.Keys - {m};
    assert m in High(files, day).Keys && IsLast(m, High(files, day).Keys);
  }

  lemma NoneAbove(files: map<Day, DayFile>, day: Day)
    requires IsLast(day, files.Keys)
    ensures Low(files, day) == files && High(files, day).Keys == {}
  {
  }

  lemma {:induction false} LoggedSplit(files: map<Day, DayFile>, day: Day)
    ensures Logged(files) == Logged(Low(files, day)) + Logged(High(files, day))
    decreases |files|
  {
    hide Parsed, Logged, Low, High;
    if IsLast(day, files.Keys) {
      NoneAbove(files, day);
      LoggedStep(High(files, day));
    } else {
      var m := Newest(files.Keys);
      WithoutNewest(files, m, day);
      LoggedSplit(files - {m}, day);
      LoggedStep(files);
      LoggedStep(High(files, day));
    }
  }

  lemma {:induction false} LoggedNothing(files: map<Day, DayFile>)
    requires Clean(files)
    ensures Logged(files) == [] <==> forall k :: k in files ==> files[k].lines == []
    decreases |files|
  {
    hide Logged;
    LoggedStep(files);
    if files.Keys != {} {
      var m := Newest(files.Keys);
      var rest := files - {m};
      assert rest.Keys == files.Keys - {m};
      assert forall k :: k in files <==> k in rest || k == m;
      LoggedNothing(rest);
      ParsedWhole(files[m].lines);
    }
  }

  /** Two lines put into a file that is not the newest land before what the newer files hold. */
  lemma {:induction false} LandsBetween(d: Disk, mem: Mem, clk: Clock, e: Entry)
    requires Clean(d.files) && clk.day != mem.day
    ensures var d' := ApplyAll(d, AppendWrites(mem, clk, e));
            var low, high := Low(d.files, clk.day), High(d.files, clk.day);
            && Logged(d.files) == Logged(low) + Logged(high)
            && Logged(d'.files)
               == Logged(low) + [RotationRecord(mem, clk), Stamp(mem.nextSeq + 1, clk.ms, e)] + Logged(high)
  {
    hide AppendWrites, AppendMem, ApplyAll, Logged, Newest, Parsed;
    var c := clk.day;
    RotatingAppend(d, mem, clk, e);
    var d' := ApplyAll(d, AppendWrites(mem, clk, e));
    var low, high := Low(d.files, c), High(d.files, c);
    LoggedSplit(d.files, c);
    LoggedSplit(d'.files, c);
    var rot, rec := RotationRecord(mem, clk), Stamp(mem.nextSeq + 1, clk.ms, e);
    var one := Disk(low, 0);
    var two := ApplyWrite(one, PutLine(c, rot));
    LoggedPut(one, c, rot);
    LoggedPut(two, c, rec);
    assert FileAt(one, c) == FileAt(d, c);
    assert Low(d'.files, c) == ApplyWrite(two, PutLine(c, rec)).files;
    assert High(d'.files, c) == high;
    assert Logged(low) + [rot] + [rec] == Logged(low) + [rot, rec];
  }

  lemma {:induction false} ConsecutiveInOrder(recs: seq<Record>, first: nat)
    requires forall i :: 0 <= i < |recs| ==> recs[i].seqNo == first + i
    ensures InOrder(recs)
  {
  }

  /** Two numbers beyond all others, put in front of a rest. */
  lemma PutBetween(a: seq<Record>, x: Record, y: Record, b: seq<Record>, first: nat)
    requires forall i :: 0 <= i < |a + b| ==> (a + b)[i].seqNo == first + i
    requires x.seqNo == first + |a + b| && y.seqNo == x.seqNo + 1
    ensures InOrder(a + [x, y] + b) <==> b == []
  {
    var all := a + [x, y] + b;
    if b == [] {
      assert forall i :: 0 <= i < |all| ==> all[i].seqNo == first + i by {
        assert all == a + b + [x, y];
      }
    } else {
      assert (a + b)[|a|] == b[0];
      assert all[|a| + 1] == y && all[|a| + 2] == b[0];
    }
  }

  lemma RetainedConsecutive(d: Disk, h: seq<Record>)
    requires DiskOk(d, h)
    ensures var all := Logged(d.files);
            |all| <= |h| && forall i :: 0 <= i < |all| ==> all[i].seqNo == |h| - |all| + FIRST_SEQ + i
  {
    hide Logged;
    var all := Logged(d.files);
    assert forall i :: 0 <= i < |all| ==> all[i] == h[|h| - |all| + i];
  }

  /** After an append to a sound log, file-name order is still number order if and only if the append was
      not stamped with an earlier day, or no file after that day holds a record. */
  lemma {:induction false} AppendInOrder(d: Disk, h: seq<Record>, mem: Mem, clk: Clock, e: Entry)
    requires DiskOk(d, h) && Running(d, h, mem)
    ensures InOrder(Logged(ApplyAll(d, AppendWrites(mem, clk, e)).files))
       <==> mem.day <= clk.day || forall k :: k in d.files && clk.day < k ==> d.files[k].lines == []
  {
    hide AppendWrites, AppendMem, ApplyAll, Puts, Logged, InOrder;
    var d' := ApplyAll(d, AppendWrites(mem, clk, e));
    if mem.day <= clk.day {
      ForwardSafe(d, h, mem, clk, e);
      var h' := h + Puts(AppendWrites(mem, clk, e));
      RetainedConsecutive(d', h');
      ConsecutiveInOrder(Logged(d'.files), |h'| - |Logged(d'.files)| + FIRST_SEQ);
    } else {
      var low, high := Low(d.files, clk.day), High(d.files, clk.day);
      var rot, rec := RotationRecord(mem, clk), Stamp(mem.nextSeq + 1, clk.ms, e);
      RetainedConsecutive(d, h);
      assert Clean(high) && mem.nextSeq == |h| + 1;
      assert forall k :: k in high <==> k in d.files && clk.day < k;
      assert forall k :: k in high ==> high[k] == d.files[k];
      LandsBetween(d, mem, clk, e);
      LoggedNothing(high);
      PutBetween(Logged(low), rot, rec, Logged(high), |h| - |Logged(d.files)| + FIRST_SEQ);
    }
  }

  /** Both fail in the run that the race can produce: a process started on day 1 appends once on day 2, and an
      append stamped on day 1 takes the lock after that. Numbers 3 and 4 go in front of 1 and 2, the next
      number is 5, and recovery gives 3 again. */
  lemma EarlierDayFails(start: Clock, late: Clock, early: Clock, e: Entry, e': Entry)
    requires start.day == early.day == 1 && late.day == 2 && !late.due && !early.due
    ensures var s := RunOf([DoOpen(1, start), DoAppend(late, e)]);
            s.mem.Some? &&
            var d' := ApplyAll(s.disk, AppendWrites(s.mem.value, early, e'));
            && Next(RunOf([DoOpen(1, start)]), DoAppend(late, e)) == s && |s.history| == 2
            && AppendMem(s.mem.value, early, e').nextSeq == 5 && Recover(d').nextSeq == 3
            && !InOrder(Logged(d'.files))
  {
    hide AppendWrites, AppendMem, ApplyAll, Puts, Logged, OpenWrites, OpenMem, Recover, InOrder;
    var one, two := [DoOpen(1, start)], [DoOpen(1, start), DoAppend(late, e)];
    assert one[..0] == [] && two[..1] == one;
    assert RunOf([]) == FRESH;
    RunSteps(one);
    RunSteps(two);
    FreshStart(start);
    RunKeeps(two);
    var s1, s := RunOf(one), RunOf(two);
    assert s1 == Next(FRESH, DoOpen(1, start));
    Midnight(s1, start, late, e);
    var mem := s.mem.value;
    AppendRecovers(s.disk, s.history, mem, early, e');
    AppendInOrder(s.disk, s.history, mem, early, e');
    BackAgain(s, early, e');
  }

  lemma {:induction false} RunSteps(steps: seq<Step>)
    requires steps != []
    ensures RunOf(steps) == Next(RunOf(steps[..|steps| - 1]), steps[|steps| - 1])
  {
  }

  lemma FreshStart(clk: Clock)
    ensures var s := Next(FRESH, DoOpen(clk.day, clk));
            && s.mem == Some(Mem(FIRST_SEQ, clk.day, 0)) && s.history == []
            && s.disk == Disk(map[clk.day := EMPTY_FILE], 0)
  {
    assert Recover(EMPTY_DISK) == Recovery(FIRST_SEQ, false, false);
    var open := OpenFile(clk.day);
    assert OpenWrites(EMPTY_DISK, clk.day, clk) == [open];
    PutsOne(open);
    ApplyOne(EMPTY_DISK, open);
  }

  lemma Midnight(s: Sys, start: Clock, late: Clock, e: Entry)
    requires s.mem == Some(Mem(FIRST_SEQ, 1, 0)) && s.history == [] && s.disk == Disk(map[1 := EMPTY_FILE], 0)
    requires late.day == 2 && !late.due
    ensures var s' := Next(s, DoAppend(late, e));
            && |s'.history| == 2 && s'.mem.Some? && s'.mem.value.day == 2 && s'.mem.value.nextSeq == 3
            && s'.disk.files.Keys == {1, 2} && |s'.disk.files[2].lines| == 2
  {
    RotatingAppend(s.disk, s.mem.value, late, e);
    AppendPuts(s.mem.value, late, e);
  }

  lemma BackAgain(s: Sys, early: Clock, e: Entry)
    requires SysOk(s) && s.mem.Some? && s.mem.value.day == 2 && s.mem.value.nextSeq == 3 && |s.history| == 2
    requires s.disk.files.Keys == {1, 2} && early.day == 1 && !early.due
    ensures AppendMem(s.mem.value, early, e).nextSeq == 5
    ensures Recover(ApplyAll(s.disk, AppendWrites(s.mem.value, early, e))).nextSeq == 3
  {
    hide AppendWrites, AppendMem, ApplyAll, Logged;
    var d := s.disk;
    RotatingAppend(d, s.mem.value, early, e);
    var d' := ApplyAll(d, AppendWrites(s.mem.value, early, e));
    assert d'.files.Keys == {1, 2};
    assert Newest(d.files.Keys) == 2 && Newest(d'.files.Keys) == 2;
    FromFilesExact(d, s.history);
    assert FromFiles(d') == FromFiles(d);
  }

  // ------------------------------------------------------------ any clock, whole runs ---

  /** Appends and openings at any clock reading, each perhaps cut short by a crash after `done` writes, and
      files removed at will. */
  datatype AnyStep =
    | AppendAt(clk: Clock, entry: Entry, done: nat)
    | FlushNow
    | Stop
    | OpenAt(today: Day, clk: Clock, done: nat)
    | Remove(day: Day)

  /** An opening counts as long as the counter it recovers is the right one. */
  ghost predicate Allowed(s: Sys, step: AnyStep) {
    match step
    case AppendAt(clk, e, done) => s.mem.Some? && done <= |AppendWrites(s.mem.value, clk, e)|
    case FlushNow => s.mem.Some?
    case Stop => s.mem.Some?
    case OpenAt(today, clk, done) =>
      && s.mem.None? && done <= |OpenWrites(s.disk, today, clk)|
      && TryRecover(s.disk).Ok? && TryRecover(s.disk).value.nextSeq == |s.history| + 1
    case Remove(day) => true
  }

  ghost function AnyNext(s: Sys, step: AnyStep): Sys {
    if !Allowed(s, step) then s else
    match step
    case AppendAt(clk, e, done) =>
      var ws := AppendWrites(s.mem.value, clk, e);
      Perform(s, ws[..done], if done == |ws| then Some(AppendMem(s.mem.value, clk, e)) else None)
    case FlushNow => Perform(s, [PutMarker(s.mem.value.nextSeq)], Some(s.mem.value.(unsynced := 0)))
    case Stop => s.(mem := None)
    case OpenAt(today, clk, done) =>
      var ws := OpenWrites(s.disk, today, clk);
      Perform(s, ws[..done], if done == |ws| then Some(OpenMem(s.disk, today, clk)) else None)
    case Remove(day) => Perform(s, [DeleteFile(day)], s.mem)
  }

  ghost function AnyRun(steps: seq<AnyStep>): Sys {
    if steps == [] then FRESH else AnyNext(AnyRun(steps[..|steps| - 1]), steps[|steps| - 1])
  }

  /** No file holds a number that was not handed out. */
  ghost predicate Bounded(files: map<Day, DayFile>, top: nat) {
    forall k :: k in files ==> forall i :: 0 <= i < |files[k].lines| ==>
                                             files[k].lines[i].Whole? && files[k].lines[i].rec.seqNo <= top
  }

  ghost predicate Sane(d: Disk, h: seq<Record>) {
    Sequenced(h) && Clean(d.files) && Bounded(d.files, |h|) && d.marker <= |h| + 1
  }

  ghost predicate AnyOk(s: Sys) {
    Sane(s.disk, s.history) && (s.mem.Some? ==> s.mem.value.nextSeq == |s.history| + 1)
  }

  /** A write that carries the right number; where it goes does not matter. */
  predicate Counted(h: seq<Record>, w: Write) {
    match w
    case PutMarker(n) => n == |h| + 1
    case PutLine(_, rec) => rec.seqNo == |h| + 1
    case _ => true
  }

  predicate AllCounted(h: seq<Record>, ws: seq<Write>) {
    ws == []
    || var n := |ws| - 1;
       AllCounted(h, ws[..n]) && Counted(h + Puts(ws[..n]), ws[n])
  }

  lemma CountedKeeps(d: Disk, h: seq<Record>, w: Write)
    requires Sane(d, h) && Counted(h, w)
    ensures Sane(ApplyWrite(d, w), h + Puts([w]))
  {
    PutsOne(w);
    assert h + [] == h;
    if w.PutLine? {
      var f := FileAt(d, w.day);
      assert forall i :: 0 <= i < |f.lines| ==> f.lines[i].Whole? && f.lines[i].rec.seqNo <= |h|;
    }
  }

  lemma {:induction false} AllCountedKeeps(d: Disk, h: seq<Record>, ws: seq<Write>)
    requires Sane(d, h) && AllCounted(h, ws)
    ensures Sane(ApplyAll(d, ws), h + Puts(ws))
    decreases |ws|
  {
    hide Sane, Counted, ApplyWrite;
    if ws == [] {
      assert h + Puts(ws) == h;
    } else {
      var before, last := ws[..|ws| - 1], ws[|ws| - 1];
      LastWrite(d, h, ws);
      AllCountedKeeps(d, h, before);
      CountedKeeps(ApplyAll(d, before), h + Puts(before), last);
    }
  }

  lemma {:induction false} CountedPrefix(h: seq<Record>, ws: seq<Write>, k: nat)
    requires AllCounted(h, ws) && k <= |ws|
    ensures AllCounted(h, ws[..k])
    decreases |ws|
  {
    if k < |ws| {
      CountedPrefix(h, ws[..|ws| - 1], k);
      assert ws[..|ws| - 1][..k] == ws[..k];
    } else {
      assert ws[..k] == ws;
    }
  }

  lemma {:induction false} CountedSnoc(h: seq<Record>, ws: seq<Write>, w: Write)
    requires AllCounted(h, ws) && Counted(h + Puts(ws), w)
    ensures AllCounted(h, ws + [w])
    ensures h + Puts(ws + [w]) == h + Puts(ws) + if w.PutLine? then [w.rec] else []
  {
    assert (ws + [w])[..|ws|] == ws;
  }

  lemma {:induction false} AppendCounted(h: seq<Record>, mem: Mem, clk: Clock, e: Entry)
    requires mem.nextSeq == |h| + 1
    ensures var ws := AppendWrites(mem, clk, e);
            AllCounted(h, ws) && AppendMem(mem, clk, e).nextSeq == |h + Puts(ws)| + 1
  {
    hide Puts, AllCounted;
    var m := Rotated(mem, clk);
    var ws := RotateWrites(mem, clk);
    RotateCounted(h, mem, clk);
    var put := PutLine(clk.day, Stamp(m.nextSeq, clk.ms, e));
    CountedSnoc(h, ws, put);
    if SyncDue(m, clk) {
      CountedSnoc(h, ws + [put], PutMarker(m.nextSeq + 1));
    } else {
      assert ws + [put] + [] == ws + [put];
    }
  }

  lemma {:induction false} RotateCounted(h: seq<Record>, mem: Mem, clk: Clock)
    requires mem.nextSeq == |h| + 1
    ensures var ws := RotateWrites(mem, clk);
            AllCounted(h, ws) && Rotated(mem, clk).nextSeq == |h + Puts(ws)| + 1
  {
    assert Puts([]) == [] && h + [] == h && AllCounted(h, []);
    hide Puts, AllCounted;
    if clk.day != mem.day {
      var mark, open, put :=
        PutMarker(mem.nextSeq), OpenFile(clk.day), PutLine(clk.day, RotationRecord(mem, clk));
      CountedSnoc(h, [], mark);
      assert [] + [mark] == [mark];
      CountedSnoc(h, [mark], open);
      assert [mark] + [open] == [mark, open];
      CountedSnoc(h, [mark, open], put);
      assert [mark, open] + [put] == RotateWrites(mem, clk);
    }
  }

  lemma {:induction false} CountedConcat(h: seq<Record>, a: seq<Write>, b: seq<Write>)
    requires AllCounted(h, a) && AllCounted(h + Puts(a), b)
    ensures AllCounted(h, a + b)
    decreases |b|
  {
    if b == [] {
      assert a + b == a;
    } else {
      var n := |b| - 1;
      CountedConcat(h, a, b[..n]);
      PutsConcat(a, b[..n]);
      assert (a + b)[..|a + b| - 1] == a + b[..n];
      assert h + Puts(a) + Puts(b[..n]) == h + Puts(a + b[..n]);
    }
  }

  lemma {:induction false} OpenCounted(d: Disk, h: seq<Record>, today: Day, clk: Clock)
    requires Recover(d).nextSeq == |h| + 1
    ensures var ws := OpenWrites(d, today, clk);
            AllCounted(h, ws) && OpenMem(d, today, clk).nextSeq == |h + Puts(ws)| + 1
  {
    hide Recover;
    var r := Recover(d);
    var open := OpenFile(today);
    PutsOne(open);
    assert h + [] == h && [open][..0] == [] && AllCounted(h, [open]);
    if r.fromScan {
      hide AllCounted, Puts, AppendWrites, AppendMem;
      var mem := Mem(r.nextSeq, today, 0);
      AppendCounted(h, mem, clk, RecoveryEntry(r));
      var more := AppendWrites(mem, clk, RecoveryEntry(r));
      CountedConcat(h, [open], more);
      PutsConcat([open], more);
      assert [] + Puts(more) == Puts(more);
    } else {
      assert OpenWrites(d, today, clk) == [open];
    }
  }

  lemma AnyStepKeeps(s: Sys, step: AnyStep)
    requires AnyOk(s)
    ensures AnyOk(AnyNext(s, step))
  {
    hide Sane, AppendWrites, AppendMem, OpenWrites, OpenMem, ApplyAll, Puts, AllCounted, Recover, CanRecover;
    if Allowed(s, step) {
      match step {
        case AppendAt(clk, e, done) =>
          var ws := AppendWrites(s.mem.value, clk, e);
          AppendCounted(s.history, s.mem.value, clk, e);
          CountedPrefix(s.history, ws, done);
          AllCountedKeeps(s.disk, s.history, ws[..done]);
          assert ws[..|ws|] == ws;
        case FlushNow =>
          OneCounted(s, PutMarker(s.mem.value.nextSeq));
        case Stop =>
        case OpenAt(today, clk, done) =>
          var ws := OpenWrites(s.disk, today, clk);
          OpenCounted(s.disk, s.history, today, clk);
          CountedPrefix(s.history, ws, done);
          AllCountedKeeps(s.disk, s.history, ws[..done]);
          assert ws[..|ws|] == ws;
        case Remove(day) =>
          OneCounted(s, DeleteFile(day));
      }
    }
  }

  lemma OneCounted(s: Sys, w: Write)
    requires Sane(s.disk, s.history) && Counted(s.history, w) && !w.PutLine?
    ensures Sane(ApplyAll(s.disk, [w]), s.history + Puts([w])) && s.history + Puts([w]) == s.history
  {
    hide Sane;
    ApplyOne(s.disk, w);
    PutsOne(w);
    assert s.history + [] == s.history;
    CountedKeeps(s.disk, s.history, w);
  }

  lemma {:induction false} AnyRunKeeps(steps: seq<AnyStep>)
    ensures AnyOk(AnyRun(steps))
    decreases |steps|
  {
    hide AnyOk;
    if steps != [] {
      AnyRunKeeps(steps[..|steps| - 1]);
      AnyStepKeeps(AnyRun(steps[..|steps| - 1]), steps[|steps| - 1]);
    } else {
      FreshIsSane();
    }
  }

  lemma FreshIsSane()
    ensures AnyOk(FRESH)
  {
  }

  predicate Holds(f: DayFile, n: nat) {
    exists i :: 0 <= i < |f.lines| && f.lines[i].Whole? && f.lines[i].rec.seqNo == n
  }

  /** A scan of numbers up to `n` ends past `n` exactly if it meets it. */
  lemma {:induction false} ScanMeets(lines: seq<Line>, n: nat)
    requires forall i :: 0 <= i < |lines| ==> lines[i].Whole? && lines[i].rec.seqNo <= n
    ensures ScanNext(lines) <= n + 1
    ensures ScanNext(lines) == n + 1 <==> exists i :: 0 <= i < |lines| && lines[i].rec.seqNo == n
    decreases |lines|
  {
    if lines != [] {
      var k := |lines| - 1;
      ScanMeets(lines[..k], n);
      if i :| 0 <= i < |lines| && lines[i].rec.seqNo == n {
        assert i < k ==> lines[..k][i].rec.seqNo == n;
      }
    }
  }

  lemma NewestMeets(d: Disk, h: seq<Record>)
    requires Sane(d, h) && d.files.Keys != {}
    ensures CanRecover(d) && FromFiles(d) <= |h| + 1
    ensures FromFiles(d) == |h| + 1 <==> Holds(d.files[Newest(d.files.Keys)], |h|)
  {
    var f := d.files[Newest(d.files.Keys)];
    ScanMeets(f.lines, |h|);
    assert f.Content() == f.lines;
  }

  /** With clocks that read anything: over every run in which the counter was right whenever a process
      started, numbers were handed out consecutively, and the counter can be recovered again if and only if
      nothing was logged, the watermark is current, or the newest file holds the last number. */
  lemma {:induction false} AnyClockRecovers(steps: seq<AnyStep>)
    ensures var s := AnyRun(steps);
            var n := |s.history|;
            && (forall i :: 0 <= i < n ==> s.history[i].seqNo == FIRST_SEQ + i)
            && (s.mem.Some? ==> s.mem.value.nextSeq == n + FIRST_SEQ)
            && TryRecover(s.disk).Ok?
            && (TryRecover(s.disk).value.nextSeq == n + FIRST_SEQ
                <==> || n == 0
                     || s.disk.marker == n + FIRST_SEQ
                     || (s.disk.files.Keys != {} && Holds(s.disk.files[Newest(s.disk.files.Keys)], n)))
  {
    hide AnyRun, FromFiles, Holds, Newest;
    AnyRunKeeps(steps);
    var s := AnyRun(steps);
    if s.disk.files.Keys != {} {
      NewestMeets(s.disk, s.history);
    } else {
      NoFiles(s.disk);
    }
  }

  lemma NoFiles(d: Disk)
    requires d.files.Keys == {}
    ensures FromFiles(d) == 0
  {
  }
}
