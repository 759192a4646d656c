/** The on-disk event log of app/server/src/jsonl.rs as a value: day files, a watermark and the
    individual disk writes an operation performs, so that a crash is a prefix of those writes. */
module LogModel {
  import opened Wrappers
  import opened Events
  import opened Sets

  /** Numbering starts here, so that cursor 0 lies before everything. */
  const FIRST_SEQ: nat := 1

  const SYNC_EVERY_LINES: nat := 64

  /** A UTC day number. File names sort as their days do. */
  type Day = int

  datatype Kind = Realtime | Audit | System

  /** The `event` column: a wire event, or the value of an audit or system record. */
  datatype Payload =
    | Wire(event: ServerEvent)
    | Action(action: string, detail: string)
    | RotatedFrom(previous: Day)
    | Recovered(next: nat, truncatedTornLine: bool)

  datatype Record = Record(
    seqNo: nat,
    atMs: int,
    kind: Kind,
    target: Option<Target>,
    origin: Option<Wallet>,
    event: Payload,
    fanout: Option<nat>)
  {
    function ServerEvent(): Option<ServerEvent> {
      if kind == Realtime && event.Wire? then Some(event.event) else None
    }
  }

  /** Everything the caller of `append` decides. */
  datatype Entry = Entry(
    kind: Kind,
    target: Option<Target>,
    origin: Option<Wallet>,
    event: Payload,
    fanout: Option<nat>)

  /** The clock readings of one append: its day and time, the time of a rotation record, and
      whether the batching interval has elapsed since the last sync. */
  datatype Clock = Clock(day: Day, ms: int, rotateMs: int, due: bool)

  /** A line of a file: a parsable record, white space, text that parses as nothing, or bytes that are
      not text at all, at which reading line by line stops with an error. */
  datatype Line = Whole(rec: Record) | Blank | Garbage | NotText

  predicate AllText(lines: seq<Line>) {
    forall i :: 0 <= i < |lines| ==> !lines[i].NotText?
  }

  /** Reading failed. */
  datatype LogError = Io

  /** The complete lines, and the unterminated fragment a torn write may have left after them. A
      fragment that lost only its line end still parses. */
  datatype DayFile = DayFile(lines: seq<Line>, tail: Option<Line>) {
    /** What reading line by line yields: a last line without an end is a line too. */
    function Content(): seq<Line> {
      lines + if tail.Some? then [tail.value] else []
    }

    /** What that amounts to: the records of the complete lines and of the fragment, one past the
        largest number among them, and whether the end is torn. */
    function Records(): seq<Record> {
      Parsed(lines) + if tail.Some? && tail.value.Whole? then [tail.value.rec] else []
    }

    function Next(): nat {
      if tail.Some? && tail.value.Whole? then MaxNat(ScanNext(lines), tail.value.rec.seqNo + 1) else ScanNext(lines)
    }

    predicate Torn() {
      if tail.Some? && !tail.value.Blank? then tail.value.Garbage? else TornEnd(lines)
    }

    /** All of it can be read. */
    predicate Legible() {
      AllText(Content())
    }
  }

  const EMPTY_FILE := DayFile([], None)

  /** `marker` is the watermark `events.seq`; 0 stands for an absent one. */
  datatype Disk = Disk(files: map<Day, DayFile>, marker: nat)

  const EMPTY_DISK := Disk(map[], 0)

  /** The counters the running process holds; the buffer is empty between operations. */
  datatype Mem = Mem(nextSeq: nat, day: Day, unsynced: nat)

  // ------------------------------------------------------------- disk writes ---

  datatype Write =
    | PutMarker(n: nat)
    | OpenFile(day: Day)
    | PutLine(day: Day, rec: Record)
    | DeleteFile(day: Day)

  /** What a record becomes when its line is appended: a fragment before it makes one line of both.
      Two records on one line parse as nothing, and bytes that are not text spoil the whole line. */
  function Merged(tail: Option<Line>, rec: Record): Line {
    if tail.None? || tail.value.Blank? then Whole(rec) else if tail.value.NotText? then NotText else Garbage
  }

  function AddLine(f: DayFile, rec: Record): DayFile {
    DayFile(f.lines + [Merged(f.tail, rec)], None)
  }

  function FileAt(d: Disk, day: Day): DayFile {
    if day in d.files then d.files[day] else EMPTY_FILE
  }

  function ApplyWrite(d: Disk, w: Write): Disk {
    match w
    case PutMarker(n) => d.(marker := n)
    case OpenFile(day) => d.(files := d.files[day := FileAt(d, day)])
    case PutLine(day, rec) => d.(files := d.files[day := AddLine(FileAt(d, day), rec)])
    case DeleteFile(day) => d.(files := d.files - {day})
  }

  function ApplyAll(d: Disk, ws: seq<Write>): Disk {
    if ws == [] then d else ApplyWrite(ApplyAll(d, ws[..|ws| - 1]), ws[|ws| - 1])
  }

  lemma {:induction false} ApplyOne(d: Disk, w: Write)
    ensures ApplyAll(d, [w]) == ApplyWrite(d, w)
  {
    assert [w][..0] == [];
  }

  lemma {:induction false} ApplyAllConcat(d: Disk, a: seq<Write>, b: seq<Write>)
    ensures ApplyAll(d, a + b) == ApplyAll(ApplyAll(d, a), b)
    decreases |b|
  {
    if b == [] {
      assert a + b == a;
    } else {
      var n := |b| - 1;
      ApplyAllConcat(d, a, b[..n]);
      assert (a + b)[..|a + b| - 1] == a + b[..n];
    }
  }

  /** Every record a list of writes puts into some file. */
  function Puts(ws: seq<Write>): seq<Record> {
    if ws == [] then []
    else
      var last := ws[|ws| - 1];
      Puts(ws[..|ws| - 1]) + if last.PutLine? then [last.rec] else []
  }

  lemma {:induction false} PutsConcat(a: seq<Write>, b: seq<Write>)
    ensures Puts(a + b) == Puts(a) + Puts(b)
    decreases |b|
  {
    if b == [] {
      assert a + b == a;
    } else {
      var n := |b| - 1;
      PutsConcat(a, b[..n]);
      assert (a + b)[..|a + b| - 1] == a + b[..n];
    }
  }

  lemma PutsOne(w: Write)
    ensures Puts([w]) == if w.PutLine? then [w.rec] else []
  {
    assert [w][..0] == [];
    assert Puts([]) == [];
  }

  // -------------------------------------------------- what the operations write ---

  function Stamp(seqNo: nat, atMs: int, e: Entry): Record {
    Record(seqNo, atMs, e.kind, e.target, e.origin, e.event, e.fanout)
  }

  /** A file begun by a rotation starts by naming its predecessor. */
  function RotationRecord(mem: Mem, clk: Clock): Record {
    Record(mem.nextSeq, clk.rotateMs, System, None, None, RotatedFrom(mem.day), None)
  }

  function RotateWrites(mem: Mem, clk: Clock): seq<Write> {
    if clk.day == mem.day then []
    else [PutMarker(mem.nextSeq), OpenFile(clk.day), PutLine(clk.day, RotationRecord(mem, clk))]
  }

  function Rotated(mem: Mem, clk: Clock): Mem {
    if clk.day == mem.day then mem else Mem(mem.nextSeq + 1, clk.day, 0)
  }

  predicate SyncDue(mem: Mem, clk: Clock) {
    mem.unsynced + 1 >= SYNC_EVERY_LINES || clk.due
  }

  /** The disk writes of one append, in order. */
  function AppendWrites(mem: Mem, clk: Clock, e: Entry): seq<Write> {
    var m := Rotated(mem, clk);
    RotateWrites(mem, clk)
    + [PutLine(clk.day, Stamp(m.nextSeq, clk.ms, e))]
    + if SyncDue(m, clk) then [PutMarker(m.nextSeq + 1)] else []
  }

  function AppendMem(mem: Mem, clk: Clock, e: Entry): Mem {
    var m := Rotated(mem, clk);
    Mem(m.nextSeq + 1, m.day, if SyncDue(m, clk) then 0 else m.unsynced + 1)
  }

  lemma RotatePuts(mem: Mem, clk: Clock)
    ensures Puts(RotateWrites(mem, clk)) == if clk.day == mem.day then [] else [RotationRecord(mem, clk)]
  {
    if clk.day != mem.day {
      var w0, w1, w2 :=
        PutMarker(mem.nextSeq), OpenFile(clk.day), PutLine(clk.day, RotationRecord(mem, clk));
      assert [w0, w1, w2][..2] == [w0, w1] && [w0, w1][..1] == [w0] && [w0][..0] == [];
      assert Puts([w0]) == [];
      assert Puts([w0, w1]) == [];
    }
  }

  lemma AppendPuts(mem: Mem, clk: Clock, e: Entry)
    ensures Puts(AppendWrites(mem, clk, e))
         == (if clk.day == mem.day then [] else [RotationRecord(mem, clk)])
            + [Stamp(Rotated(mem, clk).nextSeq, clk.ms, e)]
  {
    var m := Rotated(mem, clk);
    var rot := RotateWrites(mem, clk);
    var put := PutLine(clk.day, Stamp(m.nextSeq, clk.ms, e));
    RotatePuts(mem, clk);
    PutsConcat(rot, [put]);
    PutsOne(put);
    if SyncDue(m, clk) {
      var mark := PutMarker(m.nextSeq + 1);
      PutsConcat(rot + [put], [mark]);
      PutsOne(mark);
    } else {
      assert rot + [put] + [] == rot + [put];
    }
  }

  /** The watermark after a list of writes is the last one put. */
  lemma {:induction false} MarkerAfter(d: Disk, a: seq<Write>, w: Write)
    ensures ApplyAll(d, a + [w]).marker == if w.PutMarker? then w.n else ApplyAll(d, a).marker
  {
    assert (a + [w])[..|a|] == a;
  }

  /** An append, column by column: on a new day a record that names the day before, then the caller's values
      under the next number and the time of the append. The watermark passes both if a sync is due, which it is
      at the latest after 64 lines; otherwise it stops before a rotation record, or stays. */
  lemma {:induction false} AppendExactly(d: Disk, mem: Mem, clk: Clock, e: Entry)
    ensures var ws, m := AppendWrites(mem, clk, e), AppendMem(mem, clk, e);
            var first := if clk.day == mem.day then mem.nextSeq else mem.nextSeq + 1;
            var lines := if clk.day == mem.day then mem.unsynced + 1 else 1;
            var due := lines >= SYNC_EVERY_LINES || clk.due;
            && Puts(ws) == (if clk.day == mem.day then []
                            else [Record(mem.nextSeq, clk.rotateMs, System, None, None, RotatedFrom(mem.day), None)])
                           + [Record(first, clk.ms, e.kind, e.target, e.origin, e.event, e.fanout)]
            && m == Mem(first + 1, clk.day, if due then 0 else lines)
            && ApplyAll(d, ws).marker == if due then first + 1 else if clk.day == mem.day then d.marker else mem.nextSeq
  {
    hide ApplyAll, Puts;
    AppendPuts(mem, clk, e);
    var m := Rotated(mem, clk);
    var rot := RotateWrites(mem, clk);
    var put := PutLine(clk.day, Stamp(m.nextSeq, clk.ms, e));
    ApplyNothing(d);
    if clk.day != mem.day {
      var w0, w1, w2 := PutMarker(mem.nextSeq), OpenFile(clk.day), PutLine(clk.day, RotationRecord(mem, clk));
      MarkerAfter(d, [], w0);
      MarkerAfter(d, [w0], w1);
      MarkerAfter(d, [w0, w1], w2);
      assert [] + [w0] == [w0] && [w0] + [w1] == [w0, w1] && [w0, w1] + [w2] == rot;
    }
    MarkerAfter(d, rot, put);
    if SyncDue(m, clk) {
      MarkerAfter(d, rot + [put], PutMarker(m.nextSeq + 1));
    } else {
      assert rot + [put] + [] == rot + [put];
    }
  }

  lemma ApplyNothing(d: Disk)
    ensures ApplyAll(d, []) == d
  {
  }

  // ---------------------------------------------------------- reading it back ---

  ghost predicate IsNewest(m: Day, days: set<Day>) {
    m in days && forall d :: d in days ==> d <= m
  }

  lemma NewestOfRest(days: set<Day>, x: Day, m: Day)
    requires x in days && (IsNewest(m, days - {x}) || (days == {x} && m == x))
    ensures IsNewest(if m < x then x else m, days)
  {
    assert forall d :: d in days ==> d == x || d in days - {x};
  }

  lemma {:induction false} NewestExists(days: set<Day>)
    requires days != {}
    ensures exists m :: IsNewest(m, days)
    decreases |days|
  {
    hide IsNewest;
    var x := Member(days);
    var rest := days - {x};
    if rest == {} {
      assert days == {x};
      NewestOfRest(days, x, x);
    } else {
      NewestExists(rest);
      var m :| IsNewest(m, rest);
      NewestOfRest(days, x, m);
    }
  }

  ghost function Newest(days: set<Day>): (m: Day)
    requires days != {}
    ensures m in days && forall d :: d in days ==> d <= m
  {
    NewestExists(days);
    var m :| IsNewest(m, days);
    m
  }

  function Parsed(lines: seq<Line>): seq<Record> {
    if lines == [] then []
    else
      var last := lines[|lines| - 1];
      Parsed(lines[..|lines| - 1]) + if last.Whole? then [last.rec] else []
  }

  lemma {:induction false} ParsedSnoc(lines: seq<Line>, l: Line)
    ensures Parsed(lines + [l]) == Parsed(lines) + if l.Whole? then [l.rec] else []
  {
    assert (lines + [l])[..|lines|] == lines;
  }

  /** The retained records in file-name order, which is the order of their days. */
  ghost function Logged(files: map<Day, DayFile>): seq<Record>
    decreases |files|
  {
    if files.Keys == {} then []
    else
      var m := Newest(files.Keys);
      assert (files - {m}).Keys == files.Keys - {m};
      Logged(files - {m}) + files[m].Records()
  }

  lemma {:induction false} LoggedStep(files: map<Day, DayFile>)
    ensures files.Keys == {} ==> Logged(files) == []
    ensures files.Keys != {} ==>
              var m := Newest(files.Keys);
              Logged(files) == Logged(files - {m}) + files[m].Records()
  {
  }

  datatype Recovery = Recovery(nextSeq: nat, fromScan: bool, tornLine: bool)

  function MaxNat(a: nat, b: nat): nat {
    if a < b then b else a
  }

  /** One past the largest sequence number among the lines, or 0. */
  function ScanNext(lines: seq<Line>): nat {
    if lines == [] then 0
    else
      var last := lines[|lines| - 1];
      var before := ScanNext(lines[..|lines| - 1]);
      if last.Whole? then MaxNat(before, last.rec.seqNo + 1) else before
  }

  /** The last line that is not blank does not parse. */
  predicate TornEnd(lines: seq<Line>) {
    lines != []
    && var last := lines[|lines| - 1];
       if last.Blank? then TornEnd(lines[..|lines| - 1]) else last.Garbage?
  }

  lemma ScanNothing()
    ensures ScanNext([]) == 0 && !TornEnd([])
  {
  }

  lemma {:induction false} ScanAppend(lines: seq<Line>, l: Line)
    ensures ScanNext(lines + [l])
         == if l.Whole? then MaxNat(ScanNext(lines), l.rec.seqNo + 1) else ScanNext(lines)
  {
    assert (lines + [l])[..|lines|] == lines;
  }

  lemma {:induction false} TornAppend(lines: seq<Line>, l: Line)
    ensures TornEnd(lines + [l]) <==> if l.Blank? then TornEnd(lines) else l.Garbage?
  {
    assert (lines + [l])[..|lines|] == lines;
  }

  /** Reading a file line by line finds exactly that. */
  lemma ReadingFinds(f: DayFile)
    ensures Parsed(f.Content()) == f.Records() && ScanNext(f.Content()) == f.Next()
    ensures TornEnd(f.Content()) <==> f.Torn()
  {
    hide Parsed, ScanNext, TornEnd;
    if f.tail.Some? {
      ParsedSnoc(f.lines, f.tail.value);
      ScanAppend(f.lines, f.tail.value);
      TornAppend(f.lines, f.tail.value);
    } else {
      assert f.Content() == f.lines;
    }
  }

  ghost function FromFiles(d: Disk): nat {
    if d.files.Keys == {} then 0 else d.files[Newest(d.files.Keys)].Next()
  }

  /** The counter rebuilt from the watermark and the newest file alone. */
  ghost function Recover(d: Disk): Recovery {
    Recovery(
      MaxNat(MaxNat(d.marker, FromFiles(d)), FIRST_SEQ),
      FromFiles(d) > d.marker,
      d.files.Keys != {} && d.files[Newest(d.files.Keys)].Torn())
  }

  /** Recovery reads the newest file, and fails if it cannot. */
  ghost predicate CanRecover(d: Disk) {
    d.files.Keys != {} ==> d.files[Newest(d.files.Keys)].Legible()
  }

  ghost function TryRecover(d: Disk): Result<Recovery, LogError> {
    if CanRecover(d) then Ok(Recover(d)) else Err(Io)
  }

  function RecoveryEntry(r: Recovery): Entry {
    Entry(System, None, None, Recovered(r.nextSeq, r.tornLine), None)
  }

  /** Opening: create today's file, then, if the scan was ahead of the watermark, log that. */
  ghost function OpenWrites(d: Disk, today: Day, clk: Clock): seq<Write> {
    var r := Recover(d);
    [OpenFile(today)]
    + if r.fromScan then AppendWrites(Mem(r.nextSeq, today, 0), clk, RecoveryEntry(r)) else []
  }

  ghost function OpenMem(d: Disk, today: Day, clk: Clock): Mem {
    var r := Recover(d);
    var m := Mem(r.nextSeq, today, 0);
    if r.fromScan then AppendMem(m, clk, RecoveryEntry(r)) else m
  }

  // ------------------------------------------------------------------- replay ---

  function After(recs: seq<Record>, cursor: nat): seq<Record> {
    if recs == [] then []
    else
      var last := recs[|recs| - 1];
      After(recs[..|recs| - 1], cursor) + if last.seqNo > cursor then [last] else []
  }

  lemma {:induction false} AfterConcat(a: seq<Record>, b: seq<Record>, cursor: nat)
    ensures After(a + b, cursor) == After(a, cursor) + After(b, cursor)
    decreases |b|
  {
    if b == [] {
      assert a + b == a;
    } else {
      var n := |b| - 1;
      AfterConcat(a, b[..n], cursor);
      assert (a + b)[..|a + b| - 1] == a + b[..n];
    }
  }

  /** `replay_since`: refuse when too much lies after the cursor or the cursor predates what is
      retained; otherwise everything retained after it, oldest first. */
  ghost function Replay(files: map<Day, DayFile>, cursor: nat, max: nat): Option<seq<Record>> {
    var all := Logged(files);
    var out := After(all, cursor);
    if |out| > max then None
    else if all != [] && cursor + 1 < all[0].seqNo then None
    else Some(out)
  }

  /** Every line of every file, in file-name order. */
  ghost function AllLines(files: map<Day, DayFile>): seq<Line>
    decreases |files|
  {
    if files.Keys == {} then []
    else
      var m := Newest(files.Keys);
      assert (files - {m}).Keys == files.Keys - {m};
      AllLines(files - {m}) + files[m].Content()
  }

  /** What is read before the first line that is not text. */
  function TextPrefix(lines: seq<Line>): (p: seq<Line>)
    ensures p <= lines
  {
    if lines == [] then []
    else
      var n := |lines| - 1;
      var before := TextPrefix(lines[..n]);
      if |before| == n && !lines[n].NotText? then lines else before
  }

  /** Replaying reads every file in turn: a line that is not text makes it fail, unless too much lay
      after the cursor before it came to that line. */
  ghost function TryReplay(files: map<Day, DayFile>, cursor: nat, max: nat): Result<Option<seq<Record>>, LogError> {
    var lines := AllLines(files);
    if AllText(lines) then Ok(Replay(files, cursor, max))
    else if |After(Parsed(TextPrefix(lines)), cursor)| > max then Ok(None)
    else Err(Io)
  }

  lemma {:induction false} AllLinesStep(files: map<Day, DayFile>)
    ensures files.Keys == {} ==> AllLines(files) == []
    ensures files.Keys != {} ==>
              var m := Newest(files.Keys);
              AllLines(files) == AllLines(files - {m}) + files[m].Content()
  {
  }

  lemma {:induction false} ParsedConcat(a: seq<Line>, b: seq<Line>)
    ensures Parsed(a + b) == Parsed(a) + Parsed(b)
    decreases |b|
  {
    if b == [] {
      assert a + b == a;
    } else {
      var n := |b| - 1;
      hide Parsed;
      ParsedConcat(a, b[..n]);
      ParsedSnoc(a + b[..n], b[n]);
      ParsedSnoc(b[..n], b[n]);
      assert b == b[..n] + [b[n]] && a + b == a + b[..n] + [b[n]];
    }
  }

  /** The records among all lines are the log. */
  lemma {:induction false} LoggedLines(files: map<Day, DayFile>)
    ensures Parsed(AllLines(files)) == Logged(files)
    decreases |files|
  {
    hide AllLines, Logged;
    AllLinesStep(files);
    LoggedStep(files);
    if files.Keys != {} {
      var m := Newest(files.Keys);
      assert (files - {m}).Keys == files.Keys - {m};
      LoggedLines(files - {m});
      ReadingFinds(files[m]);
      ParsedConcat(AllLines(files - {m}), files[m].Content());
    }
  }

  lemma AllTextConcat(a: seq<Line>, b: seq<Line>)
    ensures AllText(a + b) <==> AllText(a) && AllText(b)
  {
    if AllText(a + b) {
      assert forall i :: 0 <= i < |a| ==> a[i] == (a + b)[i];
      assert forall i :: 0 <= i < |b| ==> b[i] == (a + b)[|a| + i];
    }
  }

  /** All lines are text exactly if every file can be read. */
  lemma {:induction false} AllLinesText(files: map<Day, DayFile>)
    ensures AllText(AllLines(files)) <==> forall k :: k in files ==> files[k].Legible()
    decreases |files|
  {
    hide AllLines, AllText, Newest, DayFile.Content;
    AllLinesStep(files);
    if files.Keys == {} {
      NothingIsText();
    } else {
      var m := Newest(files.Keys);
      var rest := files - {m};
      assert rest.Keys == files.Keys - {m};
      assert forall k :: k in files <==> k in rest || k == m;
      AllLinesText(rest);
      AllTextConcat(AllLines(rest), files[m].Content());
    }
  }

  lemma NothingIsText()
    ensures AllText([])
  {
  }

  /** A prefix that is text, followed by a line that is not, is the text prefix. */
  lemma {:induction false} TextPrefixIs(lines: seq<Line>, k: nat)
    requires k <= |lines| && AllText(lines[..k]) && (k < |lines| ==> lines[k].NotText?)
    ensures TextPrefix(lines) == lines[..k]
    decreases |lines|
  {
    if lines != [] {
      var n := |lines| - 1;
      if k <= n {
        assert lines[..n][..k] == lines[..k];
        TextPrefixIs(lines[..n], k);
      } else {
        assert lines[..n] == lines[..k][..n];
        assert forall i :: 0 <= i < n ==> lines[..n][i] == lines[..k][i];
        assert lines[..n][..n] == lines[..n];
        TextPrefixIs(lines[..n], n);
        assert !lines[..k][n].NotText?;
      }
    }
  }

  /** A prefix that is text lies within the text prefix. */
  lemma {:induction false} TextPrefixAtLeast(lines: seq<Line>, k: nat)
    requires k <= |lines| && AllText(lines[..k])
    ensures k <= |TextPrefix(lines)|
    decreases |lines|
  {
    if lines != [] && k < |lines| {
      var n := |lines| - 1;
      assert lines[..n][..k] == lines[..k];
      TextPrefixAtLeast(lines[..n], k);
    } else {
      TextPrefixIs(lines, k);
    }
  }
}
