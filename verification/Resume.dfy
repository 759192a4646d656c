/** What a client sees across a reconnection: live events up to its cursor, then the replay. */
module Resume {
  import opened Wrappers
  import opened Events
  import opened LogModel
  import opened LogSafety
  import opened HubModel
  import opened Delivery

  // --------------------------------------------------------------------- runs ---

  /** The log system and everything broadcast so far, over all processes. */
  datatype World = World(sys: Sys, stream: seq<Envelope>)

  /** Publishing is one step; everything else that happens to the log logs no wire event. */
  datatype Act =
    | Publish(clk: Clock, now: int, target: Target, origin: Option<Wallet>, event: ServerEvent, fanout: nat)
    | Log(step: Step)

  function PublishEntry(a: Act): Entry
    requires a.Publish?
  {
    Entry(Realtime, Some(a.target), a.origin, Wire(a.event), Some(a.fanout))
  }

  predicate LogsNoEvent(step: Step) {
    (step.DoAppend? || step.CrashInAppend?) ==> step.entry.kind != Realtime
  }

  ghost predicate Possible(w: World, a: Act) {
    match a
    case Publish(clk, _, _, _, _, _) => w.sys.mem.Some? && w.sys.mem.value.day <= clk.day
    case Log(step) => Enabled(w.sys, step) && LogsNoEvent(step)
  }

  ghost function Perform(w: World, a: Act): World {
    if !Possible(w, a) then w else
    match a
    case Publish(clk, now, target, origin, event, _) =>
      var seqNo := Rotated(w.sys.mem.value, clk).nextSeq;
      World(Next(w.sys, DoAppend(clk, PublishEntry(a))),
            w.stream + [Envelope(seqNo, now, target, origin, event)])
    case Log(step) => w.(sys := Next(w.sys, step))
  }

  ghost function WorldOf(acts: seq<Act>): World {
    if acts == [] then World(FRESH, []) else Perform(WorldOf(acts[..|acts| - 1]), acts[|acts| - 1])
  }

  ghost predicate WorldOk(w: World) {
    SysOk(w.sys) && Sigs(w.stream) == WireSigs(w.sys.history)
  }

  lemma {:induction false} NoWire(recs: seq<Record>)
    requires forall i :: 0 <= i < |recs| ==> recs[i].kind != Realtime
    ensures WireSigs(recs) == []
    decreases |recs|
  {
    if recs != [] {
      NoWire(recs[..|recs| - 1]);
    }
  }

  /** Steps of the log itself add no wire event to the history. */
  lemma LogAddsNoEvent(s: Sys, step: Step)
    requires SysOk(s) && Enabled(s, step) && LogsNoEvent(step)
    ensures WireSigs(Next(s, step).history) == WireSigs(s.history)
  {
    hide WireSigs, ApplyAll, AppendWrites, OpenWrites, AppendMem, OpenMem, SysOk;
    assert s.history + [] == s.history;
    match step {
      case DoAppend(clk, e) =>
        AppendPuts(s.mem.value, clk, e);
        QuietPuts(s.history, AppendWrites(s.mem.value, clk, e), |AppendWrites(s.mem.value, clk, e)|);
      case DoFlush =>
        PutsOne(PutMarker(s.mem.value.nextSeq));
      case Crash =>
      case CrashInAppend(clk, e, done) =>
        AppendPuts(s.mem.value, clk, e);
        QuietPuts(s.history, AppendWrites(s.mem.value, clk, e), done);
      case DoOpen(today, clk) =>
        OpenAddsNoEvent(s.disk, s.history, today, clk, |OpenWrites(s.disk, today, clk)|);
      case CrashInOpen(today, clk, done) =>
        OpenAddsNoEvent(s.disk, s.history, today, clk, done);
      case DeleteOldest(day) =>
        PutsOne(DeleteFile(day));
    }
  }

  lemma {:induction false} OpenPuts(d: Disk, today: Day, clk: Clock)
    ensures var recs := Puts(OpenWrites(d, today, clk));
            forall i :: 0 <= i < |recs| ==> recs[i].kind == System
  {
    hide Recover;
    var r := Recover(d);
    PutsOne(OpenFile(today));
    if r.fromScan {
      var mem := Mem(r.nextSeq, today, 0);
      AppendPuts(mem, clk, RecoveryEntry(r));
      hide AppendWrites;
      PutsConcat([OpenFile(today)], AppendWrites(mem, clk, RecoveryEntry(r)));
    } else {
      assert OpenWrites(d, today, clk) == [OpenFile(today)];
    }
  }

  lemma {:induction false} OpenAddsNoEvent(d: Disk, h: seq<Record>, today: Day, clk: Clock, done: nat)
    requires done <= |OpenWrites(d, today, clk)|
    ensures WireSigs(h + Puts(OpenWrites(d, today, clk)[..done])) == WireSigs(h)
    ensures WireSigs(h + Puts(OpenWrites(d, today, clk))) == WireSigs(h)
  {
    hide WireSigs, OpenWrites, Puts;
    OpenPuts(d, today, clk);
    QuietPuts(h, OpenWrites(d, today, clk), done);
  }

  lemma {:induction false} QuietPuts(h: seq<Record>, ws: seq<Write>, k: nat)
    requires k <= |ws| && forall i :: 0 <= i < |Puts(ws)| ==> Puts(ws)[i].kind != Realtime
    ensures WireSigs(h + Puts(ws[..k])) == WireSigs(h)
    ensures WireSigs(h + Puts(ws)) == WireSigs(h)
  {
    PutsConcat(ws[..k], ws[k..]);
    assert ws[..k] + ws[k..] == ws;
    assert forall i :: 0 <= i < |Puts(ws[..k])| ==> Puts(ws[..k])[i] == Puts(ws)[i];
    NoWire(Puts(ws[..k]));
    NoWire(Puts(ws));
    WireSigsConcat(h, Puts(ws[..k]));
    WireSigsConcat(h, Puts(ws));
  }

  predicate Extends(a: World, b: World) {
    a.stream <= b.stream && a.sys.history <= b.sys.history
  }

  lemma PublishKeeps(w: World, clk: Clock, e: Entry, env: Envelope)
    requires WorldOk(w) && Enabled(w.sys, DoAppend(clk, e))
    requires e.kind == Realtime && e.target == Some(env.target) && e.origin == env.origin && e.event == Wire(env.event)
    requires env.seqNo == Rotated(w.sys.mem.value, clk).nextSeq
    ensures WorldOk(World(Next(w.sys, DoAppend(clk, e)), w.stream + [env]))
    ensures w.sys.history <= Next(w.sys, DoAppend(clk, e)).history
  {
    hide SysOk, AppendWrites, AppendMem, WireSigs;
    var mem := w.sys.mem.value;
    StepKeeps(w.sys, DoAppend(clk, e));
    AppendWire(mem, clk, e);
    WireSigsConcat(w.sys.history, Puts(AppendWrites(mem, clk, e)));
    assert (w.stream + [env])[..|w.stream|] == w.stream;
  }

  lemma PerformKeeps(w: World, a: Act)
    requires WorldOk(w)
    ensures WorldOk(Perform(w, a)) && Extends(w, Perform(w, a))
  {
    hide SysOk, Next, WireSigs, Sigs;
    if Possible(w, a) {
      match a {
        case Publish(clk, now, target, origin, event, _) =>
          PublishKeeps(w, clk, PublishEntry(a),
                       Envelope(Rotated(w.sys.mem.value, clk).nextSeq, now, target, origin, event));
        case Log(step) =>
          StepKeeps(w.sys, step);
          LogAddsNoEvent(w.sys, step);
      }
    }
  }

  lemma {:induction false} WorldKeeps(acts: seq<Act>)
    ensures WorldOk(WorldOf(acts))
    decreases |acts|
  {
    if acts != [] {
      WorldKeeps(acts[..|acts| - 1]);
      PerformKeeps(WorldOf(acts[..|acts| - 1]), acts[|acts| - 1]);
    } else {
      assert SysOk(FRESH);
    }
  }

  lemma {:induction false} WorldGrows(acts: seq<Act>, i: nat)
    requires i <= |acts|
    ensures Extends(WorldOf(acts[..i]), WorldOf(acts))
    decreases |acts|
  {
    if i < |acts| {
      var n := |acts| - 1;
      WorldGrows(acts[..n], i);
      assert acts[..n][..i] == acts[..i];
      WorldKeeps(acts[..n]);
      PerformKeeps(WorldOf(acts[..n]), acts[n]);
    } else {
      assert acts[..i] == acts;
    }
  }

  // ---------------------------------------------------------- stream and cursor ---

  function UpTo(envs: seq<Envelope>, cursor: nat): seq<Envelope> {
    if envs == [] then []
    else
      var last := envs[|envs| - 1];
      UpTo(envs[..|envs| - 1], cursor) + if last.seqNo <= cursor then [last] else []
  }

  function Beyond(envs: seq<Envelope>, cursor: nat): seq<Envelope> {
    if envs == [] then []
    else
      var last := envs[|envs| - 1];
      Beyond(envs[..|envs| - 1], cursor) + if last.seqNo > cursor then [last] else []
  }

  lemma {:induction false} WireBounds(recs: seq<Record>, low: nat, high: nat)
    requires forall i :: 0 <= i < |recs| ==> low < recs[i].seqNo <= high
    ensures forall i :: 0 <= i < |WireSigs(recs)| ==> low < WireSigs(recs)[i].seqNo <= high
    decreases |recs|
  {
    if recs != [] {
      WireBounds(recs[..|recs| - 1], low, high);
    }
  }

  lemma {:induction false} CutNone(cursor: nat)
    ensures UpTo([], cursor) == [] && Beyond([], cursor) == []
  {
  }

  lemma {:induction false} CutStep(envs: seq<Envelope>, cursor: nat)
    requires envs != []
    ensures var n := |envs| - 1;
            && UpTo(envs, cursor) == UpTo(envs[..n], cursor) + (if envs[n].seqNo <= cursor then [envs[n]] else [])
            && Beyond(envs, cursor) == Beyond(envs[..n], cursor) + if envs[n].seqNo > cursor then [envs[n]] else []
  {
  }

  lemma SplitInit(envs: seq<Envelope>, m: nat)
    requires m <= |envs| && envs != []
    ensures var n := |envs| - 1;
            var k := if m <= n then m else n;
            && envs[..m] == envs[..n][..k] + (if m > n then [envs[n]] else [])
            && envs[m..] == envs[..n][k..] + if m <= n then [envs[n]] else []
  {
  }

  lemma {:induction false} SplitAt(envs: seq<Envelope>, m: nat, cursor: nat)
    requires m <= |envs|
    requires forall i :: 0 <= i < m ==> envs[i].seqNo <= cursor
    requires forall i :: m <= i < |envs| ==> envs[i].seqNo > cursor
    ensures UpTo(envs, cursor) == envs[..m] && Beyond(envs, cursor) == envs[m..]
    decreases |envs|
  {
    hide UpTo, Beyond;
    if envs == [] {
      CutNone(cursor);
      assert envs[..m] == [] && envs[m..] == [];
    } else {
      var n := |envs| - 1;
      SplitAt(envs[..n], if m <= n then m else n, cursor);
      CutStep(envs, cursor);
      SplitInit(envs, m);
    }
  }

  /** The stream falls apart at any cursor just as the history does. */
  lemma CursorSplits(w: World, cursor: nat) returns (m: nat)
    requires WorldOk(w)
    ensures m <= |w.stream|
    ensures UpTo(w.stream, cursor) == w.stream[..m] && Beyond(w.stream, cursor) == w.stream[m..]
    ensures WireSigs(Missed(w.sys.history, cursor)) == Sigs(w.stream[m..])
  {
    hide WireSigs, Sigs, UpTo, Beyond;
    var h := w.sys.history;
    var k := MinNat(cursor, |h|);
    assert h[..k] + h[k..] == h;
    WireSigsConcat(h[..k], h[k..]);
    m := |WireSigs(h[..k])|;
    SigsAt(w.stream);
    SigsAt(w.stream[..m]);
    SigsAt(w.stream[m..]);
    WireBounds(h[..k], 0, k);
    WireBounds(h[k..], k, |h|);
    forall i | 0 <= i < |w.stream|
      ensures i < m ==> w.stream[i].seqNo <= cursor
      ensures i >= m ==> w.stream[i].seqNo > cursor
    {
      assert Sigs(w.stream)[i] == SigOf(w.stream[i]);
      if i < m {
        assert Sigs(w.stream)[i] == WireSigs(h[..k])[i];
      } else {
        assert Sigs(w.stream)[i] == WireSigs(h[k..])[i - m];
      }
    }
    SplitAt(w.stream, m, cursor);
    assert Sigs(w.stream[m..]) == WireSigs(h[k..]);
  }

  /** A served replay of a sound log is what the log holds for the client. */
  lemma {:induction false} ServedIs(sys: Sys, view: ConnView, me: Wallet, cursor: nat, max: nat)
    requires SysOk(sys) && HubReplay(sys.disk.files, cursor, view, me, max).Ok?
    ensures var served := HubReplay(sys.disk.files, cursor, view, me, max).value;
            var all := Logged(sys.disk.files);
            && (all != [] ==> served == Replayed(Missed(sys.history, cursor), view, me))
            && (all == [] ==> served == [])
  {
    hide Logged, TryReplay, Replayed, Missed;
    CleanReads(sys.disk.files, cursor, max);
    ReplayExact(sys.disk, sys.history, cursor, max);
    NothingAfter(sys.disk.files, cursor, max, view, me);
  }

  lemma {:induction false} NothingAfter(files: map<Day, DayFile>, cursor: nat, max: nat, view: ConnView, me: Wallet)
    ensures Logged(files) == [] ==> Replay(files, cursor, max) == Some([])
    ensures Replayed([], view, me) == []
  {
    hide Logged;
  }

  /** With everything retained, only the bound can refuse a replay. */
  lemma {:induction false} FullyRetained(sys: Sys, view: ConnView, me: Wallet, cursor: nat, max: nat)
    requires SysOk(sys) && Logged(sys.disk.files) == sys.history != []
    requires |Missed(sys.history, cursor)| <= max
    ensures HubReplay(sys.disk.files, cursor, view, me, max) == Ok(Replayed(Missed(sys.history, cursor), view, me))
  {
    hide Logged, TryReplay, Replayed, Missed, Replay;
    CleanReads(sys.disk.files, cursor, max);
    ReplayExact(sys.disk, sys.history, cursor, max);
  }

  /** What a served replay contains, in any reachable world that still retains a record. */
  lemma {:induction false} ReplayIsBeyond(w: World, view: ConnView, me: Wallet, cursor: nat, max: nat)
    requires WorldOk(w) && HubReplay(w.sys.disk.files, cursor, view, me, max).Ok?
    ensures var served := HubReplay(w.sys.disk.files, cursor, view, me, max).value;
            var wanted := Received(Beyond(w.stream, cursor), view, me);
            && (Logged(w.sys.disk.files) != [] ==> Sigs(served) == Sigs(wanted))
            && (Logged(w.sys.disk.files) == [] ==> served == [])
  {
    hide SysOk, HubReplay, Logged, Replayed, Received, Missed, Sigs, WireSigs, Beyond, UpTo;
    var m := CursorSplits(w, cursor);
    ServedIs(w.sys, view, me, cursor, max);
    ReplayedLikeReceived(Missed(w.sys.history, cursor), w.stream[m..], view, me);
  }

  // ------------------------------------------------------------------- theorems ---

  lemma Halves(a: seq<Sig>, b: seq<Sig>, c: seq<Sig>)
    ensures a + b == a + c <==> b == c
  {
    if a + b == a + c {
      assert b == (a + b)[|a|..] && c == (a + c)[|a|..];
    }
  }

  lemma {:induction false} NoSigs(envs: seq<Envelope>)
    ensures Sigs(envs) == [] <==> envs == []
  {
    SigsAt(envs);
  }

  /** Exact resume. In every run, and for any unchanged view: when the replay is served, what the
      client got live up to its cursor followed by the replay is exactly what it would have got
      from the uninterrupted stream, in the same order and with the same number, target, origin
      and event, unless no record at all is retained while something it wants was missed. */
  lemma {:induction false} ExactResume(acts: seq<Act>, view: ConnView, me: Wallet, cursor: nat, max: nat)
    ensures var w := WorldOf(acts);
            var r := HubReplay(w.sys.disk.files, cursor, view, me, max);
            var before := Received(UpTo(w.stream, cursor), view, me);
            r.Ok? ==>
              (Sigs(before) + Sigs(r.value) == Sigs(Received(w.stream, view, me))
               <==> Logged(w.sys.disk.files) != [] || Received(Beyond(w.stream, cursor), view, me) == [])
  {
    hide WorldOf, WorldOk, HubReplay, Logged, Received, Sigs, Beyond, UpTo;
    WorldKeeps(acts);
    var w := WorldOf(acts);
    var r := HubReplay(w.sys.disk.files, cursor, view, me, max);
    if r.Ok? {
      var m := CursorSplits(w, cursor);
      ReplayIsBeyond(w, view, me, cursor, max);
      var before, after := Received(w.stream[..m], view, me), Received(w.stream[m..], view, me);
      assert w.stream[..m] + w.stream[m..] == w.stream;
      ReceivedConcat(w.stream[..m], w.stream[m..], view, me);
      SigsConcat(before, after);
      Halves(Sigs(before), Sigs(r.value), Sigs(after));
      NoSigs(after);
      NoSigs(r.value);
    }
  }

  lemma {:induction false} WireRising(recs: seq<Record>, first: nat)
    requires forall i :: 0 <= i < |recs| ==> recs[i].seqNo == first + i
    ensures Rising(WireSigs(recs))
    ensures forall i :: 0 <= i < |WireSigs(recs)| ==> WireSigs(recs)[i].seqNo < first + |recs|
    decreases |recs|
  {
    if recs != [] {
      WireRising(recs[..|recs| - 1], first);
    }
  }

  lemma StreamRising(w: World)
    requires WorldOk(w)
    ensures Rising(Sigs(w.stream))
  {
    WireRising(w.sys.history, FIRST_SEQ);
  }

  /** The SSE hand-over subscribes first, reads the replay a little later, and then sends every accepted
      event of the live stream from the subscription on. With a cursor issued before the subscription,
      nothing is missed; but a replayable event published between subscription and replay is sent
      twice, so the numbers rise exactly if there is none. Then the client gets what it missed up to
      the subscription, followed by everything accepted since. */
  lemma {:induction false} Handover(acts: seq<Act>, subscribed: nat, replayed: nat,
                                    view: ConnView, me: Wallet, cursor: nat, max: nat)
    requires subscribed <= replayed <= |acts|
    requires cursor <= |WorldOf(acts[..subscribed]).sys.history|
    requires Logged(WorldOf(acts[..replayed]).sys.disk.files) != []
    requires HubReplay(WorldOf(acts[..replayed]).sys.disk.files, cursor, view, me, max).Ok?
    ensures var p0 := |WorldOf(acts[..subscribed]).stream|;
            var p1 := |WorldOf(acts[..replayed]).stream|;
            var stream := WorldOf(acts).stream;
            var served := HubReplay(WorldOf(acts[..replayed]).sys.disk.files, cursor, view, me, max).value;
            p0 <= p1 <= |stream| &&
            var live := Kept(Sigs(stream[p0..]), Accepting(view, me));
            var frames := Sigs(served) + live;
            var wanted := Sigs(Received(Beyond(stream, cursor), view, me));
            var window := Received(stream[p0..p1], view, me);
            && (forall s :: s in wanted ==> s in frames)
            && (Rising(frames) <==> window == [])
            && (window == [] ==> frames == Sigs(Received(Beyond(stream[..p0], cursor), view, me)) + live)
  {
    hide WorldOk, Sigs, Received, UpTo, Beyond, Rising, Logged, HubReplay, Kept;
    var w0, w1, w2 := WorldOf(acts[..subscribed]), WorldOf(acts[..replayed]), WorldOf(acts);
    WorldKeeps(acts[..subscribed]);
    WorldKeeps(acts[..replayed]);
    WorldKeeps(acts);
    assert acts[..replayed][..subscribed] == acts[..subscribed];
    WorldGrows(acts[..replayed], subscribed);
    WorldGrows(acts, replayed);
    ReplayIsBeyond(w1, view, me, cursor, max);
    var m := CursorSplits(w0, cursor);
    SplitKept(w0, w1, cursor, m);
    SplitKept(w0, w2, cursor, m);
    Frames(w2, m, |w0.stream|, |w1.stream|, view, me);
    assert w1.stream[m..] == w2.stream[m..|w1.stream|];
    assert w2.stream[..|w0.stream|] == w0.stream;
    assert w0.stream[m..] == w2.stream[m..|w0.stream|];
  }

  /** Replaying up to `p1` and then delivering live from `p0 <= p1`. */
  lemma {:induction false} Frames(w: World, m: nat, p0: nat, p1: nat, view: ConnView, me: Wallet)
    requires WorldOk(w) && m <= p0 <= p1 <= |w.stream|
    ensures var live := Kept(Sigs(w.stream[p0..]), Accepting(view, me));
            var frames := Sigs(Received(w.stream[m..p1], view, me)) + live;
            var wanted := Sigs(Received(w.stream[m..], view, me));
            var window := Received(w.stream[p0..p1], view, me);
            && (forall s :: s in wanted ==> s in frames)
            && (Rising(frames) <==> window == [])
            && (window == [] ==> frames == Sigs(Received(w.stream[m..p0], view, me)) + live)
  {
    hide WorldOk, Received, Kept, Sigs, Rising;
    var stream := w.stream;
    var a, b, c := stream[m..p0], stream[p0..p1], stream[p1..];
    assert stream[m..p1] == a + b && stream[m..] == a + (b + c) && stream[p0..] == b + c;
    SigsConcat(a, b);
    SigsConcat(b, c);
    SigsConcat(a, b + c);
    SigsConcat(stream[..m], stream[m..]);
    assert stream[..m] + stream[m..] == stream;
    StreamRising(w);
    RisingPart(Sigs(stream[..m]), Sigs(a) + (Sigs(b) + Sigs(c)));
    ReceivedKept(a + b, view, me);
    ReceivedKept(a + (b + c), view, me);
    ReceivedKept(a, view, me);
    ReceivedKept(b, view, me);
    SigsAt(Received(b, view, me));
    KeptConcat(Sigs(a), Sigs(b), Wanting(view, me));
    KeptConcat(Sigs(a), Sigs(b) + Sigs(c), Wanting(view, me));
    Overlap(Sigs(a), Sigs(b), Sigs(c), Wanting(view, me), Accepting(view, me));
  }

  /** A stretch filtered by `narrow` up to the end of `b`, and by the laxer `wide` from its beginning. */
  lemma {:induction false} Overlap(a: seq<Sig>, b: seq<Sig>, c: seq<Sig>, narrow: Sig -> bool, wide: Sig -> bool)
    requires Rising(a + (b + c))
    requires forall s :: narrow(s) ==> wide(s)
    ensures var live := Kept(b + c, wide);
            var frames := Kept(a, narrow) + Kept(b, narrow) + live;
            && (forall s :: s in Kept(a, narrow) + Kept(b + c, narrow) ==> s in frames)
            && (Rising(frames) <==> Kept(b, narrow) == [])
            && (Kept(b, narrow) == [] ==> frames == Kept(a, narrow) + live)
  {
    hide Kept, Rising;
    var na, nb, live := Kept(a, narrow), Kept(b, narrow), Kept(b + c, wide);
    var frames := na + nb + live;
    forall s | s in na + Kept(b + c, narrow) ensures s in frames {
      if s !in na {
        KeptHas(b + c, narrow, s);
        KeptHas(b + c, wide, s);
      }
    }
    if nb != [] {
      var s := nb[0];
      KeptHas(b, narrow, s);
      KeptHas(b + c, wide, s);
      var j :| 0 <= j < |live| && live[j] == s;
      assert frames[|na|] == s && frames[|na| + |nb| + j] == s;
      Repeats(frames, |na|, |na| + |nb| + j);
    } else {
      assert frames == na + live;
      RisingPart(a, b + c);
      KeptRising(a, narrow);
      KeptRising(b + c, wide);
      forall x, y | x in na && y in live ensures x.seqNo < y.seqNo {
        KeptHas(a, narrow, x);
        KeptHas(b + c, wide, y);
        RisingAcross(a, b + c, x, y);
      }
      RisingJoin(na, live);
    }
  }

  /** What is published after a world has more records than the cursor lies beyond the cursor. */
  lemma {:induction false} SplitKept(w0: World, w1: World, cursor: nat, m: nat)
    requires WorldOk(w0) && WorldOk(w1) && Extends(w0, w1) && cursor <= |w0.sys.history|
    requires m <= |w0.stream|
    requires UpTo(w0.stream, cursor) == w0.stream[..m] && Beyond(w0.stream, cursor) == w0.stream[m..]
    ensures UpTo(w1.stream, cursor) == w1.stream[..m] && Beyond(w1.stream, cursor) == w1.stream[m..]
  {
    UpToOnly(w0.stream, cursor);
    LaterNumbers(w0, w1);
    forall i | 0 <= i < |w1.stream|
      ensures i < m ==> w1.stream[i].seqNo <= cursor
      ensures i >= m ==> w1.stream[i].seqNo > cursor
    {
      if i < m {
        assert w1.stream[i] == UpTo(w0.stream, cursor)[i];
      } else if i < |w0.stream| {
        assert w1.stream[i] == Beyond(w0.stream, cursor)[i - m];
      }
    }
    SplitAt(w1.stream, m, cursor);
  }

  lemma LaterNumbers(w0: World, w1: World)
    requires WorldOk(w0) && WorldOk(w1) && Extends(w0, w1)
    ensures forall i :: |w0.stream| <= i < |w1.stream| ==> w1.stream[i].seqNo > |w0.sys.history|
  {
    hide WireSigs, Sigs;
    var h0, h1 := w0.sys.history, w1.sys.history;
    var tail := h1[|h0|..];
    assert h0 + tail == h1;
    WireSigsConcat(h0, tail);
    WireBounds(tail, |h0|, |h1|);
    SigsAt(w0.stream);
    SigsAt(w1.stream);
    forall i | |w0.stream| <= i < |w1.stream| ensures w1.stream[i].seqNo > |h0| {
      assert Sigs(w1.stream)[i] == WireSigs(tail)[i - |w0.stream|];
    }
  }

  lemma {:induction false} UpToOnly(envs: seq<Envelope>, cursor: nat)
    ensures forall i :: 0 <= i < |UpTo(envs, cursor)| ==> UpTo(envs, cursor)[i].seqNo <= cursor
    ensures forall i :: 0 <= i < |Beyond(envs, cursor)| ==> Beyond(envs, cursor)[i].seqNo > cursor
    decreases |envs|
  {
    if envs != [] {
      UpToOnly(envs[..|envs| - 1], cursor);
    }
  }

}
