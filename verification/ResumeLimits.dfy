/** Runs that reach the exceptions in the theorems about resuming: a hand-over that repeats an event, and
    a replay served over a log from which everything was deleted. */
module ResumeLimits {
  import opened Wrappers
  import opened Events
  import opened LogModel
  import opened LogSafety
  import opened HubModel
  import opened Delivery
  import opened Resume

  // ------------------------------------------------------------- opening, publishing ---

  function FirstEnvelope(target: Target, event: ServerEvent): Envelope {
    Envelope(FIRST_SEQ, 0, target, None, event)
  }

  function Opening(clk: Clock): Act {
    Log(DoOpen(clk.day, clk))
  }

  function Publishing(clk: Clock, target: Target, event: ServerEvent): Act {
    Publish(clk, 0, target, None, event, 0)
  }

  lemma FreshOpen(clk: Clock)
    ensures var w := WorldOf([Opening(clk)]);
            && w.stream == [] && w.sys.history == [] && Logged(w.sys.disk.files) == []
            && w.sys.mem == Some(Mem(FIRST_SEQ, clk.day, 0)) && w.sys.disk.files.Keys == {clk.day}
  {
    hide Logged;
    var acts := [Opening(clk)];
    assert acts[..0] == [] && WorldOf([]) == World(FRESH, []);
    assert Recover(EMPTY_DISK) == Recovery(FIRST_SEQ, false, false);
    var open := OpenFile(clk.day);
    assert OpenWrites(EMPTY_DISK, clk.day, clk) == [open];
    PutsOne(open);
    ApplyOne(EMPTY_DISK, open);
    LoggedOpen(EMPTY_DISK, clk.day);
    LoggedStep(EMPTY_DISK.files);
  }

  /** One event has been published: it is the whole stream, and its record is the whole log. */
  lemma OnePublished(clk: Clock, target: Target, event: ServerEvent)
    ensures var w := WorldOf([Opening(clk), Publishing(clk, target, event)]);
            && WorldOk(w)
            && w.stream == [FirstEnvelope(target, event)] && |w.sys.history| == 1
            && Logged(w.sys.disk.files) == w.sys.history
            && w.sys.mem.Some? && w.sys.mem.value.nextSeq == 2 && w.sys.mem.value.day == clk.day
            && w.sys.disk.files.Keys == {clk.day}
  {
    hide Logged, WireSigs, Sigs, ApplyAll, Puts;
    var open, publish := Opening(clk), Publishing(clk, target, event);
    var acts := [open, publish];
    assert acts[..1] == [open];
    FreshOpen(clk);
    var w0 := WorldOf([open]);
    var step := DoAppend(clk, PublishEntry(publish));
    WorldKeeps([open]);
    WorldKeeps(acts);
    StepKeeps(w0.sys, step);
    AppendPuts(w0.sys.mem.value, clk, PublishEntry(publish));
    SameDay(w0.sys.disk, w0.sys.mem.value, clk, PublishEntry(publish));
    assert [] + [FirstEnvelope(target, event)] == [FirstEnvelope(target, event)];
  }

  lemma {:induction false} SameDay(d: Disk, mem: Mem, clk: Clock, e: Entry)
    requires mem.day == clk.day && clk.day in d.files
    ensures ApplyAll(d, AppendWrites(mem, clk, e)).files.Keys == d.files.Keys
  {
    hide ApplyAll;
    var put := PutLine(clk.day, Stamp(mem.nextSeq, clk.ms, e));
    if SyncDue(mem, clk) {
      var mark := PutMarker(mem.nextSeq + 1);
      TwoWrites(d, put, mark);
      assert AppendWrites(mem, clk, e) == [put, mark];
    } else {
      assert AppendWrites(mem, clk, e) == [put];
      ApplyOne(d, put);
    }
  }

  lemma {:induction false} OneReceived(env: Envelope, view: ConnView, me: Wallet)
    requires Wants(view, me, env)
    ensures Received([env], view, me) == [env]
    ensures Sigs([env]) == [SigOf(env)] && Kept([SigOf(env)], Accepting(view, me)) == [SigOf(env)]
  {
    assert [env][..0] == [] && [SigOf(env)][..0] == [];
    assert Received([], view, me) == [] && Sigs([]) == [] && Kept([], Accepting(view, me)) == [];
  }

  // --------------------------------------------------------------------- witnesses ---

  /** The failing case of `Handover`: an event published after the subscription and before the replay
      comes twice. */
  lemma HandoverRepeats(clk: Clock, target: Target, event: ServerEvent, view: ConnView, me: Wallet, max: nat)
    returns (acts: seq<Act>)
    requires Wants(view, me, FirstEnvelope(target, event)) && max > 0
    ensures acts == [Opening(clk), Publishing(clk, target, event)]
    ensures var served := HubReplay(WorldOf(acts).sys.disk.files, 0, view, me, max);
            var p0 := |WorldOf(acts[..1]).stream|;
            served.Ok? && p0 <= |WorldOf(acts).stream| &&
            var frames := Sigs(served.value) + Kept(Sigs(WorldOf(acts).stream[p0..]), Accepting(view, me));
            var s := SigOf(FirstEnvelope(target, event));
            frames == [s, s] && !Rising(frames)
  {
    hide WorldOf, Logged, Received, Sigs, Kept;
    acts := [Opening(clk), Publishing(clk, target, event)];
    var env := FirstEnvelope(target, event);
    var w := WorldOf(acts);
    FreshOpen(clk);
    assert acts[..1] == [Opening(clk)];
    OnePublished(clk, target, event);
    CleanReads(w.sys.disk.files, 0, max);
    ReplayExact(w.sys.disk, w.sys.history, 0, max);
    ReplayIsBeyond(w, view, me, 0, max);
    SplitAt(w.stream, 0, 0);
    assert w.stream[0..] == [env];
    OneReceived(env, view, me);
    Repeats([SigOf(env), SigOf(env)], 0, 1);
  }

  /** Log an event, stop cleanly, go on the next day, delete the old file. */
  function Emptying(one: Clock, two: Clock, target: Target, event: ServerEvent): seq<Act> {
    [Opening(one), Publishing(one, target, event), Log(DoFlush), Log(Crash), Opening(two), Log(DeleteOldest(one.day))]
  }

  lemma FlushThenCrash(w: World)
    requires w.sys.mem.Some?
    ensures Resume.Perform(Resume.Perform(w, Log(DoFlush)), Log(Crash))
         == World(Sys(w.sys.disk.(marker := w.sys.mem.value.nextSeq), None, w.sys.history), w.stream)
  {
    var mark := PutMarker(w.sys.mem.value.nextSeq);
    PutsOne(mark);
    assert w.sys.history + [] == w.sys.history;
    ApplyOne(w.sys.disk, mark);
  }

  lemma FlushedAndDown(clk: Clock, target: Target, event: ServerEvent)
    ensures var w1 := WorldOf([Opening(clk), Publishing(clk, target, event)]);
            var w := WorldOf([Opening(clk), Publishing(clk, target, event), Log(DoFlush), Log(Crash)]);
            && WorldOk(w) && w.stream == w1.stream && w.sys.history == w1.sys.history && w.sys.mem == None
            && w.sys.disk.files == w1.sys.disk.files && w.sys.disk.marker == 2
  {
    hide Logged, WorldOk, WorldOf, Next, Enabled;
    var acts := [Opening(clk), Publishing(clk, target, event), Log(DoFlush), Log(Crash)];
    OnePublished(clk, target, event);
    WorldKeeps(acts);
    assert acts[..3][..2] == [Opening(clk), Publishing(clk, target, event)];
    FlushThenCrash(WorldOf(acts[..3][..2]));
    WorldSteps(acts);
    WorldSteps(acts[..3]);
  }

  lemma {:induction false} WorldSteps(acts: seq<Act>)
    requires acts != []
    ensures WorldOf(acts) == Resume.Perform(WorldOf(acts[..|acts| - 1]), acts[|acts| - 1])
  {
  }

  lemma ReopenedAndEmptied(w: World, one: Day, clk: Clock)
    requires WorldOk(w) && w.sys.mem == None && |w.sys.history| == 1 && w.sys.disk.marker == 2
    requires w.sys.disk.files.Keys == {one} && one < clk.day
    ensures var w' := Resume.Perform(Resume.Perform(w, Opening(clk)), Log(DeleteOldest(one)));
            w'.stream == w.stream && w'.sys.history == w.sys.history && Logged(w'.sys.disk.files) == []
  {
    hide Logged, Parsed, WireSigs, Sigs;
    var d := w.sys.disk;
    FromFilesExact(d, w.sys.history);
    var open, delete := OpenFile(clk.day), DeleteFile(one);
    assert OpenWrites(d, clk.day, clk) == [open];
    PutsOne(open);
    PutsOne(delete);
    assert w.sys.history + [] == w.sys.history;
    var d1 := ApplyWrite(d, open);
    ApplyOne(d, open);
    ApplyOne(d1, delete);
    var w1 := Resume.Perform(w, Opening(clk));
    assert w1.sys.disk == d1 && w1.sys.history == w.sys.history;
    assert one in d1.files && clk.day in d1.files && one < clk.day;
    var files := d1.files - {one};
    assert files.Keys == {clk.day};
    LoggedStep(files);
    assert files - {clk.day} == map[];
    LoggedStep(files - {clk.day});
    ParsedNothing();
  }

  lemma ParsedNothing()
    ensures Parsed([]) == []
  {
  }

  lemma {:induction false} NothingRetained(files: map<Day, DayFile>, cursor: nat, view: ConnView, me: Wallet, max: nat)
    requires Clean(files) && Logged(files) == []
    ensures HubReplay(files, cursor, view, me, max) == Ok([])
  {
    hide Logged, TryReplay;
    CleanReads(files, cursor, max);
    assert After([], cursor) == [] && Replayed([], view, me) == [];
  }

  /** The failing case of `ReplayExact` and `ExactResume`: the replay is served, and empty, although the
      client has not received the one event there was. */
  lemma EmptiedLogUnderDelivers(one: Clock, two: Clock, target: Target, event: ServerEvent,
                                view: ConnView, me: Wallet, max: nat)
    returns (acts: seq<Act>)
    requires one.day < two.day && Wants(view, me, FirstEnvelope(target, event))
    ensures acts == Emptying(one, two, target, event)
    ensures var w := WorldOf(acts);
            && HubReplay(w.sys.disk.files, 0, view, me, max) == Ok([])
            && Received(Beyond(w.stream, 0), view, me) == [FirstEnvelope(target, event)]
            && Missed(w.sys.history, 0) == w.sys.history != []
  {
    hide Logged, Received, Sigs, WireSigs, Next, WorldOf, HubReplay, UpTo, Beyond;
    acts := Emptying(one, two, target, event);
    var down := acts[..5][..4];
    assert down == [Opening(one), Publishing(one, target, event), Log(DoFlush), Log(Crash)];
    OnePublished(one, target, event);
    FlushedAndDown(one, target, event);
    ReopenedAndEmptied(WorldOf(down), one.day, two);
    var w := WorldOf(acts);
    WorldSteps(acts[..5]);
    WorldSteps(acts);
    WorldKeeps(acts);
    NothingRetained(w.sys.disk.files, 0, view, me, max);
    SplitAt(w.stream, 0, 0);
    assert w.stream[0..] == [FirstEnvelope(target, event)];
    OneReceived(FirstEnvelope(target, event), view, me);
  }
}
