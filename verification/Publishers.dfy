/** Publishing as it really interleaves: appending to the log and sending are two steps, many
    publishers may be between them, and the process may crash at any time. */
module Publishers {
  import opened Wrappers
  import opened Events
  import opened LogModel
  import opened LogSafety
  import opened HubModel
  import opened Delivery

  type Publisher = nat

  /** `pending` holds what was logged and not yet sent; `lost` the numbers of the events that were logged
      and never will be, because the process died in between or nobody meant to send them. */
  datatype Site = Site(sys: Sys, pending: map<Publisher, Envelope>, sent: seq<Envelope>, lost: set<nat>)

  datatype Move =
    | AppendFirst(p: Publisher, clk: Clock, now: int, target: Target, origin: Option<Wallet>, event: ServerEvent,
                  fanout: nat)
    | SendAfter(p: Publisher)
    | LogStep(step: Step)

  function MoveEntry(m: Move): Entry
    requires m.AppendFirst?
  {
    Entry(Realtime, Some(m.target), m.origin, Wire(m.event), Some(m.fanout))
  }

  predicate Dies(step: Step) {
    step.Crash? || step.CrashInAppend? || step.CrashInOpen?
  }

  ghost predicate CanMove(s: Site, m: Move) {
    match m
    case AppendFirst(p, clk, _, _, _, _, _) => p !in s.pending && Enabled(s.sys, DoAppend(clk, MoveEntry(m)))
    case SendAfter(p) => p in s.pending
    case LogStep(step) => Enabled(s.sys, step)
  }

  /** Record number `n` is a wire event. */
  predicate IsWire(h: seq<Record>, n: nat) {
    FIRST_SEQ <= n < |h| + FIRST_SEQ && WireOf(h[n - FIRST_SEQ]) != []
  }

  /** The wire events beyond a given number. */
  ghost function WireBeyond(h: seq<Record>, from: nat): set<nat> {
    set n | from < n < |h| + FIRST_SEQ && IsWire(h, n)
  }

  ghost function PendingNumbers(s: Site): set<nat> {
    set p | p in s.pending :: s.pending[p].seqNo
  }

  /** Publishers append through `AppendFirst`; every other record, and every crash, also of a
      publisher's own append, is a step of the log. */
  ghost function Moved(s: Site, m: Move): Site {
    if !CanMove(s, m) then s else
    match m
    case AppendFirst(p, clk, now, target, origin, event, _) =>
      var seqNo := Rotated(s.sys.mem.value, clk).nextSeq;
      Site(Next(s.sys, DoAppend(clk, MoveEntry(m))),
           s.pending[p := Envelope(seqNo, now, target, origin, event)],
           s.sent, s.lost)
    case SendAfter(p) => Site(s.sys, s.pending - {p}, s.sent + [s.pending[p]], s.lost)
    case LogStep(step) =>
      var sys := Next(s.sys, step);
      Site(sys,
           if Dies(step) then map[] else s.pending,
           s.sent,
           s.lost + WireBeyond(sys.history, |s.sys.history|) + if Dies(step) then PendingNumbers(s) else {})
  }

  ghost function SiteOf(moves: seq<Move>): Site {
    if moves == [] then Site(FRESH, map[], [], {}) else Moved(SiteOf(moves[..|moves| - 1]), moves[|moves| - 1])
  }

  /** The history has this envelope's record at the place its number says. */
  ghost predicate OnRecord(h: seq<Record>, env: Envelope) {
    && FIRST_SEQ <= env.seqNo < |h| + FIRST_SEQ
    && WireOf(h[env.seqNo - FIRST_SEQ]) == [SigOf(env)]
  }

  ghost predicate IsSent(s: Site, n: nat) {
    exists i :: 0 <= i < |s.sent| && s.sent[i].seqNo == n
  }

  ghost predicate IsPending(s: Site, n: nat) {
    exists p :: p in s.pending && s.pending[p].seqNo == n
  }

  /** Every wire event that was logged is sent, pending or lost. */
  ghost predicate Accounted(s: Site) {
    forall n: nat :: IsWire(s.sys.history, n) ==> IsSent(s, n) || IsPending(s, n) || n in s.lost
  }

  /** None is two of these, and none is sent or pending twice. */
  ghost predicate Apart(s: Site) {
    && (forall i, j :: 0 <= i < j < |s.sent| ==> s.sent[i].seqNo != s.sent[j].seqNo)
    && (forall p, q :: p in s.pending && q in s.pending && p != q ==> s.pending[p].seqNo != s.pending[q].seqNo)
    && (forall p, i :: p in s.pending && 0 <= i < |s.sent| ==> s.pending[p].seqNo != s.sent[i].seqNo)
    && (forall p :: p in s.pending ==> s.pending[p].seqNo !in s.lost)
    && (forall i :: 0 <= i < |s.sent| ==> s.sent[i].seqNo !in s.lost)
  }

  ghost predicate Backed(s: Site) {
    && (forall p :: p in s.pending ==> OnRecord(s.sys.history, s.pending[p]))
    && (forall i :: 0 <= i < |s.sent| ==> OnRecord(s.sys.history, s.sent[i]))
    && (forall n :: n in s.lost ==> n <= |s.sys.history|)
  }

  ghost predicate SiteOk(s: Site) {
    SysOk(s.sys) && Backed(s) && Apart(s) && Accounted(s)
  }

  /** An append puts its record at the end of the history, at the place its number says; a rotation
      record before it is no wire event. */
  lemma AppendLands(s: Sys, clk: Clock, e: Entry)
    requires SysOk(s) && Enabled(s, DoAppend(clk, e))
    ensures var h := Next(s, DoAppend(clk, e)).history;
            var seqNo := Rotated(s.mem.value, clk).nextSeq;
            && s.history <= h && |s.history| < seqNo
            && seqNo == |h| && h[seqNo - FIRST_SEQ] == Stamp(seqNo, clk.ms, e)
            && forall n :: |s.history| < n < seqNo ==> !IsWire(h, n)
  {
    AppendPuts(s.mem.value, clk, e);
  }

  /** What is on record stays on record as the history grows. */
  lemma BackedStays(s: Site, sys: Sys)
    requires Backed(s) && s.sys.history <= sys.history
    ensures Backed(s.(sys := sys))
  {
  }

  /** A publisher holding a number beyond all others. */
  lemma PendingAdded(s: Site, sys: Sys, p: Publisher, env: Envelope)
    requires Backed(s) && Apart(s) && s.sys.history <= sys.history && p !in s.pending
    requires OnRecord(sys.history, env) && env.seqNo > |s.sys.history|
    ensures var s' := Site(sys, s.pending[p := env], s.sent, s.lost); Backed(s') && Apart(s')
  {
    assert forall q :: q in s.pending ==> OnRecord(s.sys.history, s.pending[q]);
    assert forall i :: 0 <= i < |s.sent| ==> OnRecord(s.sys.history, s.sent[i]);
    BackedStays(s, sys);
  }

  lemma AppendBacked(s: Site, m: Move)
    requires SiteOk(s) && m.AppendFirst? && CanMove(s, m)
    ensures SysOk(Moved(s, m).sys) && Backed(Moved(s, m)) && Apart(Moved(s, m))
  {
    hide SysOk, AppendWrites, AppendMem, Puts, ApplyAll, Next, Accounted, Backed, Apart;
    var step := DoAppend(m.clk, MoveEntry(m));
    StepKeeps(s.sys, step);
    AppendLands(s.sys, m.clk, MoveEntry(m));
    var env := Envelope(Rotated(s.sys.mem.value, m.clk).nextSeq, m.now, m.target, m.origin, m.event);
    PendingAdded(s, Next(s.sys, step), m.p, env);
  }

  lemma AppendAccounted(s: Site, m: Move)
    requires SiteOk(s) && m.AppendFirst? && CanMove(s, m)
    ensures Accounted(Moved(s, m))
  {
    hide SysOk, AppendWrites, AppendMem, Puts, ApplyAll, Next, Backed, Apart;
    AppendLands(s.sys, m.clk, MoveEntry(m));
    var s' := Moved(s, m);
    forall n: nat | IsWire(s'.sys.history, n) ensures IsSent(s', n) || IsPending(s', n) || n in s'.lost {
      if n <= |s.sys.history| {
        assert IsWire(s.sys.history, n);
        if IsPending(s, n) {
          var p :| p in s.pending && s.pending[p].seqNo == n;
          assert s'.pending[p] == s.pending[p];
        } else if IsSent(s, n) {
          assert s'.sent == s.sent;
        }
      } else {
        assert s'.pending[m.p].seqNo == n;
      }
    }
  }

  lemma SentMoves(s: Site, p: Publisher, n: nat)
    requires p in s.pending
    ensures var s' := Moved(s, SendAfter(p));
            IsSent(s, n) || IsPending(s, n) ==> IsSent(s', n) || IsPending(s', n)
  {
    hide Next, Enabled;
    var s' := Moved(s, SendAfter(p));
    if IsSent(s, n) {
      var i :| 0 <= i < |s.sent| && s.sent[i].seqNo == n;
      assert s'.sent[i].seqNo == n;
    } else if IsPending(s, n) {
      var q :| q in s.pending && s.pending[q].seqNo == n;
      if q == p {
        assert s'.sent[|s.sent|].seqNo == n;
      } else {
        assert q in s'.pending && s'.pending[q].seqNo == n;
      }
    }
  }

  lemma SendApart(s: Site, p: Publisher)
    requires Backed(s) && Apart(s) && p in s.pending
    ensures Backed(Moved(s, SendAfter(p))) && Apart(Moved(s, SendAfter(p)))
  {
    hide OnRecord, Next, Enabled;
  }

  lemma SendKeeps(s: Site, p: Publisher)
    requires SiteOk(s) && p in s.pending
    ensures SiteOk(Moved(s, SendAfter(p)))
  {
    hide SysOk, Backed, Apart, IsSent, IsPending, IsWire, Next, Enabled;
    SendApart(s, p);
    var s' := Moved(s, SendAfter(p));
    forall n: nat | IsWire(s'.sys.history, n) ensures IsSent(s', n) || IsPending(s', n) || n in s'.lost {
      SentMoves(s, p, n);
    }
  }

  lemma LogStepKeeps(s: Site, step: Step)
    requires SiteOk(s) && Enabled(s.sys, step)
    ensures SiteOk(Moved(s, LogStep(step)))
  {
    hide SysOk, OnRecord, Next, Enabled;
    var s' := Moved(s, LogStep(step));
    var sys := Next(s.sys, step);
    StepKeeps(s.sys, step);
    BackedStays(s, sys);
    LossesBounded(s, step);
    forall n: nat | IsWire(sys.history, n) ensures IsSent(s', n) || IsPending(s', n) || n in s'.lost {
      if n <= |s.sys.history| {
        assert IsWire(s.sys.history, n);
        if IsSent(s, n) {
          var i :| 0 <= i < |s.sent| && s.sent[i].seqNo == n;
          assert s'.sent[i].seqNo == n;
        } else if IsPending(s, n) {
          var p :| p in s.pending && s.pending[p].seqNo == n;
          assert n in PendingNumbers(s);
          assert Dies(step) || s'.pending[p].seqNo == n;
        }
      } else {
        assert n in WireBeyond(sys.history, |s.sys.history|);
      }
    }
  }

  lemma LossesBounded(s: Site, step: Step)
    requires Backed(s) && Apart(s) && Enabled(s.sys, step) && s.sys.history <= Next(s.sys, step).history
    ensures Backed(Moved(s, LogStep(step))) && Apart(Moved(s, LogStep(step)))
  {
    hide Next, Enabled;
    var s' := Moved(s, LogStep(step));
    BackedStays(s, s'.sys);
    forall i | 0 <= i < |s.sent| ensures s.sent[i].seqNo !in s'.lost {
      assert OnRecord(s.sys.history, s.sent[i]);
    }
    forall p | p in s'.pending ensures s'.pending[p].seqNo !in s'.lost {
      assert OnRecord(s.sys.history, s.pending[p]);
    }
  }

  lemma MoveKeeps(s: Site, m: Move)
    requires SiteOk(s)
    ensures SiteOk(Moved(s, m))
    ensures s.sent <= Moved(s, m).sent && s.sys.history <= Moved(s, m).sys.history
  {
    hide SysOk, Backed, Apart, Accounted, Next, Enabled;
    if CanMove(s, m) {
      match m {
        case AppendFirst(_, clk, _, _, _, _, _) =>
          AppendBacked(s, m);
          AppendAccounted(s, m);
          StepKeeps(s.sys, DoAppend(clk, MoveEntry(m)));
        case SendAfter(p) =>
          SendKeeps(s, p);
        case LogStep(step) =>
          LogStepKeeps(s, step);
          StepKeeps(s.sys, step);
      }
    }
  }

  lemma {:induction false} SiteKeeps(moves: seq<Move>)
    ensures SiteOk(SiteOf(moves)) && Sequenced(SiteOf(moves).sys.history)
    decreases |moves|
  {
    if moves != [] {
      SiteKeeps(moves[..|moves| - 1]);
      MoveKeeps(SiteOf(moves[..|moves| - 1]), moves[|moves| - 1]);
    } else {
      assert SysOk(FRESH);
    }
  }

  /** What was sent and logged by the time of a prefix is still so later. */
  lemma {:induction false} SiteGrows(moves: seq<Move>, k: nat)
    requires k <= |moves|
    ensures SiteOf(moves[..k]).sent <= SiteOf(moves).sent
    ensures SiteOf(moves[..k]).sys.history <= SiteOf(moves).sys.history
    decreases |moves|
  {
    hide SiteOk, Moved;
    if k < |moves| {
      var n := |moves| - 1;
      SiteGrows(moves[..n], k);
      assert moves[..n][..k] == moves[..k];
      SiteKeeps(moves[..n]);
      MoveKeeps(SiteOf(moves[..n]), moves[n]);
    } else {
      assert moves[..k] == moves;
    }
  }

  /** In every interleaving with crashes at any point, each delivered envelope has exactly one log
      record with its number, and that record carries the same target, origin and event; and no
      number is delivered twice. */
  lemma {:induction false} DeliveredOnRecord(moves: seq<Move>, i: nat)
    requires i < |SiteOf(moves).sent|
    ensures var s := SiteOf(moves);
            var env := s.sent[i];
            && (forall k :: 0 <= k < |s.sys.history| ==>
                  (s.sys.history[k].seqNo == env.seqNo <==> k == env.seqNo - FIRST_SEQ))
            && FIRST_SEQ <= env.seqNo < |s.sys.history| + FIRST_SEQ
            && EnvelopeOf(s.sys.history[env.seqNo - FIRST_SEQ]).Some?
            && SigOf(EnvelopeOf(s.sys.history[env.seqNo - FIRST_SEQ]).value) == SigOf(env)
            && (forall j :: 0 <= j < |s.sent| && s.sent[j].seqNo == env.seqNo ==> j == i)
  {
    SiteKeeps(moves);
    var s := SiteOf(moves);
    assert OnRecord(s.sys.history, s.sent[i]);
  }

  /** In every interleaving each logged wire event is sent, or waits to be, or was lost, and only one of
      these; what is lost stays unsent. */
  lemma {:induction false} FatesAreExclusive(moves: seq<Move>, n: nat)
    ensures var s := SiteOf(moves);
            && (IsWire(s.sys.history, n) ==> IsSent(s, n) || IsPending(s, n) || n in s.lost)
            && !(IsSent(s, n) && IsPending(s, n))
            && !(IsSent(s, n) && n in s.lost)
            && !(IsPending(s, n) && n in s.lost)
  {
    SiteKeeps(moves);
  }
}
