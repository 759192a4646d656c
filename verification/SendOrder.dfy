/** When delivery follows the numbers although appending and sending are two steps. */
module SendOrder {
  import opened Wrappers
  import opened Events
  import opened LogModel
  import opened LogSafety
  import opened HubModel
  import opened Publishers

  /** The numbers rise in the order of sending. */
  predicate InOrder(envs: seq<Envelope>) {
    forall i, j :: 0 <= i < j < |envs| ==> envs[i].seqNo < envs[j].seqNo
  }

  /** Move `k` sends something. */
  ghost predicate Sends(moves: seq<Move>, k: nat) {
    k < |moves| && moves[k].SendAfter? && moves[k].p in SiteOf(moves[..k]).pending
  }

  /** Move `k` sends while another publisher holds a lower number, and that one is sent too, later. */
  ghost predicate Overtakes(moves: seq<Move>, k: nat) {
    && Sends(moves, k)
    && var s := SiteOf(moves[..k]);
       exists q :: && q in s.pending && s.pending[q].seqNo < s.pending[moves[k].p].seqNo
                   && IsSent(SiteOf(moves), s.pending[q].seqNo)
  }

  // ---------------------------------------------------------- what is sent when ---

  lemma {:induction false} SiteSteps(moves: seq<Move>)
    requires moves != []
    ensures SiteOf(moves) == Moved(SiteOf(moves[..|moves| - 1]), moves[|moves| - 1])
  {
  }

  /** Right after a sending move the stream is one longer, by what that publisher held. */
  lemma {:induction false} SendsNext(moves: seq<Move>, k: nat)
    requires Sends(moves, k)
    ensures var s := SiteOf(moves[..k]);
            s.sent + [s.pending[moves[k].p]] <= SiteOf(moves).sent
  {
    assert moves[..k + 1][..k] == moves[..k];
    SiteSteps(moves[..k + 1]);
    SiteGrows(moves, k + 1);
  }

  /** Every element of the stream was sent by some move. */
  lemma {:induction false} SentBy(moves: seq<Move>, i: nat) returns (k: nat)
    requires i < |SiteOf(moves).sent|
    ensures Sends(moves, k) && |SiteOf(moves[..k]).sent| == i
    ensures SiteOf(moves[..k]).pending[moves[k].p] == SiteOf(moves).sent[i]
    decreases |moves|
  {
    var n := |moves| - 1;
    var s := SiteOf(moves[..n]);
    SiteSteps(moves);
    if i < |s.sent| {
      k := SentBy(moves[..n], i);
      assert moves[..n][..k] == moves[..k];
      SiteGrows(moves, n);
    } else {
      k := n;
    }
  }

  /** What was pending at a prefix, or numbered only after it. */
  ghost predicate Later(s: Site, env: Envelope) {
    env.seqNo > |s.sys.history| || exists p :: p in s.pending && s.pending[p] == env
  }

  lemma LaterStep(s: Site, t: Site, m: Move)
    requires SiteOk(t) && s.sys.history <= t.sys.history
    requires forall p :: p in t.pending ==> Later(s, t.pending[p])
    ensures var t' := Moved(t, m);
            && (forall p :: p in t'.pending ==> Later(s, t'.pending[p]))
            && (forall i :: |t.sent| <= i < |t'.sent| ==> Later(s, t'.sent[i]))
  {
    hide SysOk, Backed, Apart, Accounted, Next, Enabled, Later;
    if CanMove(t, m) && m.AppendFirst? {
      AppendLands(t.sys, m.clk, MoveEntry(m));
      var t' := Moved(t, m);
      assert Later(s, t'.pending[m.p]) by {
        NumberedLater(s, t'.pending[m.p]);
      }
      assert forall p :: p in t'.pending && p != m.p ==> t'.pending[p] == t.pending[p];
    }
  }

  lemma NumberedLater(s: Site, env: Envelope)
    requires env.seqNo > |s.sys.history|
    ensures Later(s, env)
  {
  }

  /** After a prefix only what it left pending, or what was appended later, is sent. */
  lemma {:induction false} SentLater(moves: seq<Move>, k: nat)
    requires k <= |moves|
    ensures var s, t := SiteOf(moves[..k]), SiteOf(moves);
            && (forall p :: p in t.pending ==> Later(s, t.pending[p]))
            && (forall i :: |s.sent| <= i < |t.sent| ==> Later(s, t.sent[i]))
    decreases |moves|
  {
    hide SiteOk, Moved, Later;
    var s := SiteOf(moves[..k]);
    if k < |moves| {
      var n := |moves| - 1;
      var t := SiteOf(moves[..n]);
      assert moves[..n][..k] == moves[..k];
      SentLater(moves[..n], k);
      SiteGrows(moves[..n], k);
      SiteKeeps(moves[..n]);
      LaterStep(s, t, moves[n]);
      SiteGrows(moves, n);
      SiteSteps(moves);
    } else {
      assert moves[..k] == moves;
      forall p | p in s.pending ensures Later(s, s.pending[p]) {
        PendingLater(s, p);
      }
    }
  }

  lemma PendingLater(s: Site, p: Publisher)
    requires p in s.pending
    ensures Later(s, s.pending[p])
  {
  }

  // --------------------------------------------------------------------- theorem ---

  lemma InversionOvertakes(moves: seq<Move>, i: nat, j: nat) returns (k: nat)
    requires i < j < |SiteOf(moves).sent| && SiteOf(moves).sent[i].seqNo >= SiteOf(moves).sent[j].seqNo
    ensures Overtakes(moves, k)
  {
    hide SysOk, Accounted, Moved;
    var t := SiteOf(moves);
    k := SentBy(moves, i);
    var s := SiteOf(moves[..k]);
    SiteKeeps(moves);
    SiteKeeps(moves[..k]);
    SentLater(moves, k);
    assert Later(s, t.sent[j]);
    assert OnRecord(s.sys.history, t.sent[i]);
    var q :| q in s.pending && s.pending[q] == t.sent[j];
    assert IsSent(t, s.pending[q].seqNo);
  }

  lemma {:induction false} OvertakingInverts(moves: seq<Move>, k: nat)
    requires Overtakes(moves, k)
    ensures !InOrder(SiteOf(moves).sent)
  {
    hide SysOk, Accounted, Backed, Moved;
    var s, t := SiteOf(moves[..k]), SiteOf(moves);
    SiteKeeps(moves[..k]);
    SendsNext(moves, k);
    var i := |s.sent|;
    assert t.sent[i] == s.pending[moves[k].p];
    var q :| && q in s.pending && s.pending[q].seqNo < s.pending[moves[k].p].seqNo
             && IsSent(t, s.pending[q].seqNo);
    var j :| 0 <= j < |t.sent| && t.sent[j].seqNo == s.pending[q].seqNo;
    assert t.sent[..i] == s.sent;
    assert forall a :: 0 <= a < i ==> t.sent[a] == s.sent[a];
    assert i < j;
  }

  /** In every interleaving, the numbers rise in the order of sending if and only if no publisher sends
      while another one holds a lower number that is still to be sent. */
  lemma {:induction false} OrderExactly(moves: seq<Move>)
    ensures InOrder(SiteOf(moves).sent) <==> forall k :: 0 <= k < |moves| ==> !Overtakes(moves, k)
  {
    hide InOrder, Overtakes;
    if exists k :: 0 <= k < |moves| && Overtakes(moves, k) {
      var k :| 0 <= k < |moves| && Overtakes(moves, k);
      OvertakingInverts(moves, k);
    } else if !InOrder(SiteOf(moves).sent) {
      var i, j := NotInOrder(SiteOf(moves).sent);
      var k := InversionOvertakes(moves, i, j);
      MoveIndex(moves, k);
    }
  }

  lemma NotInOrder(envs: seq<Envelope>) returns (i: nat, j: nat)
    requires !InOrder(envs)
    ensures i < j < |envs| && envs[i].seqNo >= envs[j].seqNo
  {
    i, j :| 0 <= i < j < |envs| && envs[i].seqNo >= envs[j].seqNo;
  }

  lemma MoveIndex(moves: seq<Move>, k: nat)
    requires Overtakes(moves, k)
    ensures k < |moves|
  {
  }

  /** One publisher at a time between its two steps is enough. */
  lemma {:induction false} OneAtATime(moves: seq<Move>)
    requires forall k :: 0 <= k <= |moves| ==> |SiteOf(moves[..k]).pending| <= 1
    ensures InOrder(SiteOf(moves).sent)
  {
    forall k | 0 <= k < |moves| ensures !Overtakes(moves, k) {
      if Overtakes(moves, k) {
        var s := SiteOf(moves[..k]);
        var p := moves[k].p;
        var q :| q in s.pending && s.pending[q].seqNo < s.pending[p].seqNo;
        assert {p, q} <= s.pending.Keys;
        TwoKeys(s.pending, p, q);
        assert false;
      }
    }
    OrderExactly(moves);
  }

  lemma TwoKeys<T>(m: map<Publisher, T>, p: Publisher, q: Publisher)
    requires p in m && q in m && p != q
    ensures |m| > 1
  {
    assert |m.Keys - {p}| == |m| - 1;
    assert q in m.Keys - {p};
  }

  // --------------------------------------------------------------------- witness ---

  function WaitingEnvelope(n: nat, target: Target, event: ServerEvent): Envelope {
    Envelope(n, 0, target, None, event)
  }

  function Appending(p: Publisher, clk: Clock, target: Target, event: ServerEvent): Move {
    AppendFirst(p, clk, 0, target, None, event, 0)
  }

  /** Two publishers have logged, 1 before 2, and neither has sent. */
  function BothWaiting(clk: Clock, target: Target, event: ServerEvent): seq<Move> {
    [LogStep(DoOpen(clk.day, clk)), Appending(1, clk, target, event), Appending(2, clk, target, event)]
  }

  lemma FreshSite(clk: Clock)
    ensures var s := SiteOf([LogStep(DoOpen(clk.day, clk))]);
            && s.pending == map[] && s.sent == [] && s.sys.history == []
            && s.sys.mem == Some(Mem(FIRST_SEQ, clk.day, 0))
            && Logged(s.sys.disk.files) == []
  {
    hide Logged;
    var open := LogStep(DoOpen(clk.day, clk));
    assert [open][..0] == [] && SiteOf([]) == Site(FRESH, map[], [], {});
    assert Recover(EMPTY_DISK) == Recovery(FIRST_SEQ, false, false);
    var w := OpenFile(clk.day);
    assert OpenWrites(EMPTY_DISK, clk.day, clk) == [w];
    PutsOne(w);
    ApplyOne(EMPTY_DISK, w);
    LoggedOpen(EMPTY_DISK, clk.day);
    LoggedStep(EMPTY_DISK.files);
    SiteSteps([open]);
  }

  lemma OneMoreWaiting(s: Site, p: Publisher, clk: Clock, target: Target, event: ServerEvent)
    requires SiteOk(s) && s.sys.mem.Some? && s.sys.mem.value.day == clk.day && p !in s.pending
    ensures var s' := Moved(s, Appending(p, clk, target, event));
            var n := s.sys.mem.value.nextSeq;
            && s'.pending == s.pending[p := WaitingEnvelope(n, target, event)] && s'.sent == s.sent
            && s'.sys.mem.Some? && s'.sys.mem.value.day == clk.day && s'.sys.mem.value.nextSeq == n + 1
            && |s'.sys.history| == |s.sys.history| + 1
            && |Logged(s'.sys.disk.files)| == |Logged(s.sys.disk.files)| + 1
  {
    hide Logged, SysOk, Backed, Apart, Accounted, AppendWrites, ApplyAll, Puts;
    var m := Appending(p, clk, target, event);
    AppendPuts(s.sys.mem.value, clk, MoveEntry(m));
    StepKeeps(s.sys, DoAppend(clk, MoveEntry(m)));
  }

  lemma BothAreWaiting(clk: Clock, target: Target, event: ServerEvent)
    ensures var s := SiteOf(BothWaiting(clk, target, event));
            && SiteOk(s) && s.sent == [] && |s.sys.history| == 2 && Logged(s.sys.disk.files) == s.sys.history
            && s.pending == map[1 := WaitingEnvelope(1, target, event), 2 := WaitingEnvelope(2, target, event)]
  {
    hide Logged, SiteOf, Moved, SiteOk;
    var moves := BothWaiting(clk, target, event);
    assert moves[..2][..1] == [LogStep(DoOpen(clk.day, clk))];
    FreshSite(clk);
    SiteKeeps(moves[..2][..1]);
    OneMoreWaiting(SiteOf(moves[..2][..1]), 1, clk, target, event);
    SiteSteps(moves[..2]);
    SiteKeeps(moves[..2]);
    OneMoreWaiting(SiteOf(moves[..2]), 2, clk, target, event);
    SiteSteps(moves);
    SiteKeeps(moves);
    WholeLog(SiteOf(moves));
  }

  lemma WholeLog(s: Site)
    requires SiteOk(s) && |Logged(s.sys.disk.files)| == |s.sys.history|
    ensures Logged(s.sys.disk.files) == s.sys.history
  {
  }

  /** The other order does happen: 2 is sent before 1. */
  lemma OrderCanInvert(clk: Clock, target: Target, event: ServerEvent)
    ensures var moves := BothWaiting(clk, target, event) + [SendAfter(2), SendAfter(1)];
            SiteOf(moves).sent == [WaitingEnvelope(2, target, event), WaitingEnvelope(1, target, event)]
            && !InOrder(SiteOf(moves).sent)
  {
    hide SiteOf, SiteOk;
    var first := BothWaiting(clk, target, event);
    var moves := first + [SendAfter(2), SendAfter(1)];
    assert moves[..4] == first + [SendAfter(2)] && moves[..4][..3] == first;
    BothAreWaiting(clk, target, event);
    SiteSteps(moves[..4]);
    SiteSteps(moves);
    var sent := SiteOf(moves).sent;
    assert sent == [WaitingEnvelope(2, target, event), WaitingEnvelope(1, target, event)];
    assert sent[0].seqNo > sent[1].seqNo;
  }
}
