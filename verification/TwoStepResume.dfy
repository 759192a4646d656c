/** What a reconnecting client ends up with when appending and sending are two steps. */
module TwoStepResume {
  import opened Wrappers
  import opened Sets
  import opened Events
  import opened LogModel
  import opened LogSafety
  import opened HubModel
  import opened Delivery
  import opened Resume
  import opened Publishers
  import opened SendOrder

  /** Record number `n` is one the client is to receive. */
  predicate WantedAt(h: seq<Record>, n: nat, view: ConnView, me: Wallet) {
    IsWire(h, n) && Wanting(view, me)(WireOf(h[n - FIRST_SEQ])[0])
  }

  /** What it wants up to its cursor was all sent: nothing of it is pending, and none was lost. */
  ghost predicate AllSent(s: Site, cursor: nat, view: ConnView, me: Wallet) {
    forall n: nat :: n <= cursor && WantedAt(s.sys.history, n, view, me) ==> !IsPending(s, n) && n !in s.lost
  }

  /** Nothing it received is numbered beyond its cursor. */
  predicate NothingBeyond(live: seq<Envelope>, cursor: nat) {
    forall i :: 0 <= i < |live| ==> live[i].seqNo <= cursor
  }

  /** Everything the log holds for the client. */
  function WantedSigs(h: seq<Record>, view: ConnView, me: Wallet): seq<Sig> {
    Kept(WireSigs(h), Wanting(view, me))
  }

  // ------------------------------------------------------- contents of the two halves ---

  lemma {:induction false} WireStep(recs: seq<Record>)
    requires recs != []
    ensures WireSigs(recs) == WireSigs(recs[..|recs| - 1]) + WireOf(recs[|recs| - 1])
  {
  }

  lemma WireNone()
    ensures WireSigs([]) == []
  {
  }

  ghost predicate HasWire(recs: seq<Record>, s: Sig) {
    exists i :: 0 <= i < |recs| && WireOf(recs[i]) == [s]
  }

  lemma HasWireStep(recs: seq<Record>, s: Sig)
    requires recs != []
    ensures HasWire(recs, s) <==> HasWire(recs[..|recs| - 1], s) || WireOf(recs[|recs| - 1]) == [s]
  {
    hide WireOf;
    var n := |recs| - 1;
    if HasWire(recs[..n], s) {
      var i :| 0 <= i < n && WireOf(recs[..n][i]) == [s];
      assert WireOf(recs[i]) == [s];
    }
    if HasWire(recs, s) {
      var i :| 0 <= i < |recs| && WireOf(recs[i]) == [s];
      assert i < n ==> WireOf(recs[..n][i]) == [s];
    }
  }

  lemma OneWire(rec: Record, s: Sig)
    ensures s in WireOf(rec) <==> WireOf(rec) == [s]
  {
  }

  lemma NoneHasWire(s: Sig)
    ensures !HasWire([], s)
  {
  }

  lemma {:induction false} WireHas(recs: seq<Record>, s: Sig)
    ensures s in WireSigs(recs) <==> HasWire(recs, s)
    decreases |recs|
  {
    hide WireSigs, WireOf, HasWire;
    if recs == [] {
      WireNone();
      assert !HasWire([], s) by { NoneHasWire(s); }
    } else {
      WireHas(recs[..|recs| - 1], s);
      WireStep(recs);
      HasWireStep(recs, s);
      OneWire(recs[|recs| - 1], s);
    }
  }

  /** In a numbered history a wire event stands at the place its number says. */
  lemma WireAt(h: seq<Record>, c: nat, s: Sig)
    requires Sequenced(h) && c <= |h|
    ensures s in WireSigs(h[..c]) <==> FIRST_SEQ <= s.seqNo < c + FIRST_SEQ && WireOf(h[s.seqNo - FIRST_SEQ]) == [s]
  {
    WireHas(h[..c], s);
    if s in WireSigs(h[..c]) {
      var i :| 0 <= i < c && WireOf(h[..c][i]) == [s];
      assert s.seqNo == h[i].seqNo == FIRST_SEQ + i;
    }
    if FIRST_SEQ <= s.seqNo < c + FIRST_SEQ && WireOf(h[s.seqNo - FIRST_SEQ]) == [s] {
      assert WireOf(h[..c][s.seqNo - FIRST_SEQ]) == [s];
    }
  }

  lemma {:induction false} SentHas(envs: seq<Envelope>, s: Sig)
    ensures s in Sigs(envs) <==> exists i :: 0 <= i < |envs| && SigOf(envs[i]) == s
  {
    SigsAt(envs);
  }

  /** What a wanted record of the history becomes. */
  lemma WantedRecord(h: seq<Record>, c: nat, n: nat, view: ConnView, me: Wallet)
    requires Sequenced(h) && n <= c <= |h| && WantedAt(h, n, view, me)
    ensures var s := WireOf(h[n - FIRST_SEQ])[0];
            s.seqNo == n && s in WantedSigs(h[..c], view, me)
  {
    hide Wanting;
    var s := WireOf(h[n - FIRST_SEQ])[0];
    assert h[n - FIRST_SEQ].seqNo == n;
    assert WireOf(h[n - FIRST_SEQ]) == [s];
    WireAt(h, c, s);
    KeptHas(WireSigs(h[..c]), Wanting(view, me), s);
  }

  lemma OneWithin(s: Site, c: nat, view: ConnView, me: Wallet, x: Sig)
    requires Backed(s) && Sequenced(s.sys.history) && c <= |s.sys.history|
    requires x in Kept(Sigs(s.sent), Wanting(view, me))
    ensures x.seqNo <= c <==> x in WantedSigs(s.sys.history[..c], view, me)
  {
    hide Wanting, Kept, Sigs, WireSigs, WireOf, Sequenced;
    var keep := Wanting(view, me);
    KeptHas(Sigs(s.sent), keep, x);
    SentHas(s.sent, x);
    var i :| 0 <= i < |s.sent| && SigOf(s.sent[i]) == x;
    assert OnRecord(s.sys.history, s.sent[i]);
    WireAt(s.sys.history, c, x);
    KeptHas(WireSigs(s.sys.history[..c]), keep, x);
  }

  /** The live half lies within what is wanted up to the cursor exactly if it has nothing beyond it. */
  lemma {:induction false} LiveWithin(s: Site, c: nat, view: ConnView, me: Wallet)
    requires Backed(s) && Sequenced(s.sys.history) && c <= |s.sys.history|
    ensures var live := Received(s.sent, view, me);
            NothingBeyond(live, c)
            <==> forall x :: x in Sigs(live) ==> x in WantedSigs(s.sys.history[..c], view, me)
  {
    hide Wanting, Received, Kept, Backed, Sequenced, WantedSigs, Sigs;
    var live := Received(s.sent, view, me);
    ReceivedKept(s.sent, view, me);
    SigsAt(live);
    forall x | x in Sigs(live) ensures x.seqNo <= c <==> x in WantedSigs(s.sys.history[..c], view, me) {
      OneWithin(s, c, view, me, x);
    }
    forall i | 0 <= i < |live| ensures Sigs(live)[i] in Sigs(live) && Sigs(live)[i].seqNo == live[i].seqNo {
    }
  }

  /** The live half covers what is wanted up to the cursor exactly if all of that was sent. */
  lemma {:induction false} LiveCovers(s: Site, c: nat, view: ConnView, me: Wallet)
    requires Backed(s) && Apart(s) && Accounted(s) && Sequenced(s.sys.history) && c <= |s.sys.history|
    ensures AllSent(s, c, view, me)
       <==> forall x :: x in WantedSigs(s.sys.history[..c], view, me) ==> x in Sigs(Received(s.sent, view, me))
  {
    hide Wanting, Received, Kept, WireSigs, AllSent;
    ReceivedKept(s.sent, view, me);
    if AllSent(s, c, view, me) {
      forall x | x in WantedSigs(s.sys.history[..c], view, me) ensures x in Sigs(Received(s.sent, view, me)) {
        CoveredOne(s, c, view, me, x);
      }
    }
    if forall x :: x in WantedSigs(s.sys.history[..c], view, me) ==> x in Sigs(Received(s.sent, view, me)) {
      forall n: nat | n <= c && WantedAt(s.sys.history, n, view, me) ensures !IsPending(s, n) && n !in s.lost {
        UnsentMissing(s, c, view, me, n);
      }
      AllSentIs(s, c, view, me);
    }
  }

  lemma AllSentIs(s: Site, c: nat, view: ConnView, me: Wallet)
    requires forall n: nat :: n <= c && WantedAt(s.sys.history, n, view, me) ==> !IsPending(s, n) && n !in s.lost
    ensures AllSent(s, c, view, me)
  {
  }

  lemma {:induction false} CoveredOne(s: Site, c: nat, view: ConnView, me: Wallet, x: Sig)
    requires Backed(s) && Accounted(s) && Sequenced(s.sys.history) && c <= |s.sys.history| && AllSent(s, c, view, me)
    requires x in WantedSigs(s.sys.history[..c], view, me)
    ensures x in Sigs(Received(s.sent, view, me))
  {
    hide Wanting, Received, Kept, WireSigs, SysOk, Apart;
    var keep := Wanting(view, me);
    var h := s.sys.history;
    KeptHas(WireSigs(h[..c]), keep, x);
    WireAt(h, c, x);
    assert WantedAt(h, x.seqNo, view, me);
    assert IsSent(s, x.seqNo);
    var i :| 0 <= i < |s.sent| && s.sent[i].seqNo == x.seqNo;
    assert OnRecord(s.sys.history, s.sent[i]);
    assert SigOf(s.sent[i]) == x;
    SentHas(s.sent, x);
    KeptHas(Sigs(s.sent), keep, x);
    ReceivedKept(s.sent, view, me);
  }

  lemma {:induction false} UnsentMissing(s: Site, c: nat, view: ConnView, me: Wallet, n: nat)
    requires Apart(s) && Sequenced(s.sys.history) && n <= c <= |s.sys.history| && WantedAt(s.sys.history, n, view, me)
    requires forall x :: x in WantedSigs(s.sys.history[..c], view, me) ==> x in Sigs(Received(s.sent, view, me))
    ensures !IsPending(s, n) && n !in s.lost
  {
    hide Wanting, Received, Kept, WireSigs, SysOk, Accounted, Backed;
    WantedRecord(s.sys.history, c, n, view, me);
    var x := WireOf(s.sys.history[n - FIRST_SEQ])[0];
    ReceivedKept(s.sent, view, me);
    KeptHas(Sigs(s.sent), Wanting(view, me), x);
    SentHas(s.sent, x);
    var i :| 0 <= i < |s.sent| && SigOf(s.sent[i]) == x;
    assert s.sent[i].seqNo == n;
  }

  // ------------------------------------------------------------------- exactly once ---

  lemma {:induction false} DistinctOnce(a: seq<Sig>, s: Sig)
    requires Distinct(a)
    ensures multiset(a)[s] == if s in a then 1 else 0
    decreases |a|
  {
    if a != [] {
      var n := |a| - 1;
      assert a == a[..n] + [a[n]];
      DistinctOnce(a[..n], s);
    }
  }

  /** Two lists without repetition hold the same counts exactly if each contains the other. */
  lemma SameCounts(a: seq<Sig>, b: seq<Sig>)
    requires Distinct(a) && Distinct(b)
    ensures multiset(a) == multiset(b) <==> (forall s :: s in a ==> s in b) && (forall s :: s in b ==> s in a)
  {
    forall s ensures multiset(a)[s] == (if s in a then 1 else 0) && multiset(b)[s] == (if s in b then 1 else 0) {
      DistinctOnce(a, s);
      DistinctOnce(b, s);
    }
    if multiset(a) == multiset(b) {
      forall s ensures s in a <==> s in b {
        assert s in a <==> s in multiset(a);
        assert s in b <==> s in multiset(b);
      }
    }
  }

  lemma {:induction false} SigsOfDistinct(envs: seq<Envelope>)
    requires forall i, j :: 0 <= i < j < |envs| ==> envs[i].seqNo != envs[j].seqNo
    ensures Distinct(Sigs(envs))
  {
    SigsAt(envs);
  }

  lemma {:induction false} KeptDistinct(sigs: seq<Sig>, keep: Sig -> bool)
    requires Distinct(sigs)
    ensures Distinct(Kept(sigs, keep))
    decreases |sigs|
  {
    if sigs != [] {
      var n := |sigs| - 1;
      var init := Kept(sigs[..n], keep);
      KeptDistinct(sigs[..n], keep);
      forall i | 0 <= i < |init| ensures init[i] != sigs[n] {
        KeptHas(sigs[..n], keep, init[i]);
      }
    }
  }

  lemma {:induction false} WantedDistinct(h: seq<Record>, c: nat, view: ConnView, me: Wallet)
    requires Sequenced(h) && c <= |h|
    ensures Distinct(WantedSigs(h[..c], view, me))
  {
    WireRising(h[..c], FIRST_SEQ);
    KeptDistinct(WireSigs(h[..c]), Wanting(view, me));
  }

  /** What is wanted splits at the cursor. */
  lemma WantedSplits(h: seq<Record>, c: nat, view: ConnView, me: Wallet)
    requires c <= |h|
    ensures WantedSigs(h, view, me) == WantedSigs(h[..c], view, me) + WantedSigs(h[c..], view, me)
  {
    assert h[..c] + h[c..] == h;
    WireSigsConcat(h[..c], h[c..]);
    KeptConcat(WireSigs(h[..c]), WireSigs(h[c..]), Wanting(view, me));
  }

  lemma CancelTail(a: multiset<Sig>, b: multiset<Sig>, c: multiset<Sig>)
    ensures a + c == b + c <==> a == b
  {
    if a + c == b + c {
      forall s ensures a[s] == b[s] {
        assert (a + c)[s] == (b + c)[s];
      }
    }
  }

  lemma ServedIsTail(t: Site, cursor: nat, view: ConnView, me: Wallet, max: nat)
    requires SysOk(t.sys) && cursor <= |t.sys.history| && Logged(t.sys.disk.files) != []
    requires HubReplay(t.sys.disk.files, cursor, view, me, max).Ok?
    ensures Sigs(HubReplay(t.sys.disk.files, cursor, view, me, max).value)
         == WantedSigs(t.sys.history[cursor..], view, me)
  {
    hide Logged, Replay, Kept, WireSigs;
    ReplayExact(t.sys.disk, t.sys.history, cursor, max);
    ReplayedKept(t.sys.history[cursor..], view, me);
  }

  lemma {:induction false} LiveDistinct(s: Site, view: ConnView, me: Wallet)
    requires Apart(s)
    ensures Distinct(Sigs(Received(s.sent, view, me)))
  {
    SigsOfDistinct(s.sent);
    ReceivedKept(s.sent, view, me);
    KeptDistinct(Sigs(s.sent), Wanting(view, me));
  }

  /** In every interleaving, for every cut, view and cursor that was a number by then: what was received
      live up to the cut, followed by a replay served later, is every wanted event of the log exactly
      once if and only if all that is wanted up to the cursor had been sent by the cut, none of it
      pending or lost, and nothing beyond the cursor had been received. */
  lemma {:induction false} ResumeExactly(moves: seq<Move>, cut: nat, view: ConnView, me: Wallet, cursor: nat, max: nat)
    requires cut <= |moves| && cursor <= |SiteOf(moves[..cut]).sys.history|
    requires Logged(SiteOf(moves).sys.disk.files) != []
    requires HubReplay(SiteOf(moves).sys.disk.files, cursor, view, me, max).Ok?
    ensures var s, t := SiteOf(moves[..cut]), SiteOf(moves);
            var live := Received(s.sent, view, me);
            var served := HubReplay(t.sys.disk.files, cursor, view, me, max).value;
            multiset(Sigs(live) + Sigs(served)) == multiset(WantedSigs(t.sys.history, view, me))
            <==> AllSent(s, cursor, view, me) && NothingBeyond(live, cursor)
  {
    hide SiteOf, SysOk, Backed, Apart, Accounted, Received, Sigs, Kept, WireSigs, WantedSigs;
    hide Logged, HubReplay, Distinct, AllSent, NothingBeyond;
    var s, t := SiteOf(moves[..cut]), SiteOf(moves);
    var h := t.sys.history;
    SiteKeeps(moves[..cut]);
    SiteKeeps(moves);
    SiteGrows(moves, cut);
    assert h[..cursor] == s.sys.history[..cursor];
    var live := Received(s.sent, view, me);
    var served := HubReplay(t.sys.disk.files, cursor, view, me, max).value;
    ServedIsTail(t, cursor, view, me, max);
    WantedSplits(h, cursor, view, me);
    var first := WantedSigs(h[..cursor], view, me);
    CancelTail(multiset(Sigs(live)), multiset(first), multiset(Sigs(served)));
    assert multiset(Sigs(live) + Sigs(served)) == multiset(Sigs(live)) + multiset(Sigs(served));
    assert multiset(WantedSigs(h, view, me)) == multiset(first) + multiset(Sigs(served));
    LiveDistinct(s, view, me);
    WantedDistinct(h, cursor, view, me);
    SameCounts(Sigs(live), first);
    LiveWithin(s, cursor, view, me);
    LiveCovers(s, cursor, view, me);
  }

  /** Hence, for a client whose cursor is the highest number it received: exactly if nothing it wants up to
      there was still unsent. */
  lemma {:induction false} ResumeFromHighest(moves: seq<Move>, cut: nat,
                                             view: ConnView, me: Wallet, cursor: nat, max: nat)
    requires cut <= |moves| && cursor <= |SiteOf(moves[..cut]).sys.history|
    requires NothingBeyond(Received(SiteOf(moves[..cut]).sent, view, me), cursor)
    requires Logged(SiteOf(moves).sys.disk.files) != []
    requires HubReplay(SiteOf(moves).sys.disk.files, cursor, view, me, max).Ok?
    ensures var s, t := SiteOf(moves[..cut]), SiteOf(moves);
            var served := HubReplay(t.sys.disk.files, cursor, view, me, max).value;
            multiset(Sigs(Received(s.sent, view, me)) + Sigs(served)) == multiset(WantedSigs(t.sys.history, view, me))
            <==> AllSent(s, cursor, view, me)
  {
    ResumeExactly(moves, cut, view, me, cursor, max);
  }

  // --------------------------------------------------------------------- witnesses ---

  lemma {:induction false} ReceivedSnoc(envs: seq<Envelope>, env: Envelope, view: ConnView, me: Wallet)
    requires Wants(view, me, env)
    ensures Received(envs + [env], view, me) == Received(envs, view, me) + [env]
  {
    assert (envs + [env])[..|envs|] == envs;
  }

  lemma {:induction false} NothingReceived(view: ConnView, me: Wallet)
    ensures Received([], view, me) == [] && Sigs([]) == []
  {
  }

  lemma {:induction false} OneReplayed(rec: Record, env: Envelope, view: ConnView, me: Wallet)
    requires WireOf(rec) == [SigOf(env)] && Wants(view, me, env)
    ensures Sigs(Replayed([rec], view, me)) == [SigOf(env)]
  {
    hide Kept, Wants, WireOf, Replayed, Sigs, WireSigs;
    ReplayedKept([rec], view, me);
    WireOne(rec);
    WantedAlike(view, me, env);
    KeptSnoc([], SigOf(env), Wanting(view, me));
    KeptNothing(view, me);
    assert [] + [SigOf(env)] == [SigOf(env)];
  }

  /** A log of two wanted events: a replay after the second is served and empty, and one after the first
      is served and holds the second. */
  lemma {:induction false} TwoRecords(sys: Sys, two: Envelope, view: ConnView, me: Wallet, max: nat)
    requires SysOk(sys) && |sys.history| == 2 && Logged(sys.disk.files) == sys.history && max > 0
    requires WireOf(sys.history[1]) == [SigOf(two)] && Wants(view, me, two)
    ensures HubReplay(sys.disk.files, 2, view, me, max) == Ok([])
    ensures var r := HubReplay(sys.disk.files, 1, view, me, max);
            r.Ok? && Sigs(r.value) == [SigOf(two)]
  {
    hide Logged, SysOk, HubReplay, Replayed, WireOf, Sigs, Wants;
    var h := sys.history;
    assert Missed(h, 2) == [] && Missed(h, 1) == [h[1]];
    FullyRetained(sys, view, me, 2, max);
    FullyRetained(sys, view, me, 1, max);
    NothingAfter(sys.disk.files, 2, max, view, me);
    OneReplayed(h[1], two, view, me);
  }

  lemma KeptNothing(view: ConnView, me: Wallet)
    ensures Kept([], Wanting(view, me)) == []
  {
  }

  /** What `BothWaiting` leaves in the log. */
  lemma BothRecorded(clk: Clock, target: Target, event: ServerEvent, view: ConnView, me: Wallet)
    requires forall n :: Wants(view, me, WaitingEnvelope(n, target, event))
    ensures var h := SiteOf(BothWaiting(clk, target, event)).sys.history;
            && |h| == 2 && WireOf(h[1]) == [SigOf(WaitingEnvelope(2, target, event))]
            && WantedAt(h, 1, view, me)
  {
    hide SiteOf, Logged, SysOk, Wants;
    BothAreWaiting(clk, target, event);
    var w := SiteOf(BothWaiting(clk, target, event));
    assert w.pending[1] == WaitingEnvelope(1, target, event) && w.pending[2] == WaitingEnvelope(2, target, event);
    assert OnRecord(w.sys.history, w.pending[1]) && OnRecord(w.sys.history, w.pending[2]);
    WantedAlike(view, me, w.pending[1]);
  }

  /** The failing side of the first condition: 2 is sent while 1 waits, the client leaves with cursor 2,
      and no replay after 2 gives it number 1. */
  lemma {:induction false} MissedForGood(clk: Clock, target: Target, event: ServerEvent,
                                         view: ConnView, me: Wallet, max: nat)
    requires max > 0 && forall n :: Wants(view, me, WaitingEnvelope(n, target, event))
    ensures var s := SiteOf(BothWaiting(clk, target, event) + [SendAfter(2)]);
            && Received(s.sent, view, me) == [WaitingEnvelope(2, target, event)]
            && HubReplay(s.sys.disk.files, 2, view, me, max) == Ok([])
            && WantedAt(s.sys.history, 1, view, me) && IsPending(s, 1)
  {
    hide SiteOf, SiteOk, Received, Wants, HubReplay, Logged, SysOk;
    var first := BothWaiting(clk, target, event);
    var moves := first + [SendAfter(2)];
    assert moves[..3] == first;
    BothAreWaiting(clk, target, event);
    SiteSteps(moves);
    SiteKeeps(moves);
    var s := SiteOf(moves);
    BothRecorded(clk, target, event, view, me);
    TwoRecords(s.sys, WaitingEnvelope(2, target, event), view, me, max);
    ReceivedSnoc([], WaitingEnvelope(2, target, event), view, me);
    NothingReceived(view, me);
    assert s.sent == [] + [WaitingEnvelope(2, target, event)];
    assert s.pending[1].seqNo == 1;
  }

  /** The failing side of the second: 2 is sent before 1, the client's last event is number 1, and the replay
      after it repeats number 2. */
  lemma {:induction false} RepeatedAfterInversion(clk: Clock, target: Target, event: ServerEvent,
                                                  view: ConnView, me: Wallet, max: nat)
    requires max > 0 && forall n :: Wants(view, me, WaitingEnvelope(n, target, event))
    ensures var s := SiteOf(BothWaiting(clk, target, event) + [SendAfter(2), SendAfter(1)]);
            var r := HubReplay(s.sys.disk.files, 1, view, me, max);
            && Received(s.sent, view, me) == [WaitingEnvelope(2, target, event), WaitingEnvelope(1, target, event)]
            && r.Ok? && Sigs(r.value) == [SigOf(WaitingEnvelope(2, target, event))]
  {
    hide SiteOf, SiteOk, Received, Wants, HubReplay, Logged, SysOk;
    var first := BothWaiting(clk, target, event);
    var moves := first + [SendAfter(2), SendAfter(1)];
    assert moves[..4] == first + [SendAfter(2)] && moves[..4][..3] == first;
    BothAreWaiting(clk, target, event);
    SiteSteps(moves[..4]);
    SiteSteps(moves);
    SiteKeeps(moves);
    var s := SiteOf(moves);
    BothRecorded(clk, target, event, view, me);
    TwoRecords(s.sys, WaitingEnvelope(2, target, event), view, me, max);
    var one, two := WaitingEnvelope(1, target, event), WaitingEnvelope(2, target, event);
    ReceivedSnoc([], two, view, me);
    ReceivedSnoc([two], one, view, me);
    NothingReceived(view, me);
    assert [] + [two] == [two] && s.sent == [two] + [one];
  }
}
