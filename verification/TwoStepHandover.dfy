/** What a client gets when it subscribes, then replays, then reads the live stream, while publishers
    append and send in two steps. */
module TwoStepHandover {
  import opened Events
  import opened LogModel
  import opened LogSafety
  import opened HubModel
  import opened Delivery
  import opened Publishers
  import opened TwoStepResume

  /** Sent between two points of a run. */
  ghost predicate SentSince(s: Site, t: Site, n: nat) {
    exists i :: |s.sent| <= i < |t.sent| && t.sent[i].seqNo == n
  }

  /** The three parts of what arrives: live before the cut, replayed, live since the subscription. */
  ghost function Got(c: Site, s: Site, r: Site, t: Site, view: ConnView, me: Wallet, cursor: nat, max: nat): seq<Sig>
    requires |s.sent| <= |t.sent| && HubReplay(r.sys.disk.files, cursor, view, me, max).Ok?
  {
    Sigs(Received(c.sent, view, me))
    + Sigs(HubReplay(r.sys.disk.files, cursor, view, me, max).value)
    + Kept(Sigs(t.sent[|s.sent|..]), Accepting(view, me))
  }

  /** Which of these holds record number `n`, if the client wants it. */
  ghost predicate Reaches(c: Site, s: Site, r: Site, t: Site, cursor: nat, n: nat) {
    IsSent(c, n) || cursor < n <= |r.sys.history| || SentSince(s, t, n)
  }

  // ------------------------------------------------------------------ one event ---

  /** In a numbered history the events of a rest have the numbers beyond the cut. */
  lemma WireFrom(h: seq<Record>, c: nat, x: Sig)
    requires Sequenced(h) && c <= |h|
    ensures x in WireSigs(h[c..]) <==> c < x.seqNo <= |h| && WireOf(h[x.seqNo - FIRST_SEQ]) == [x]
  {
    hide WireSigs;
    WireHas(h[c..], x);
    if i :| 0 <= i < |h[c..]| && WireOf(h[c..][i]) == [x] {
      assert x.seqNo == h[c + i].seqNo;
    }
    if c < x.seqNo <= |h| && WireOf(h[x.seqNo - FIRST_SEQ]) == [x] {
      assert h[c..][x.seqNo - FIRST_SEQ - c] == h[x.seqNo - FIRST_SEQ];
    }
  }

  /** Whether an envelope is this event is a matter of its number. */
  lemma SameNumber(z: Site, h: seq<Record>, i: nat, x: Sig)
    requires Backed(z) && z.sys.history <= h && i < |z.sent|
    requires FIRST_SEQ <= x.seqNo <= |h| && WireOf(h[x.seqNo - FIRST_SEQ]) == [x]
    ensures SigOf(z.sent[i]) == x <==> z.sent[i].seqNo == x.seqNo
  {
    assert OnRecord(z.sys.history, z.sent[i]);
  }

  lemma {:induction false} ReceivedHas(z: Site, h: seq<Record>, view: ConnView, me: Wallet, x: Sig)
    requires Backed(z) && z.sys.history <= h && Wanting(view, me)(x)
    requires FIRST_SEQ <= x.seqNo <= |h| && WireOf(h[x.seqNo - FIRST_SEQ]) == [x]
    ensures x in Sigs(Received(z.sent, view, me)) <==> IsSent(z, x.seqNo)
  {
    hide Backed, Wanting, Kept, Received, WireOf;
    ReceivedKept(z.sent, view, me);
    KeptHas(Sigs(z.sent), Wanting(view, me), x);
    SentHas(z.sent, x);
    forall i | 0 <= i < |z.sent| ensures SigOf(z.sent[i]) == x <==> z.sent[i].seqNo == x.seqNo {
      SameNumber(z, h, i, x);
    }
  }

  lemma LiveIs(s: Site, t: Site, n: nat)
    requires |s.sent| <= |t.sent|
    ensures var live := t.sent[|s.sent|..];
            SentSince(s, t, n) <==> exists i :: 0 <= i < |live| && live[i].seqNo == n
  {
    var live := t.sent[|s.sent|..];
    if SentSince(s, t, n) {
      var i :| |s.sent| <= i < |t.sent| && t.sent[i].seqNo == n;
      assert live[i - |s.sent|].seqNo == n;
    }
    if i :| 0 <= i < |live| && live[i].seqNo == n {
      assert t.sent[|s.sent| + i].seqNo == n;
    }
  }

  /** What is in a stretch of the stream, by number. */
  lemma InStretch(t: Site, from: nat, x: Sig)
    requires Backed(t) && from <= |t.sent|
    requires FIRST_SEQ <= x.seqNo <= |t.sys.history| && WireOf(t.sys.history[x.seqNo - FIRST_SEQ]) == [x]
    ensures x in Sigs(t.sent[from..]) <==> exists i :: 0 <= i < |t.sent[from..]| && t.sent[from..][i].seqNo == x.seqNo
  {
    hide Backed, WireOf, Sigs;
    var live := t.sent[from..];
    SentHas(live, x);
    forall i | 0 <= i < |live| ensures SigOf(live[i]) == x <==> live[i].seqNo == x.seqNo {
      SameNumber(t, t.sys.history, from + i, x);
    }
  }

  lemma LiveHas(s: Site, t: Site, view: ConnView, me: Wallet, x: Sig)
    requires Backed(t) && |s.sent| <= |t.sent| && Wanting(view, me)(x)
    requires FIRST_SEQ <= x.seqNo <= |t.sys.history| && WireOf(t.sys.history[x.seqNo - FIRST_SEQ]) == [x]
    ensures x in Kept(Sigs(t.sent[|s.sent|..]), Accepting(view, me)) <==> SentSince(s, t, x.seqNo)
  {
    assert Accepting(view, me)(x);
    hide Backed, Wanting, Accepting, Kept, WireOf, Sigs, SentSince;
    KeptHas(Sigs(t.sent[|s.sent|..]), Accepting(view, me), x);
    InStretch(t, |s.sent|, x);
    LiveIs(s, t, x.seqNo);
  }

  lemma ServedHas(r: Site, h: seq<Record>, view: ConnView, me: Wallet, cursor: nat, max: nat, x: Sig)
    requires SysOk(r.sys) && r.sys.history <= h && cursor <= |r.sys.history| && Wanting(view, me)(x)
    requires FIRST_SEQ <= x.seqNo <= |h| && WireOf(h[x.seqNo - FIRST_SEQ]) == [x]
    requires Logged(r.sys.disk.files) != [] && HubReplay(r.sys.disk.files, cursor, view, me, max).Ok?
    ensures x in Sigs(HubReplay(r.sys.disk.files, cursor, view, me, max).value)
       <==> cursor < x.seqNo <= |r.sys.history|
  {
    assert Sequenced(r.sys.history);
    hide SysOk, Wanting, HubReplay, Kept, Logged, WireOf, WireSigs;
    ServedIsTail(r, cursor, view, me, max);
    KeptHas(WireSigs(r.sys.history[cursor..]), Wanting(view, me), x);
    WireFrom(r.sys.history, cursor, x);
  }

  lemma GotHas(c: Site, s: Site, r: Site, t: Site, view: ConnView, me: Wallet, cursor: nat, max: nat, x: Sig)
    requires Backed(c) && Backed(t) && SysOk(r.sys) && |s.sent| <= |t.sent| && cursor <= |r.sys.history|
    requires c.sys.history <= t.sys.history && r.sys.history <= t.sys.history && Wanting(view, me)(x)
    requires FIRST_SEQ <= x.seqNo <= |t.sys.history| && WireOf(t.sys.history[x.seqNo - FIRST_SEQ]) == [x]
    requires Logged(r.sys.disk.files) != [] && HubReplay(r.sys.disk.files, cursor, view, me, max).Ok?
    ensures x in Got(c, s, r, t, view, me, cursor, max) <==> Reaches(c, s, r, t, cursor, x.seqNo)
  {
    hide SysOk, Backed, Wanting, Accepting, HubReplay, Kept, Logged, WireOf, Sigs, Received, IsSent, SentSince;
    ReceivedHas(c, t.sys.history, view, me, x);
    ServedHas(r, t.sys.history, view, me, cursor, max, x);
    LiveHas(s, t, view, me, x);
  }

  // -------------------------------------------------------------------- theorem ---

  /** What has to hold of a wanted number for it to arrive: up to the cursor it was sent by the cut or
      since the subscription, and beyond the replay it was sent at all. */
  ghost predicate Delivered(c: Site, s: Site, r: Site, t: Site, cursor: nat, n: nat) {
    && (n <= cursor ==> IsSent(c, n) || SentSince(s, t, n))
    && (n > |r.sys.history| ==> IsSent(t, n))
  }

  lemma SentBelow(z: Site)
    requires Backed(z)
    ensures forall i :: 0 <= i < |z.sent| ==> z.sent[i].seqNo <= |z.sys.history|
  {
    forall i | 0 <= i < |z.sent| ensures z.sent[i].seqNo <= |z.sys.history| {
      assert OnRecord(z.sys.history, z.sent[i]);
    }
  }

  lemma ReachesIsDelivered(c: Site, s: Site, r: Site, t: Site, cursor: nat, n: nat)
    requires Backed(c) && Backed(s) && s.sent <= t.sent && cursor <= |c.sys.history|
    requires c.sys.history <= r.sys.history && s.sys.history <= r.sys.history
    ensures Reaches(c, s, r, t, cursor, n) <==> Delivered(c, s, r, t, cursor, n)
  {
    SentBelow(c);
    SentBelow(s);
    hide Backed;
    if n > |r.sys.history| && IsSent(t, n) {
      var i :| 0 <= i < |t.sent| && t.sent[i].seqNo == n;
      assert s.sent == t.sent[..|s.sent|];
      assert |s.sent| <= i;
    }
  }

  lemma {:induction false} Points(moves: seq<Move>, k: nat, l: nat)
    requires k <= l <= |moves|
    ensures SiteOf(moves[..k]).sent <= SiteOf(moves[..l]).sent
    ensures SiteOf(moves[..k]).sys.history <= SiteOf(moves[..l]).sys.history
  {
    hide SiteOf;
    assert moves[..l][..k] == moves[..k];
    SiteGrows(moves[..l], k);
  }

  /** In every interleaving: what a client received up to a cut, followed by a replay and by everything it
      accepts since it subscribed before that replay, contains every wanted event of the log at least once
      if and only if each was delivered in the sense above. Nothing between cursor and replay can be
      missed. */
  lemma {:induction false} HandoverExactly(moves: seq<Move>, cut: nat, subscribed: nat, replayed: nat,
                                           view: ConnView, me: Wallet, cursor: nat, max: nat)
    requires cut <= subscribed <= replayed <= |moves|
    requires cursor <= |SiteOf(moves[..cut]).sys.history|
    requires Logged(SiteOf(moves[..replayed]).sys.disk.files) != []
    requires HubReplay(SiteOf(moves[..replayed]).sys.disk.files, cursor, view, me, max).Ok?
    ensures var c, s := SiteOf(moves[..cut]), SiteOf(moves[..subscribed]);
            var r, t := SiteOf(moves[..replayed]), SiteOf(moves);
            |s.sent| <= |t.sent| &&
            ((forall x :: x in WantedSigs(t.sys.history, view, me) ==> x in Got(c, s, r, t, view, me, cursor, max))
             <==> forall n: nat :: WantedAt(t.sys.history, n, view, me) ==> Delivered(c, s, r, t, cursor, n))
  {
    hide SiteOf, SysOk, Backed, Apart, Accounted, HubReplay, Logged, Got, Reaches, Delivered, WantedAt, WantedSigs;
    var c, s := SiteOf(moves[..cut]), SiteOf(moves[..subscribed]);
    var r, t := SiteOf(moves[..replayed]), SiteOf(moves);
    assert moves[..|moves|] == moves;
    SiteKeeps(moves[..cut]);
    SiteKeeps(moves[..subscribed]);
    SiteKeeps(moves[..replayed]);
    SiteKeeps(moves);
    Points(moves, cut, replayed);
    Points(moves, subscribed, replayed);
    Points(moves, replayed, |moves|);
    EachWanted(c, s, r, t, view, me, cursor, max);
  }

  lemma EachWanted(c: Site, s: Site, r: Site, t: Site, view: ConnView, me: Wallet, cursor: nat, max: nat)
    requires Backed(c) && Backed(s) && Backed(t) && SysOk(r.sys) && Sequenced(t.sys.history)
    requires s.sent <= t.sent && cursor <= |c.sys.history|
    requires c.sys.history <= r.sys.history && s.sys.history <= r.sys.history && r.sys.history <= t.sys.history
    requires Logged(r.sys.disk.files) != [] && HubReplay(r.sys.disk.files, cursor, view, me, max).Ok?
    ensures (forall x :: x in WantedSigs(t.sys.history, view, me) ==> x in Got(c, s, r, t, view, me, cursor, max))
       <==> forall n: nat :: WantedAt(t.sys.history, n, view, me) ==> Delivered(c, s, r, t, cursor, n)
  {
    hide SysOk, Backed, HubReplay, Logged, Got, Reaches, Delivered, WantedAt, WantedSigs, Sequenced;
    var h := t.sys.history;
    if forall x :: x in WantedSigs(h, view, me) ==> x in Got(c, s, r, t, view, me, cursor, max) {
      forall n: nat | WantedAt(h, n, view, me) ensures Delivered(c, s, r, t, cursor, n) {
        var x := SigAt(h, n, view, me);
        GotHas(c, s, r, t, view, me, cursor, max, x);
        ReachesIsDelivered(c, s, r, t, cursor, n);
      }
    }
    if forall n: nat :: WantedAt(h, n, view, me) ==> Delivered(c, s, r, t, cursor, n) {
      forall x | x in WantedSigs(h, view, me) ensures x in Got(c, s, r, t, view, me, cursor, max) {
        NumberOf(h, x, view, me);
        GotHas(c, s, r, t, view, me, cursor, max, x);
        ReachesIsDelivered(c, s, r, t, cursor, x.seqNo);
      }
    }
  }

  lemma SigAt(h: seq<Record>, n: nat, view: ConnView, me: Wallet) returns (x: Sig)
    requires Sequenced(h) && WantedAt(h, n, view, me)
    ensures x in WantedSigs(h, view, me) && x.seqNo == n && Wanting(view, me)(x)
    ensures FIRST_SEQ <= n <= |h| && WireOf(h[n - FIRST_SEQ]) == [x]
  {
    hide Wanting;
    x := WireOf(h[n - FIRST_SEQ])[0];
    assert h[..|h|] == h;
    WantedRecord(h, |h|, n, view, me);
    assert |WireOf(h[n - FIRST_SEQ])| == 1;
  }

  lemma NumberOf(h: seq<Record>, x: Sig, view: ConnView, me: Wallet)
    requires Sequenced(h) && x in WantedSigs(h, view, me)
    ensures WantedAt(h, x.seqNo, view, me) && Wanting(view, me)(x)
    ensures FIRST_SEQ <= x.seqNo <= |h| && WireOf(h[x.seqNo - FIRST_SEQ]) == [x]
  {
    hide Wanting, WireOf, WireSigs;
    assert h[..|h|] == h;
    KeptHas(WireSigs(h), Wanting(view, me), x);
    WireAt(h, |h|, x);
  }

  /** Hence nothing is missed by a client that had been sent all it wants up to its cursor, once nothing it
      wants is pending or lost beyond the replay. */
  lemma {:induction false} HandoverMissesNothing(moves: seq<Move>, cut: nat, subscribed: nat, replayed: nat,
                                                 view: ConnView, me: Wallet, cursor: nat, max: nat)
    requires cut <= subscribed <= replayed <= |moves|
    requires cursor <= |SiteOf(moves[..cut]).sys.history|
    requires Logged(SiteOf(moves[..replayed]).sys.disk.files) != []
    requires HubReplay(SiteOf(moves[..replayed]).sys.disk.files, cursor, view, me, max).Ok?
    requires AllSent(SiteOf(moves[..cut]), cursor, view, me)
    requires var r, t := SiteOf(moves[..replayed]), SiteOf(moves);
             forall n: nat :: n > |r.sys.history| && WantedAt(t.sys.history, n, view, me)
                              ==> !IsPending(t, n) && n !in t.lost
    ensures var c, s := SiteOf(moves[..cut]), SiteOf(moves[..subscribed]);
            var r, t := SiteOf(moves[..replayed]), SiteOf(moves);
            |s.sent| <= |t.sent|
            && forall x :: x in WantedSigs(t.sys.history, view, me) ==> x in Got(c, s, r, t, view, me, cursor, max)
  {
    hide SiteOf, SysOk, Backed, Apart, HubReplay, Logged, Got, WantedSigs, IsSent, IsPending;
    var c, s := SiteOf(moves[..cut]), SiteOf(moves[..subscribed]);
    var r, t := SiteOf(moves[..replayed]), SiteOf(moves);
    SiteKeeps(moves[..cut]);
    SiteKeeps(moves);
    SiteGrows(moves, cut);
    HandoverExactly(moves, cut, subscribed, replayed, view, me, cursor, max);
    forall n: nat | WantedAt(t.sys.history, n, view, me) ensures Delivered(c, s, r, t, cursor, n) {
      if n <= cursor {
        assert WantedAt(c.sys.history, n, view, me);
      }
    }
  }
}
