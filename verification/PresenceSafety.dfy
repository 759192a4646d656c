/** What every run of the hub keeps about presence. */
module PresenceSafety {
  import opened Events
  import opened HubModel

  // ---------------------------------------------------------------- invariant ---

  /** No wallet has a beacon and a connection at once; only live statuses are held. */
  ghost predicate Coherent(s: HubState) {
    && (forall w :: w in s.beacons ==> !HasDevice(s.conns, w))
    && (forall w :: w in s.presence ==> s.presence[w] != Offline)
  }

  ghost predicate NeverUnder(s: HubState, now: int) {
    forall w :: Announced(s, w).AtLeast(Derived(s, w, now))
  }

  /** What the last event about a wallet said, to a client that has seen them all. */
  function LastTold(told: seq<Told>, w: Wallet): Status {
    if told == [] then Offline
    else if told[|told| - 1].wallet == w then told[|told| - 1].status
    else LastTold(told[..|told| - 1], w)
  }

  ghost predicate StreamAgrees(s: HubState) {
    forall w :: LastTold(s.told, w) == Announced(s, w)
  }

  // ------------------------------------------------------------- what it means ---

  /** Derived presence in terms of clocks and tables: online through a connection heard from within the
      last five minutes that has not declared itself away, or through a fresh beacon; offline without any
      connection and without a fresh beacon that says otherwise; away in every other case. */
  lemma DerivedExactly(s: HubState, w: Wallet, now: int)
    ensures Derived(s, w, now) == Online
       <==> || (exists id :: id in s.conns && s.conns[id].wallet == w && !s.conns[id].away
                             && now - s.conns[id].lastActive < AWAY_AFTER_MS)
            || (w in s.beacons && now - s.beacons[w].at < BEACON_TTL_MS && s.beacons[w].status == Online)
    ensures Derived(s, w, now) == Offline
       <==> && (forall id :: id in s.conns ==> s.conns[id].wallet != w)
            && (w in s.beacons && now - s.beacons[w].at < BEACON_TTL_MS ==> s.beacons[w].status == Offline)
  {
    if id :| id in s.conns && s.conns[id].wallet == w && !s.conns[id].away
             && now - s.conns[id].lastActive < AWAY_AFTER_MS {
      assert s.conns[id].StatusAt(now) == Online;
    }
    if HasOnline(s.conns, w, now) {
      var id :| id in s.conns && s.conns[id].wallet == w && s.conns[id].StatusAt(now) == Online;
      assert !s.conns[id].away && now - s.conns[id].lastActive < AWAY_AFTER_MS;
    }
  }

  // -------------------------------------------------------------------- decay ---

  /** Without input, time only ever lowers the derived status. */
  lemma DerivedDecays(s: HubState, w: Wallet, t1: int, t2: int)
    requires t1 <= t2
    ensures Derived(s, w, t1).AtLeast(Derived(s, w, t2))
  {
    if HasOnline(s.conns, w, t2) {
      var id :| id in s.conns && s.conns[id].wallet == w && s.conns[id].StatusAt(t2) == Online;
      assert s.conns[id].StatusAt(t1) == Online;
    }
  }

  lemma NeverUnderLater(s: HubState, t1: int, t2: int)
    requires NeverUnder(s, t1) && t1 <= t2
    ensures NeverUnder(s, t2)
  {
    forall w ensures Announced(s, w).AtLeast(Derived(s, w, t2)) {
      DerivedDecays(s, w, t1, t2);
    }
  }

  // ------------------------------------------------------------ one announcement ---

  lemma AnnounceEffect(s: HubState, w: Wallet, now: int, rooms: seq<RoomId>)
    ensures var s' := Announce(s, w, now, rooms);
            && s'.conns == s.conns && s'.beacons == s.beacons
            && (forall v, t :: Derived(s', v, t) == Derived(s, v, t))
            && Announced(s', w) == Derived(s, w, now)
            && (forall v :: v != w ==> Announced(s', v) == Announced(s, v))
    ensures Coherent(s) ==> Coherent(Announce(s, w, now, rooms))
    ensures rooms != [] && StreamAgrees(s) ==> StreamAgrees(Announce(s, w, now, rooms))
  {
    if rooms != [] {
      AnnounceAgrees(s, w, now, rooms);
    }
    hide StreamAgrees, Announced;
    AnnouncedAfter(s, w, now, rooms);
  }

  lemma AnnouncedAfter(s: HubState, w: Wallet, now: int, rooms: seq<RoomId>)
    ensures var s' := Announce(s, w, now, rooms);
            && Announced(s', w) == Derived(s, w, now)
            && (forall v :: v != w ==> Announced(s', v) == Announced(s, v))
  {
    hide Derived;
  }

  lemma {:induction false} LastToldSnoc(told: seq<Told>, t: Told, w: Wallet)
    ensures LastTold(told + [t], w) == if t.wallet == w then t.status else LastTold(told, w)
  {
    assert (told + [t])[..|told|] == told;
  }

  lemma AnnounceAgrees(s: HubState, w: Wallet, now: int, rooms: seq<RoomId>)
    requires rooms != []
    ensures StreamAgrees(s) ==> StreamAgrees(Announce(s, w, now, rooms))
  {
    AnnouncedAfter(s, w, now, rooms);
    hide Derived, LastTold, Announced;
    var s' := Announce(s, w, now, rooms);
    var d := Derived(s, w, now);
    if StreamAgrees(s) {
      forall v ensures LastTold(s'.told, v) == Announced(s', v) {
        LastToldSnoc(s.told, Told(w, d), v);
        assert s.told + [] == s.told;
      }
    }
  }

  /** An operation that touches one wallet's devices, followed by announcing that wallet. */
  lemma ChangeThenAnnounce(s: HubState, s1: HubState, w: Wallet, now: int, rooms: seq<RoomId>)
    requires NeverUnder(s, now) && Coherent(s1)
    requires s1.presence == s.presence && s1.told == s.told
    requires forall v :: v != w ==> Derived(s1, v, now) == Derived(s, v, now)
    ensures var s' := Announce(s1, w, now, rooms);
            NeverUnder(s', now) && Coherent(s')
    ensures rooms != [] && StreamAgrees(s) ==> StreamAgrees(Announce(s1, w, now, rooms))
  {
    AnnounceEffect(s1, w, now, rooms);
    var s' := Announce(s1, w, now, rooms);
    forall v ensures Announced(s', v).AtLeast(Derived(s', v, now)) {
      assert v != w ==> Announced(s', v) == Announced(s, v) && Announced(s, v).AtLeast(Derived(s, v, now));
    }
    if StreamAgrees(s) {
      assert forall v :: Announced(s1, v) == Announced(s, v);
      assert StreamAgrees(s1);
    }
  }

  /** Two connection tables that agree on everybody else's devices. */
  ghost predicate SameElsewhere(a: map<ConnId, Conn>, b: map<ConnId, Conn>, w: Wallet) {
    && (forall id :: id in a && a[id].wallet != w ==> id in b && b[id] == a[id])
    && (forall id :: id in b && b[id].wallet != w ==> id in a && a[id] == b[id])
  }

  lemma DerivedElsewhere(s: HubState, s1: HubState, w: Wallet, v: Wallet, now: int)
    requires v != w && SameElsewhere(s.conns, s1.conns, w)
    requires FromBeacon(s1.beacons, v, now) == FromBeacon(s.beacons, v, now)
    ensures Derived(s1, v, now) == Derived(s, v, now)
    ensures HasDevice(s.conns, v) <==> HasDevice(s1.conns, v)
  {
    if HasOnline(s.conns, v, now) {
      var id :| id in s.conns && s.conns[id].wallet == v && s.conns[id].StatusAt(now) == Online;
      assert id in s1.conns && s1.conns[id] == s.conns[id];
    }
    if HasOnline(s1.conns, v, now) {
      var id :| id in s1.conns && s1.conns[id].wallet == v && s1.conns[id].StatusAt(now) == Online;
      assert id in s.conns && s1.conns[id] == s.conns[id];
    }
    if HasDevice(s.conns, v) {
      var id :| id in s.conns && s.conns[id].wallet == v;
      assert id in s1.conns && s1.conns[id].wallet == v;
    }
    if HasDevice(s1.conns, v) {
      var id :| id in s1.conns && s1.conns[id].wallet == v;
      assert id in s.conns && s.conns[id].wallet == v;
    }
  }

  // --------------------------------------------------------------------- runs ---

  datatype Op =
    | Connect(id: ConnId, conn: Conn, rooms: seq<RoomId>)
    | Close(id: ConnId, rooms: seq<RoomId>)
    | SwapView(wallet: Wallet, view: ConnView)
    | PutBeacon(wallet: Wallet, status: Status, rooms: seq<RoomId>)
    | Frame(id: ConnId, wallet: Wallet, rooms: seq<RoomId>)
    | Declare(id: ConnId, wallet: Wallet, status: Status, rooms: seq<RoomId>)
    | SweepAll(order: seq<Wallet>, roomsOf: Wallet -> seq<RoomId>)

  /** An operation and the clock reading it is performed at. */
  datatype Timed = Timed(op: Op, now: int)

  ghost predicate Enabled(s: HubState, e: Timed) {
    match e.op
    case Connect(id, c, _) => id !in s.conns
    case Frame(id, w, _) => id in s.conns ==> s.conns[id].wallet == w
    case Declare(id, w, _, _) => id in s.conns ==> s.conns[id].wallet == w
    case SweepAll(order, _) => SweepOrder(s, e.now, order)
    case _ => true
  }

  /** A registration is at once followed by the announcement; a refused one changes nothing. */
  ghost function Next(s: HubState, e: Timed): HubState {
    if !Enabled(s, e) then s else
    match e.op
    case Connect(id, c, rooms) =>
      if Admits(s, c.wallet) then Announce(Register(s, id, c), c.wallet, e.now, rooms) else s
    case Close(id, rooms) => Disconnect(s, id, e.now, rooms)
    case SwapView(w, view) => SetUserView(s, w, view)
    case PutBeacon(w, status, rooms) => Announce(BeaconPut(s, w, status, e.now), w, e.now, rooms)
    case Frame(id, w, rooms) => NoteActivity(s, id, w, e.now, rooms)
    case Declare(id, w, status, rooms) => DeclarePresence(s, id, w, status, e.now, rooms)
    case SweepAll(order, roomsOf) => Sweep(s, e.now, order, roomsOf)
  }

  /** Everybody concerned has a room to be told in, and the lookup succeeds. */
  ghost predicate Roomed(op: Op) {
    match op
    case Connect(_, _, rooms) => rooms != []
    case Close(_, rooms) => rooms != []
    case PutBeacon(_, _, rooms) => rooms != []
    case Frame(_, _, rooms) => rooms != []
    case Declare(_, _, _, rooms) => rooms != []
    case SweepAll(_, roomsOf) => forall w :: roomsOf(w) != []
    case SwapView(_, _) => true
  }

  lemma RegisterElsewhere(s: HubState, id: ConnId, c: Conn, now: int)
    requires Coherent(s) && id !in s.conns
    ensures var s1 := Register(s, id, c);
            Coherent(s1) && forall v :: v != c.wallet ==> Derived(s1, v, now) == Derived(s, v, now)
  {
    var s1 := Register(s, id, c);
    forall v | v != c.wallet
      ensures Derived(s1, v, now) == Derived(s, v, now) && (HasDevice(s.conns, v) <==> HasDevice(s1.conns, v))
    {
      DerivedElsewhere(s, s1, c.wallet, v, now);
    }
  }

  lemma UnregisterElsewhere(s: HubState, id: ConnId, now: int)
    requires Coherent(s) && id in s.conns
    ensures var s1 := Unregister(s, id);
            Coherent(s1)
            && forall v :: v != s.conns[id].wallet ==> Derived(s1, v, now) == Derived(s, v, now)
  {
    var s1 := Unregister(s, id);
    forall v | v != s.conns[id].wallet ensures Derived(s1, v, now) == Derived(s, v, now) {
      DerivedElsewhere(s, s1, s.conns[id].wallet, v, now);
    }
    forall w | w in s1.beacons ensures !HasDevice(s1.conns, w) {
      assert !HasDevice(s.conns, w);
    }
  }

  lemma TouchElsewhere(s: HubState, id: ConnId, c: Conn, now: int)
    requires Coherent(s) && id in s.conns && c.wallet == s.conns[id].wallet
    ensures var s1 := Touch(s, id, c);
            Coherent(s1) && forall v :: v != c.wallet ==> Derived(s1, v, now) == Derived(s, v, now)
  {
    var s1 := Touch(s, id, c);
    forall v | v != c.wallet ensures Derived(s1, v, now) == Derived(s, v, now) {
      DerivedElsewhere(s, s1, c.wallet, v, now);
    }
    forall w | w in s1.beacons ensures !HasDevice(s1.conns, w) {
      assert !HasDevice(s.conns, w);
    }
  }

  lemma PutSameElsewhere(s: HubState, w: Wallet, status: Status, now: int, v: Wallet)
    requires v != w
    ensures var s1 := BeaconPut(s, w, status, now);
            SameElsewhere(s.conns, s1.conns, w) && FromBeacon(s1.beacons, v, now) == FromBeacon(s.beacons, v, now)
            && (v in s1.beacons <==> v in s.beacons)
  {
  }

  /** A beacon is kept exactly for a wallet without a device, whatever there was before. */
  lemma PutIsAlone(s: HubState, w: Wallet, status: Status, now: int)
    ensures var s1 := BeaconPut(s, w, status, now);
            && (w in s1.beacons <==> !HasDevice(s1.conns, w)) && s1.presence == s.presence
            && (w in s1.beacons ==> s1.beacons[w] == Beacon(status, now))
  {
    var s1 := BeaconPut(s, w, status, now);
    if HasDevice(s.conns, w) {
      var id :| id in s.conns && s.conns[id].wallet == w;
      assert id in s1.conns && s1.conns[id].wallet == w;
    }
  }

  lemma BeaconElsewhere(s: HubState, w: Wallet, status: Status, now: int)
    requires Coherent(s)
    ensures var s1 := BeaconPut(s, w, status, now);
            Coherent(s1) && forall v :: v != w ==> Derived(s1, v, now) == Derived(s, v, now)
  {
    hide Derived, BeaconPut, SameElsewhere, FromBeacon, HasDevice;
    var s1 := BeaconPut(s, w, status, now);
    PutIsAlone(s, w, status, now);
    forall v | v != w
      ensures Derived(s1, v, now) == Derived(s, v, now)
      ensures v in s1.beacons ==> !HasDevice(s1.conns, v)
    {
      PutSameElsewhere(s, w, status, now, v);
      DerivedElsewhere(s, s1, w, v, now);
    }
  }

  /** Swapping a view moves nobody's presence. */
  lemma ViewElsewhere(s: HubState, w: Wallet, view: ConnView)
    ensures var s1 := SetUserView(s, w, view);
            && (forall v :: HasDevice(s1.conns, v) <==> HasDevice(s.conns, v))
            && (forall v, t :: Derived(s1, v, t) == Derived(s, v, t))
  {
    var s1 := SetUserView(s, w, view);
    forall v ensures HasDevice(s1.conns, v) <==> HasDevice(s.conns, v) {
      if HasDevice(s.conns, v) {
        var id :| id in s.conns && s.conns[id].wallet == v;
        assert id in s1.conns && s1.conns[id].wallet == v;
      }
    }
    forall v, t ensures Derived(s1, v, t) == Derived(s, v, t) {
      if HasOnline(s.conns, v, t) {
        var id :| id in s.conns && s.conns[id].wallet == v && s.conns[id].StatusAt(t) == Online;
        assert id in s1.conns && s1.conns[id].wallet == v && s1.conns[id].StatusAt(t) == Online;
      }
      assert HasDevice(s1.conns, v) <==> HasDevice(s.conns, v);
    }
  }

  // -------------------------------------------------------------------- sweep ---

  lemma {:induction false} AnnounceAllEffect(s: HubState, ws: seq<Wallet>, now: int,
                                             roomsOf: Wallet -> seq<RoomId>)
    ensures var s' := AnnounceAll(s, ws, now, roomsOf);
            && s'.conns == s.conns && s'.beacons == s.beacons
            && (forall v, t :: Derived(s', v, t) == Derived(s, v, t))
            && (forall v :: Announced(s', v) == if v in ws then Derived(s, v, now) else Announced(s, v))
    ensures Coherent(s) ==> Coherent(AnnounceAll(s, ws, now, roomsOf))
    ensures (forall w :: roomsOf(w) != []) && StreamAgrees(s)
            ==> StreamAgrees(AnnounceAll(s, ws, now, roomsOf))
    decreases |ws|
  {
    if ws != [] {
      var last := ws[|ws| - 1];
      AnnounceAllEffect(s, ws[..|ws| - 1], now, roomsOf);
      AnnounceEffect(AnnounceAll(s, ws[..|ws| - 1], now, roomsOf), last, now, roomsOf(last));
      assert forall v :: v in ws <==> v == last || v in ws[..|ws| - 1];
    }
  }

  lemma ExpiryHidden(s: HubState, now: int)
    requires Coherent(s)
    ensures var s1 := s.(beacons := FreshBeacons(s.beacons, now));
            && (forall v :: Derived(s1, v, now) == Derived(s, v, now))
            && (forall v :: Announced(s1, v) == Announced(s, v))
            && Coherent(s1) && (StreamAgrees(s) ==> StreamAgrees(s1))
  {
    var s1 := s.(beacons := FreshBeacons(s.beacons, now));
    assert forall v :: FromBeacon(s1.beacons, v, now) == FromBeacon(s.beacons, v, now);
    assert forall v :: FromConns(s1.conns, v, now) == FromConns(s.conns, v, now);
  }

  lemma FreshExactly(beacons: map<Wallet, Beacon>, now: int)
    ensures var kept := FreshBeacons(beacons, now);
            && kept.Keys <= beacons.Keys
            && (forall w :: w in beacons ==> (w in kept <==> now - beacons[w].at < BEACON_TTL_MS))
            && (forall w :: w in kept ==> kept[w] == beacons[w])
  {
  }

  /** Dropping expired beacons changes nobody's derived status. */
  lemma FreshDerives(s: HubState, now: int, w: Wallet)
    ensures Derived(s.(beacons := FreshBeacons(s.beacons, now)), w, now) == Derived(s, w, now)
  {
    var s1 := s.(beacons := FreshBeacons(s.beacons, now));
    assert FromBeacon(s1.beacons, w, now) == FromBeacon(s.beacons, w, now);
  }

  /** Who is not stale is announced as derived. */
  lemma NotStale(s: HubState, now: int, w: Wallet)
    requires w !in Stale(s, now) && Announced(s, w).AtLeast(Derived(s, w, now))
    ensures Announced(s, w) == Derived(s, w, now)
  {
    hide Derived;
  }

  /** Right after a sweep the announced status of every wallet is its derived one, whatever the
      order in which the stale ones were announced. */
  lemma SweepSettles(s: HubState, now: int, order: seq<Wallet>, roomsOf: Wallet -> seq<RoomId>)
    requires NeverUnder(s, now) && Coherent(s) && SweepOrder(s, now, order)
    ensures var s' := Sweep(s, now, order, roomsOf);
            && (forall w :: Announced(s', w) == Derived(s', w, now) == Derived(s, w, now))
            && s'.conns == s.conns && s'.beacons.Keys <= s.beacons.Keys
            && (forall w :: w in s.beacons ==> (w in s'.beacons <==> now - s.beacons[w].at < BEACON_TTL_MS))
            && (forall w :: w in s'.beacons ==> s'.beacons[w] == s.beacons[w])
            && Coherent(s')
            && ((forall w :: roomsOf(w) != []) && StreamAgrees(s) ==> StreamAgrees(s'))
  {
    hide Coherent, StreamAgrees, Derived, Announced, Stale, FreshBeacons, AnnounceAll;
    var s1 := s.(beacons := FreshBeacons(s.beacons, now));
    ExpiryHidden(s, now);
    FreshExactly(s.beacons, now);
    AnnounceAllEffect(s1, order, now, roomsOf);
    forall w ensures Announced(Sweep(s, now, order, roomsOf), w) == Derived(Sweep(s, now, order, roomsOf), w, now)
                  == Derived(s, w, now)
    {
      if w !in order {
        NotStale(s1, now, w);
      }
    }
  }

  // ----------------------------------------------------------------- theorems ---

  lemma StepKeeps(s: HubState, e: Timed)
    requires NeverUnder(s, e.now) && Coherent(s)
    ensures NeverUnder(Next(s, e), e.now) && Coherent(Next(s, e))
    ensures Roomed(e.op) && StreamAgrees(s) ==> StreamAgrees(Next(s, e))
  {
    hide Coherent, StreamAgrees, Announce, Derived, Admits, SetUserView, Sweep, SweepOrder;
    var now := e.now;
    if !Enabled(s, e) {
      return;
    }
    match e.op {
      case Connect(id, c, rooms) =>
        if Admits(s, c.wallet) {
          RegisterElsewhere(s, id, c, now);
          ChangeThenAnnounce(s, Register(s, id, c), c.wallet, now, rooms);
        }
      case Close(id, rooms) =>
        if id in s.conns {
          UnregisterElsewhere(s, id, now);
          ChangeThenAnnounce(s, Unregister(s, id), s.conns[id].wallet, now, rooms);
        }
      case SwapView(w, view) =>
        ViewElsewhere(s, w, view);
        ViewKeeps(s, w, view, now);
      case PutBeacon(w, status, rooms) =>
        BeaconElsewhere(s, w, status, now);
        ChangeThenAnnounce(s, BeaconPut(s, w, status, now), w, now, rooms);
      case Frame(id, w, rooms) =>
        FrameKeeps(s, id, w, now, rooms);
      case Declare(id, w, status, rooms) =>
        if id in s.conns {
          TouchElsewhere(s, id, s.conns[id].Declared(status, now), now);
          ChangeThenAnnounce(s, Touch(s, id, s.conns[id].Declared(status, now)), w, now, rooms);
        } else {
          ChangeThenAnnounce(s, s, w, now, rooms);
        }
      case SweepAll(order, roomsOf) =>
        SweepSettles(s, now, order, roomsOf);
    }
  }

  lemma ViewKeeps(s: HubState, w: Wallet, view: ConnView, now: int)
    requires NeverUnder(s, now) && Coherent(s)
    ensures var s' := SetUserView(s, w, view);
            NeverUnder(s', now) && Coherent(s') && (StreamAgrees(s) ==> StreamAgrees(s'))
  {
    ViewElsewhere(s, w, view);
    var s' := SetUserView(s, w, view);
    assert forall v :: Announced(s', v) == Announced(s, v);
  }

  lemma FrameKeeps(s: HubState, id: ConnId, w: Wallet, now: int, rooms: seq<RoomId>)
    requires NeverUnder(s, now) && Coherent(s) && (id in s.conns ==> s.conns[id].wallet == w)
    ensures var s' := NoteActivity(s, id, w, now, rooms);
            && NeverUnder(s', now) && Coherent(s')
            && (rooms != [] && StreamAgrees(s) ==> StreamAgrees(s'))
  {
    var s1 := if id in s.conns then Touch(s, id, s.conns[id].Active(now)) else s;
    if id in s.conns {
      TouchElsewhere(s, id, s.conns[id].Active(now), now);
    }
    ChangeThenAnnounce(s, s1, w, now, rooms);
    assert forall v :: Announced(s1, v) == Announced(s, v);
    if Announced(s1, w) == Online {
      forall v ensures Announced(s1, v).AtLeast(Derived(s1, v, now)) {
        assert Announced(s, v).AtLeast(Derived(s, v, now));
      }
    }
  }

  ghost function RunOf(es: seq<Timed>): HubState {
    if es == [] then EMPTY_HUB else Next(RunOf(es[..|es| - 1]), es[|es| - 1])
  }

  ghost predicate Clocked(es: seq<Timed>) {
    forall i, j :: 0 <= i < j < |es| ==> es[i].now <= es[j].now
  }

  lemma {:induction false} RunKeeps(es: seq<Timed>, t: int)
    requires Clocked(es)
    requires es != [] ==> es[|es| - 1].now <= t
    ensures NeverUnder(RunOf(es), t) && Coherent(RunOf(es))
    ensures (forall i :: 0 <= i < |es| ==> Roomed(es[i].op)) ==> StreamAgrees(RunOf(es))
    decreases |es|
  {
    if es != [] {
      var n := |es| - 1;
      RunKeeps(es[..n], es[n].now);
      StepKeeps(RunOf(es[..n]), es[n]);
      NeverUnderLater(RunOf(es), es[n].now, t);
    }
  }

  /** In every run with a clock that does not go back, at every later time, nobody is announced
      below what their devices add up to; no wallet has both a beacon and a connection; and if
      everybody has a room to be told in, the last event about each wallet says exactly what is
      announced for it. */
  lemma {:induction false} PresenceTheorem(es: seq<Timed>, t: int, w: Wallet)
    requires Clocked(es) && (es != [] ==> es[|es| - 1].now <= t)
    ensures var s := RunOf(es);
            && Announced(s, w).AtLeast(Derived(s, w, t))
            && !(w in s.beacons && HasDevice(s.conns, w))
            && ((forall i :: 0 <= i < |es| ==> Roomed(es[i].op))
                ==> LastTold(s.told, w) == Announced(s, w))
  {
    RunKeeps(es, t);
  }

  /** Right after a sweep, in every run, announced and derived presence are the same for everybody. */
  lemma {:induction false} SweepTheorem(es: seq<Timed>, w: Wallet)
    requires Clocked(es) && es != [] && es[|es| - 1].op.SweepAll?
    requires Enabled(RunOf(es[..|es| - 1]), es[|es| - 1])
    ensures Announced(RunOf(es), w) == Derived(RunOf(es), w, es[|es| - 1].now)
  {
    var n := |es| - 1;
    RunKeeps(es[..n], es[n].now);
    SweepSettles(RunOf(es[..n]), es[n].now, es[n].op.order, es[n].op.roomsOf);
  }

  /** Dropping a wallet's last connection makes it derived and announced Offline at once, from any
      state in which no beacon coexists with a connection. */
  lemma LastConnectionGone(s: HubState, id: ConnId, now: int, t: int, rooms: seq<RoomId>)
    requires Coherent(s) && id in s.conns
    ensures var w := s.conns[id].wallet;
            var s' := Disconnect(s, id, now, rooms);
            && Announced(s', w) == Derived(s', w, now)
            && (ConnsOf(s.conns, w) == {id}
                <==> Derived(s', w, t) == Offline && Announced(s', w) == Offline)
  {
    var w := s.conns[id].wallet;
    var s1 := Unregister(s, id);
    AnnounceEffect(s1, w, now, rooms);
    assert id in ConnsOf(s.conns, w);
    assert HasDevice(s.conns, w);
    if HasDevice(s1.conns, w) {
      var other :| other in s1.conns && s1.conns[other].wallet == w;
      assert other in ConnsOf(s.conns, w) && other != id;
    } else {
      assert forall k :: k in ConnsOf(s.conns, w) ==> k == id || k in s1.conns;
      assert ConnsOf(s.conns, w) == {id};
    }
  }

  /** Right after a beacon with a status that may be declared, the wallet is derived and announced as that, and
      so is each of its connections. */
  lemma BeaconSpeaks(s: HubState, w: Wallet, status: Status, now: int, rooms: seq<RoomId>)
    requires status != Offline && Coherent(s)
    ensures var s' := Announce(BeaconPut(s, w, status, now), w, now, rooms);
            && Derived(s', w, now) == status && Announced(s', w) == status
            && forall id :: id in s.conns && s.conns[id].wallet == w ==>
                              id in s'.conns && s'.conns[id].StatusAt(now) == status
  {
    var s1 := BeaconPut(s, w, status, now);
    AnnounceEffect(s1, w, now, rooms);
    if HasDevice(s.conns, w) {
      var id :| id in s.conns && s.conns[id].wallet == w;
      assert id in s1.conns && s1.conns[id].wallet == w;
      assert s1.conns[id].StatusAt(now) == status;
    }
  }

  /** A new connection is admitted exactly below both caps; then it is the wallet's, and what the wallet's devices
      now add up to is announced. A refused one changes nothing. */
  lemma ConnectExactly(s: HubState, id: ConnId, c: Conn, now: int, rooms: seq<RoomId>)
    requires Coherent(s) && id !in s.conns
    ensures var s' := Next(s, Timed(Connect(id, c, rooms), now));
            && (id in s'.conns <==>
                  && |s.conns| < MAX_CONNECTIONS
                  && |set k | k in s.conns && s.conns[k].wallet == c.wallet| < MAX_PER_WALLET)
            && (id in s'.conns ==> && s'.conns == s.conns[id := c] && c.wallet !in s'.beacons
                                   && Announced(s', c.wallet) == Derived(s', c.wallet, now) != Offline)
            && (id !in s'.conns ==> s' == s)
  {
    assert (set k | k in s.conns && s.conns[k].wallet == c.wallet) == ConnsOf(s.conns, c.wallet);
    if Admits(s, c.wallet) {
      AnnounceEffect(Register(s, id, c), c.wallet, now, rooms);
      assert HasDevice(s.conns[id := c], c.wallet) by {
        assert s.conns[id := c][id].wallet == c.wallet;
      }
    }
  }

  /** A frame on a connection makes its wallet online at once, and for less than five minutes on its own. */
  lemma ActivityShows(s: HubState, id: ConnId, now: int, t: int, rooms: seq<RoomId>)
    requires Coherent(s) && id in s.conns && now <= t
    ensures var w := s.conns[id].wallet;
            var s' := NoteActivity(s, id, w, now, rooms);
            && Derived(s', w, now) == Online && Announced(s', w) == Online
            && (t - now < AWAY_AFTER_MS ==> Derived(s', w, t) == Online)
            && (ConnsOf(s.conns, w) == {id} && t - now >= AWAY_AFTER_MS ==> Derived(s', w, t) == Away)
  {
    var w := s.conns[id].wallet;
    var s1 := Touch(s, id, s.conns[id].Active(now));
    AnnounceEffect(s1, w, now, rooms);
    assert s1.conns[id].wallet == w && s1.conns[id].StatusAt(now) == Online;
    assert HasDevice(s.conns, w);
    if ConnsOf(s.conns, w) == {id} && t - now >= AWAY_AFTER_MS {
      forall k | k in s1.conns && s1.conns[k].wallet == w ensures s1.conns[k].StatusAt(t) == Away {
        assert k in ConnsOf(s.conns, w);
      }
    }
  }

  /** Declaring a connection away is announced as far as the wallet's other connections let it be; any other
      declaration counts as activity. */
  lemma DeclarationShows(s: HubState, id: ConnId, status: Status, now: int, rooms: seq<RoomId>)
    requires Coherent(s) && id in s.conns
    ensures var w := s.conns[id].wallet;
            var s' := DeclarePresence(s, id, w, status, now, rooms);
            && Announced(s', w) == Derived(s', w, now)
            && (Derived(s', w, now) == Online
                <==> status != Away
                     || exists k :: k in s.conns && k != id && s.conns[k].wallet == w
                                    && s.conns[k].StatusAt(now) == Online)
            && Derived(s', w, now) != Offline
  {
    var w := s.conns[id].wallet;
    var s1 := Touch(s, id, s.conns[id].Declared(status, now));
    AnnounceEffect(s1, w, now, rooms);
    assert HasDevice(s.conns, w);
    assert s1.conns[id].wallet == w && s1.conns[id].StatusAt(now) == (if status == Away then Away else Online);
    if k :| k in s.conns && k != id && s.conns[k].wallet == w && s.conns[k].StatusAt(now) == Online {
      assert s1.conns[k].StatusAt(now) == Online;
    }
    if HasOnline(s1.conns, w, now) {
      var k :| k in s1.conns && s1.conns[k].wallet == w && s1.conns[k].StatusAt(now) == Online;
      assert k != id ==> s1.conns[k] == s.conns[k];
    }
  }
}
