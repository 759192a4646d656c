/** The realtime hub of app/server/src/hub.rs with its redundant indexes left out: connections,
    announced presence and beacons as values, and what each operation does to them. */
module HubModel {
  import opened Wrappers
  import opened Events
  import opened Sets

  const MAX_CONNECTIONS: nat := 5000
  const MAX_PER_WALLET: nat := 8
  const AWAY_AFTER_MS: int := 5 * 60 * 1000
  const BEACON_TTL_MS: int := 150 * 1000

  type ConnId = nat

  datatype Envelope = Envelope(
    seqNo: nat,
    atMs: int,
    target: Target,
    origin: Option<Wallet>,
    event: ServerEvent)

  /** What a connection is subscribed to and whom it must not hear from. */
  datatype ConnView = ConnView(rooms: set<RoomId>, blocks: set<Wallet>) {
    predicate Accepts(env: Envelope, me: Wallet) {
      if env.origin.Some? && env.origin.value in blocks then false
      else
        match env.target
        case ToRoom(room) => room in rooms
        case ToUser(wallet) => wallet == me
        case ToRoomExcept(room, except) => room in rooms && except != me
        case ToRooms(targets) => exists r :: r in targets && r in rooms
        case ToAll => true
    }
  }

  datatype ConnKind = Ws | Sse

  datatype Conn = Conn(wallet: Wallet, kind: ConnKind, view: ConnView, lastActive: int, away: bool) {
    /** What this device contributes; at least Away. */
    function StatusAt(now: int): Status {
      if away then Away else if now - lastActive >= AWAY_AFTER_MS then Away else Online
    }

    function Active(now: int): Conn {
      this.(lastActive := now, away := false)
    }

    function Declared(status: Status, now: int): Conn {
      if status == Away then this.(away := true) else Active(now)
    }
  }

  datatype Beacon = Beacon(status: Status, at: int)

  /** A presence event as it went out on the stream. */
  datatype Told = Told(wallet: Wallet, status: Status)

  datatype HubState = HubState(
    conns: map<ConnId, Conn>,
    presence: map<Wallet, Status>,
    beacons: map<Wallet, Beacon>,
    told: seq<Told>)

  const EMPTY_HUB := HubState(map[], map[], map[], [])

  // ------------------------------------------------------------------ fan-out ---

  /** Every connection that would accept the envelope, found by asking each of them. */
  ghost function Recipients(conns: map<ConnId, Conn>, env: Envelope): set<ConnId> {
    set id | id in conns && conns[id].view.Accepts(env, conns[id].wallet)
  }

  ghost function ConnsOf(conns: map<ConnId, Conn>, w: Wallet): set<ConnId> {
    set id | id in conns && conns[id].wallet == w
  }

  // ----------------------------------------------------------------- presence ---

  ghost predicate HasDevice(conns: map<ConnId, Conn>, w: Wallet) {
    exists id :: id in conns && conns[id].wallet == w
  }

  ghost predicate HasOnline(conns: map<ConnId, Conn>, w: Wallet, now: int) {
    exists id :: id in conns && conns[id].wallet == w && conns[id].StatusAt(now) == Online
  }

  /** The most present of a wallet's connections; Offline if it has none. */
  ghost function FromConns(conns: map<ConnId, Conn>, w: Wallet, now: int): Status {
    if HasOnline(conns, w, now) then Online
    else if HasDevice(conns, w) then Away
    else Offline
  }

  function FromBeacon(beacons: map<Wallet, Beacon>, w: Wallet, now: int): Status {
    if w in beacons && now - beacons[w].at < BEACON_TTL_MS then beacons[w].status else Offline
  }

  ghost function Derived(s: HubState, w: Wallet, now: int): Status {
    FromConns(s.conns, w, now).Max(FromBeacon(s.beacons, w, now))
  }

  function Announced(s: HubState, w: Wallet): Status {
    if w in s.presence then s.presence[w] else Offline
  }

  /** Record the derived status; tell the wallet's rooms if it moved and there are any. */
  ghost function Announce(s: HubState, w: Wallet, now: int, rooms: seq<RoomId>): HubState {
    var d := Derived(s, w, now);
    s.(presence := if d == Offline then s.presence - {w} else s.presence[w := d],
       told := s.told + if d != Announced(s, w) && rooms != [] then [Told(w, d)] else [])
  }

  // --------------------------------------------------------------- operations ---

  ghost predicate Admits(s: HubState, w: Wallet) {
    |s.conns| < MAX_CONNECTIONS && |ConnsOf(s.conns, w)| < MAX_PER_WALLET
  }

  function Register(s: HubState, id: ConnId, c: Conn): HubState {
    s.(conns := s.conns[id := c], beacons := s.beacons - {c.wallet})
  }

  function Unregister(s: HubState, id: ConnId): HubState {
    s.(conns := s.conns - {id})
  }

  function WithView(conns: map<ConnId, Conn>, w: Wallet, view: ConnView): map<ConnId, Conn> {
    map id | id in conns :: if conns[id].wallet == w then conns[id].(view := view) else conns[id]
  }

  function SetUserView(s: HubState, w: Wallet, view: ConnView): HubState {
    s.(conns := WithView(s.conns, w, view))
  }

  function AllDeclared(conns: map<ConnId, Conn>, w: Wallet, status: Status, now: int): map<ConnId, Conn> {
    map id | id in conns ::
      if conns[id].wallet == w then conns[id].Declared(status, now) else conns[id]
  }

  /** A `PUT /api/presence`: it speaks for the wallet only if no connection does. */
  ghost function BeaconPut(s: HubState, w: Wallet, status: Status, now: int): HubState {
    if HasDevice(s.conns, w) then
      s.(conns := AllDeclared(s.conns, w, status, now), beacons := s.beacons - {w})
    else
      s.(beacons := s.beacons[w := Beacon(status, now)])
  }

  function Touch(s: HubState, id: ConnId, c: Conn): HubState {
    if id in s.conns then s.(conns := s.conns[id := c]) else s
  }

  ghost function NoteActivity(s: HubState, id: ConnId, w: Wallet, now: int, rooms: seq<RoomId>): HubState {
    var s1 := if id in s.conns then Touch(s, id, s.conns[id].Active(now)) else s;
    if Announced(s1, w) != Online then Announce(s1, w, now, rooms) else s1
  }

  ghost function DeclarePresence(s: HubState, id: ConnId, w: Wallet, status: Status, now: int,
                                 rooms: seq<RoomId>): HubState {
    var s1 := if id in s.conns then Touch(s, id, s.conns[id].Declared(status, now)) else s;
    Announce(s1, w, now, rooms)
  }

  ghost function Disconnect(s: HubState, id: ConnId, now: int, rooms: seq<RoomId>): HubState {
    if id in s.conns then Announce(Unregister(s, id), s.conns[id].wallet, now, rooms) else s
  }

  function FreshBeacons(beacons: map<Wallet, Beacon>, now: int): map<Wallet, Beacon> {
    map w | w in beacons && now - beacons[w].at < BEACON_TTL_MS :: beacons[w]
  }

  ghost function Stale(s: HubState, now: int): set<Wallet> {
    set w | w in s.presence && Derived(s, w, now) != s.presence[w]
  }

  ghost function AnnounceAll(s: HubState, ws: seq<Wallet>, now: int, roomsOf: Wallet -> seq<RoomId>): HubState {
    if ws == [] then s
    else
      var last := ws[|ws| - 1];
      Announce(AnnounceAll(s, ws[..|ws| - 1], now, roomsOf), last, now, roomsOf(last))
  }

  /** The sweep: drop expired beacons, then announce every wallet whose announced status no longer
      holds, in the unspecified order in which the table lists them. */
  ghost function Sweep(s: HubState, now: int, order: seq<Wallet>, roomsOf: Wallet -> seq<RoomId>): HubState {
    AnnounceAll(s.(beacons := FreshBeacons(s.beacons, now)), order, now, roomsOf)
  }

  ghost predicate SweepOrder(s: HubState, now: int, order: seq<Wallet>) {
    && Distinct(order)
    && forall w :: w in order <==> w in Stale(s.(beacons := FreshBeacons(s.beacons, now)), now)
  }
}
