/** When the hub's lookup tables agree with its connections. */
module HubIndex {
  import opened Events
  import opened HubModel
  import opened Sets

  predicate InRoom(byRoom: map<RoomId, set<ConnId>>, r: RoomId, id: ConnId) {
    r in byRoom && id in byRoom[r]
  }

  predicate Subscribed(conns: map<ConnId, Conn>, r: RoomId, id: ConnId) {
    id in conns && r in conns[id].view.rooms
  }

  ghost predicate NoEmptyBucket(byRoom: map<RoomId, set<ConnId>>) {
    forall r :: r in byRoom ==> byRoom[r] != {}
  }

  /** A connection is filed under a room exactly when its view has the room; no empty buckets. */
  ghost predicate RoomIndexOk(byRoom: map<RoomId, set<ConnId>>, conns: map<ConnId, Conn>) {
    NoEmptyBucket(byRoom) && forall r, id :: InRoom(byRoom, r, id) <==> Subscribed(conns, r, id)
  }

  /** `b` is `a` with one connection filed under some more rooms. */
  ghost predicate Filed(a: map<RoomId, set<ConnId>>, b: map<RoomId, set<ConnId>>, rooms: set<RoomId>, id: ConnId) {
    && (NoEmptyBucket(a) ==> NoEmptyBucket(b))
    && (forall r, k :: InRoom(b, r, k) <==> InRoom(a, r, k) || (r in rooms && k == id))
  }

  /** `b` is `a` with one connection taken out of some rooms. */
  ghost predicate Unfiled(a: map<RoomId, set<ConnId>>, b: map<RoomId, set<ConnId>>, rooms: set<RoomId>, id: ConnId) {
    && (NoEmptyBucket(a) ==> NoEmptyBucket(b))
    && (forall r, k :: InRoom(b, r, k) <==> InRoom(a, r, k) && !(r in rooms && k == id))
  }

  predicate Listed(byUser: map<Wallet, seq<ConnId>>, w: Wallet, id: ConnId) {
    w in byUser && id in byUser[w]
  }

  predicate Held(conns: map<ConnId, Conn>, w: Wallet, id: ConnId) {
    id in conns && conns[id].wallet == w
  }

  /** A connection is listed under a wallet exactly once, and exactly when it is the wallet's. */
  ghost predicate UserIndexOk(byUser: map<Wallet, seq<ConnId>>, conns: map<ConnId, Conn>) {
    && (forall w :: w in byUser ==> byUser[w] != [] && Distinct(byUser[w]))
    && (forall w, id :: Listed(byUser, w, id) <==> Held(conns, w, id))
  }

  function IdsOf(byUser: map<Wallet, seq<ConnId>>, w: Wallet): seq<ConnId> {
    if w in byUser then byUser[w] else []
  }

  lemma IdsAreConns(byUser: map<Wallet, seq<ConnId>>, conns: map<ConnId, Conn>, w: Wallet)
    requires UserIndexOk(byUser, conns)
    ensures Elements(IdsOf(byUser, w)) == ConnsOf(conns, w)
    ensures |IdsOf(byUser, w)| == |ConnsOf(conns, w)|
    ensures IdsOf(byUser, w) == [] <==> !HasDevice(conns, w)
  {
    var ids := IdsOf(byUser, w);
    forall id ensures id in Elements(ids) <==> id in ConnsOf(conns, w) {
      assert Listed(byUser, w, id) <==> Held(conns, w, id);
    }
    DistinctCount(ids);
    if HasDevice(conns, w) {
      var id :| id in conns && conns[id].wallet == w;
      assert Held(conns, w, id);
    } else {
      forall id ensures id !in ids {
        assert Listed(byUser, w, id) <==> Held(conns, w, id);
      }
      assert Elements(ids) == {};
      DistinctCount(ids);
    }
  }

  /** The room table is a function of the connections: two that agree with them are equal. */
  lemma RoomIndexUnique(a: map<RoomId, set<ConnId>>, b: map<RoomId, set<ConnId>>, conns: map<ConnId, Conn>)
    requires RoomIndexOk(a, conns) && RoomIndexOk(b, conns)
    ensures a == b
  {
    forall r | r in a ensures r in b && a[r] == b[r] {
      var id := Member(a[r]);
      assert InRoom(a, r, id);
      assert InRoom(b, r, id);
      forall k ensures k in a[r] <==> k in b[r] {
        assert InRoom(a, r, k) <==> InRoom(b, r, k);
      }
    }
    forall r | r in b ensures r in a {
      var id := Member(b[r]);
      assert InRoom(b, r, id);
      assert InRoom(a, r, id);
    }
  }

  /** The index finds everyone a full scan would: the candidates it offers for a target include
      every connection that accepts the envelope. */
  ghost function Candidates(byRoom: map<RoomId, set<ConnId>>, byUser: map<Wallet, seq<ConnId>>,
                            conns: map<ConnId, Conn>, target: Target): set<ConnId> {
    match target
    case ToRoom(r) => if r in byRoom then byRoom[r] else {}
    case ToRoomExcept(r, _) => if r in byRoom then byRoom[r] else {}
    case ToRooms(rooms) => set r, id | r in rooms && r in byRoom && id in byRoom[r] :: id
    case ToUser(w) => Elements(IdsOf(byUser, w))
    case ToAll => conns.Keys
  }

  lemma CandidatesComplete(byRoom: map<RoomId, set<ConnId>>, byUser: map<Wallet, seq<ConnId>>,
                           conns: map<ConnId, Conn>, env: Envelope)
    requires RoomIndexOk(byRoom, conns) && UserIndexOk(byUser, conns)
    ensures Recipients(conns, env) <= Candidates(byRoom, byUser, conns, env.target)
  {
    forall id | id in Recipients(conns, env)
      ensures id in Candidates(byRoom, byUser, conns, env.target)
    {
      match env.target {
        case ToRoom(r) =>
          assert InRoom(byRoom, r, id) <==> Subscribed(conns, r, id);
        case ToRoomExcept(r, _) =>
          assert InRoom(byRoom, r, id) <==> Subscribed(conns, r, id);
        case ToRooms(rooms) =>
          var r :| r in rooms && r in conns[id].view.rooms;
          assert InRoom(byRoom, r, id) <==> Subscribed(conns, r, id);
        case ToUser(w) =>
          assert Listed(byUser, w, id) <==> Held(conns, w, id);
        case ToAll =>
      }
    }
  }

  // ------------------------------------------------------------ index bookkeeping ---

  function Without(ids: seq<ConnId>, id: ConnId): seq<ConnId> {
    if ids == [] then []
    else
      var last := ids[|ids| - 1];
      Without(ids[..|ids| - 1], id) + if last != id then [last] else []
  }

  function Dropped(byUser: map<Wallet, seq<ConnId>>, w: Wallet, id: ConnId): map<Wallet, seq<ConnId>> {
    if w !in byUser then byUser
    else if Without(byUser[w], id) == [] then byUser - {w}
    else byUser[w := Without(byUser[w], id)]
  }

  lemma {:induction false} WithoutStep(ids: seq<ConnId>, id: ConnId)
    requires ids != []
    ensures var n := |ids| - 1;
            Without(ids, id) == Without(ids[..n], id) + if ids[n] != id then [ids[n]] else []
  {
  }

  lemma {:induction false} WithoutFacts(ids: seq<ConnId>, id: ConnId)
    ensures forall k :: k in Without(ids, id) <==> k in ids && k != id
    ensures |Without(ids, id)| <= |ids|
    ensures id !in ids ==> Without(ids, id) == ids
    decreases |ids|
  {
    if ids != [] {
      var n := |ids| - 1;
      WithoutFacts(ids[..n], id);
      WithoutStep(ids, id);
      hide Without;
      assert ids == ids[..n] + [ids[n]];
    }
  }

  lemma {:induction false} WithoutDistinct(ids: seq<ConnId>, id: ConnId)
    requires Distinct(ids)
    ensures Distinct(Without(ids, id))
    decreases |ids|
  {
    if ids != [] {
      var n := |ids| - 1;
      WithoutDistinct(ids[..n], id);
      WithoutFacts(ids[..n], id);
      var before := Without(ids[..n], id);
      forall i | 0 <= i < |before| ensures before[i] != ids[n] {
        assert before[i] in ids[..n];
      }
    }
  }

  /** Listing a new connection and dropping it again restores the wallet table. */
  lemma DroppedUndoes(byUser: map<Wallet, seq<ConnId>>, conns: map<ConnId, Conn>, w: Wallet, id: ConnId)
    requires UserIndexOk(byUser, conns) && id !in conns
    ensures Dropped(byUser[w := IdsOf(byUser, w) + [id]], w, id) == byUser
  {
    hide Distinct;
    var ids := IdsOf(byUser, w);
    assert Listed(byUser, w, id) <==> Held(conns, w, id);
    WithoutFacts(ids, id);
    assert (ids + [id])[..|ids|] == ids;
    assert Without(ids + [id], id) == ids;
    if w in byUser {
      assert byUser[w := ids + [id]][w := ids] == byUser;
    } else {
      assert byUser[w := ids + [id]] - {w} == byUser;
    }
  }

  /** Tables that agree with the same connections agree with each other. */
  lemma TablesUnique(a: map<RoomId, set<ConnId>>, b: map<RoomId, set<ConnId>>,
                     ua: map<Wallet, seq<ConnId>>, ub: map<Wallet, seq<ConnId>>,
                     ta: nat, tb: nat, na: ConnId, nb: ConnId, conns: map<ConnId, Conn>)
    requires TablesOk(a, ua, ta, na, conns) && TablesOk(b, ub, tb, nb, conns)
    ensures a == b && ta == tb
  {
    hide RoomIndexOk, UserIndexOk;
    RoomIndexUnique(a, b, conns);
  }

  lemma TablesUndo(byRoom: map<RoomId, set<ConnId>>, byUser: map<Wallet, seq<ConnId>>, total: nat, nextId: ConnId,
                   conns: map<ConnId, Conn>, w: Wallet, id: ConnId)
    requires TablesOk(byRoom, byUser, total, nextId, conns) && id !in conns
    ensures Dropped(byUser[w := IdsOf(byUser, w) + [id]], w, id) == byUser
  {
    hide RoomIndexOk, UserIndexOk;
    DroppedUndoes(byUser, conns, w, id);
  }

  lemma UserIndexAdd(byUser: map<Wallet, seq<ConnId>>, conns: map<ConnId, Conn>, id: ConnId, c: Conn)
    requires UserIndexOk(byUser, conns) && id !in conns
    ensures UserIndexOk(byUser[c.wallet := IdsOf(byUser, c.wallet) + [id]], conns[id := c])
  {
    var ids := IdsOf(byUser, c.wallet);
    var byUser' := byUser[c.wallet := ids + [id]];
    forall w, k ensures Listed(byUser', w, k) <==> Held(conns[id := c], w, k) {
      assert Listed(byUser, w, k) <==> Held(conns, w, k);
    }
    assert id !in ids by {
      assert Listed(byUser, c.wallet, id) <==> Held(conns, c.wallet, id);
    }
  }

  lemma {:induction false} UserIndexDrop(byUser: map<Wallet, seq<ConnId>>, conns: map<ConnId, Conn>, id: ConnId)
    requires UserIndexOk(byUser, conns) && id in conns
    ensures UserIndexOk(Dropped(byUser, conns[id].wallet, id), conns - {id})
    ensures conns[id].wallet in byUser
    ensures |Without(IdsOf(byUser, conns[id].wallet), id)| <= |IdsOf(byUser, conns[id].wallet)|
  {
    hide Distinct, Without;
    var owner := conns[id].wallet;
    assert Held(conns, owner, id) && Listed(byUser, owner, id);
    var byUser' := Dropped(byUser, owner, id);
    WithoutFacts(byUser[owner], id);
    WithoutDistinct(byUser[owner], id);
    forall w, k ensures Listed(byUser', w, k) <==> Held(conns - {id}, w, k) {
      assert Listed(byUser, w, k) <==> Held(conns, w, k);
    }
  }

  lemma RoomIndexAdd(byRoom: map<RoomId, set<ConnId>>, byRoom': map<RoomId, set<ConnId>>,
                     conns: map<ConnId, Conn>, id: ConnId, c: Conn)
    requires RoomIndexOk(byRoom, conns) && id !in conns
    requires Filed(byRoom, byRoom', c.view.rooms, id)
    ensures RoomIndexOk(byRoom', conns[id := c])
  {
    forall r, k ensures InRoom(byRoom', r, k) <==> Subscribed(conns[id := c], r, k) {
      assert InRoom(byRoom, r, k) <==> Subscribed(conns, r, k);
    }
  }

  lemma RoomIndexDrop(byRoom: map<RoomId, set<ConnId>>, byRoom': map<RoomId, set<ConnId>>,
                      conns: map<ConnId, Conn>, id: ConnId)
    requires RoomIndexOk(byRoom, conns) && id in conns
    requires Unfiled(byRoom, byRoom', conns[id].view.rooms, id)
    ensures RoomIndexOk(byRoom', conns - {id})
  {
    forall r, k ensures InRoom(byRoom', r, k) <==> Subscribed(conns - {id}, r, k) {
      assert InRoom(byRoom, r, k) <==> Subscribed(conns, r, k);
    }
  }

  lemma MostPresent(conns: map<ConnId, Conn>, ids: seq<ConnId>, w: Wallet, now: int)
    requires Elements(ids) == ConnsOf(conns, w)
    requires forall k :: 0 <= k < |ids| ==> ids[k] in conns
    ensures HasOnline(conns, w, now) <==> exists k :: 0 <= k < |ids| && conns[ids[k]].StatusAt(now) == Online
    ensures HasDevice(conns, w) <==> ids != []
  {
    if HasOnline(conns, w, now) {
      var id :| id in conns && conns[id].wallet == w && conns[id].StatusAt(now) == Online;
      assert id in Elements(ids);
    }
    if HasDevice(conns, w) {
      var id :| id in conns && conns[id].wallet == w;
      assert id in Elements(ids);
    }
    forall k | 0 <= k < |ids| ensures conns[ids[k]].wallet == w {
      assert ids[k] in Elements(ids);
    }
    assert ids != [] ==> conns[ids[0]].wallet == w;
  }


  /** All the lookup tables together. */
  ghost predicate TablesOk(byRoom: map<RoomId, set<ConnId>>, byUser: map<Wallet, seq<ConnId>>, total: nat,
                           nextId: ConnId, conns: map<ConnId, Conn>)
  {
    && RoomIndexOk(byRoom, conns)
    && UserIndexOk(byUser, conns)
    && total == |conns| <= MAX_CONNECTIONS
    && (forall w :: w in byUser ==> |byUser[w]| <= MAX_PER_WALLET)
    && (forall id :: id in conns ==> id < nextId)
  }

  lemma TablesCount(byRoom: map<RoomId, set<ConnId>>, byUser: map<Wallet, seq<ConnId>>, total: nat,
                    nextId: ConnId, conns: map<ConnId, Conn>, w: Wallet)
    requires TablesOk(byRoom, byUser, total, nextId, conns)
    ensures total == |conns| && |IdsOf(byUser, w)| == |ConnsOf(conns, w)|
  {
    IdsAreConns(byUser, conns, w);
  }

  lemma TablesIds(byRoom: map<RoomId, set<ConnId>>, byUser: map<Wallet, seq<ConnId>>, total: nat,
                  nextId: ConnId, conns: map<ConnId, Conn>, w: Wallet)
    requires TablesOk(byRoom, byUser, total, nextId, conns)
    ensures Distinct(IdsOf(byUser, w)) && Elements(IdsOf(byUser, w)) == ConnsOf(conns, w)
    ensures IdsOf(byUser, w) == [] <==> !HasDevice(conns, w)
  {
    IdsAreConns(byUser, conns, w);
  }

  lemma CapsKept(byUser: map<Wallet, seq<ConnId>>, w: Wallet, id: ConnId)
    requires (forall v :: v in byUser ==> |byUser[v]| <= MAX_PER_WALLET) && |IdsOf(byUser, w)| < MAX_PER_WALLET
    ensures var after := byUser[w := IdsOf(byUser, w) + [id]];
            forall v :: v in after ==> |after[v]| <= MAX_PER_WALLET
  {
  }

  lemma OneMoreConn(conns: map<ConnId, Conn>, id: ConnId, c: Conn)
    requires id !in conns
    ensures |conns[id := c]| == |conns| + 1
  {
    assert conns[id := c].Keys == conns.Keys + {id};
  }

  lemma TablesAdd(byRoom: map<RoomId, set<ConnId>>, byRoom': map<RoomId, set<ConnId>>,
                  byUser: map<Wallet, seq<ConnId>>, total: nat, nextId: ConnId,
                  conns: map<ConnId, Conn>, id: ConnId, c: Conn)
    requires TablesOk(byRoom, byUser, total, nextId, conns) && id !in conns && id < nextId
    requires Filed(byRoom, byRoom', c.view.rooms, id)
    requires total < MAX_CONNECTIONS && |IdsOf(byUser, c.wallet)| < MAX_PER_WALLET
    ensures TablesOk(byRoom', byUser[c.wallet := IdsOf(byUser, c.wallet) + [id]], total + 1, nextId, conns[id := c])
  {
    hide RoomIndexOk, UserIndexOk, Filed, IdsOf;
    RoomIndexAdd(byRoom, byRoom', conns, id, c);
    UserIndexAdd(byUser, conns, id, c);
    CapsKept(byUser, c.wallet, id);
    OneMoreConn(conns, id, c);
  }

  lemma TablesDrop(byRoom: map<RoomId, set<ConnId>>, byRoom': map<RoomId, set<ConnId>>,
                   byUser: map<Wallet, seq<ConnId>>, total: nat, nextId: ConnId,
                   conns: map<ConnId, Conn>, id: ConnId)
    requires TablesOk(byRoom, byUser, total, nextId, conns) && id in conns
    requires Unfiled(byRoom, byRoom', conns[id].view.rooms, id)
    ensures total > 0
    ensures TablesOk(byRoom', Dropped(byUser, conns[id].wallet, id), total - 1, nextId, conns - {id})
  {
    hide RoomIndexOk, UserIndexOk, Unfiled, Without;
    RoomIndexDrop(byRoom, byRoom', conns, id);
    UserIndexDrop(byUser, conns, id);
    assert (conns - {id}).Keys == conns.Keys - {id};
    assert |conns.Keys - {id}| == |conns.Keys| - 1;
  }

  lemma TablesSwap(byRoom: map<RoomId, set<ConnId>>, mid: map<RoomId, set<ConnId>>, byRoom': map<RoomId, set<ConnId>>,
                   byUser: map<Wallet, seq<ConnId>>, total: nat, nextId: ConnId,
                   conns: map<ConnId, Conn>, id: ConnId, view: ConnView)
    requires TablesOk(byRoom, byUser, total, nextId, conns) && id in conns
    requires Unfiled(byRoom, mid, conns[id].view.rooms - view.rooms, id)
    requires Filed(mid, byRoom', view.rooms - conns[id].view.rooms, id)
    ensures TablesOk(byRoom', byUser, total, nextId, conns[id := conns[id].(view := view)])
  {
    hide Distinct;
    var conns' := conns[id := conns[id].(view := view)];
    assert conns'.Keys == conns.Keys;
    forall r, k ensures InRoom(byRoom', r, k) <==> Subscribed(conns', r, k) {
      assert InRoom(byRoom, r, k) <==> Subscribed(conns, r, k);
      assert InRoom(mid, r, k) <==> InRoom(byRoom, r, k) && !(r in conns[id].view.rooms - view.rooms && k == id);
    }
    forall w, k ensures Listed(byUser, w, k) <==> Held(conns', w, k) {
      assert Listed(byUser, w, k) <==> Held(conns, w, k);
    }
  }

  /** Activity and declarations touch nothing the tables depend on. */
  lemma TablesTouch(byRoom: map<RoomId, set<ConnId>>, byUser: map<Wallet, seq<ConnId>>, total: nat,
                    nextId: ConnId, conns: map<ConnId, Conn>, id: ConnId, c: Conn)
    requires TablesOk(byRoom, byUser, total, nextId, conns) && id in conns
    requires c.wallet == conns[id].wallet && c.view == conns[id].view
    ensures TablesOk(byRoom, byUser, total, nextId, conns[id := c])
  {
    hide Distinct;
    var conns' := conns[id := c];
    assert conns'.Keys == conns.Keys;
    forall r, k ensures InRoom(byRoom, r, k) <==> Subscribed(conns', r, k) {
      assert InRoom(byRoom, r, k) <==> Subscribed(conns, r, k);
    }
    forall w, k ensures Listed(byUser, w, k) <==> Held(conns', w, k) {
      assert Listed(byUser, w, k) <==> Held(conns, w, k);
    }
  }

  /** `f` has been applied to the listed connections and to no others. */
  ghost predicate Progress(before: map<ConnId, Conn>, after: map<ConnId, Conn>, done: seq<ConnId>, f: Conn -> Conn) {
    && after.Keys == before.Keys
    && forall k :: k in after ==> after[k] == if k in done then f(before[k]) else before[k]
  }

  lemma ProgressStep(before: map<ConnId, Conn>, after: map<ConnId, Conn>, ids: seq<ConnId>, i: nat, f: Conn -> Conn)
    requires i < |ids| && Distinct(ids) && ids[i] in after
    requires Progress(before, after, ids[..i], f)
    ensures Progress(before, after[ids[i] := f(after[ids[i]])], ids[..i + 1], f)
  {
    assert ids[i] !in ids[..i];
    assert forall k :: k in ids[..i + 1] <==> k in ids[..i] || k == ids[i];
  }

  lemma ProgressDone(before: map<ConnId, Conn>, after: map<ConnId, Conn>, ids: seq<ConnId>, w: Wallet, f: Conn -> Conn)
    requires Progress(before, after, ids, f) && Elements(ids) == ConnsOf(before, w)
    ensures after == map k | k in before :: if before[k].wallet == w then f(before[k]) else before[k]
  {
    assert forall k :: k in ids <==> k in Elements(ids);
  }

  lemma ProgressStart(conns: map<ConnId, Conn>, ids: seq<ConnId>, w: Wallet, f: Conn -> Conn)
    requires Elements(ids) == ConnsOf(conns, w)
    ensures Progress(conns, conns, ids[..0], f)
    ensures forall i :: 0 <= i < |ids| ==> ids[i] in conns
  {
    assert forall i :: 0 <= i < |ids| ==> ids[i] in Elements(ids);
  }
}
