/** The hub object of app/server/src/hub.rs: four redundant structures, two presence tables, the
    broadcast stream and the log behind it, every method proved against the index-free model. */
module Hub {
  import opened Wrappers
  import opened Events
  import opened LogModel
  import opened Jsonl
  import opened HubModel
  import opened HubIndex
  import opened Delivery
  import opened Audience
  import opened Sets
  import LogSafety
  import PresenceSafety

  class ConnHandle {
    const id: ConnId
    const wallet: Wallet
    const kind: ConnKind
    var view: ConnView
    var lastActiveAt: int
    var declaredAway: bool
    var cancelled: bool

    constructor (id: ConnId, wallet: Wallet, kind: ConnKind, view: ConnView, now: int)
      ensures this.id == id && Value() == Conn(wallet, kind, view, now, false) && !cancelled
    {
      this.id, this.wallet, this.kind, this.view := id, wallet, kind, view;
      lastActiveAt, declaredAway, cancelled := now, false, false;
    }

    function Value(): Conn
      reads this`view, this`lastActiveAt, this`declaredAway
    {
      Conn(wallet, kind, view, lastActiveAt, declaredAway)
    }

    method MarkActive(now: int)
      modifies this`lastActiveAt, this`declaredAway
      ensures Value() == old(Value()).Active(now)
    {
      lastActiveAt := now;
      declaredAway := false;
    }

    method Declare(status: Status, now: int)
      modifies this`lastActiveAt, this`declaredAway
      ensures Value() == old(Value()).Declared(status, now)
    {
      match status
      case Away => declaredAway := true;
      case _ => MarkActive(now);
    }

    method Presence(now: int) returns (s: Status)
      ensures s == Value().StatusAt(now)
    {
      if declaredAway {
        return Away;
      }
      if now - lastActiveAt >= AWAY_AFTER_MS {
        return Away;
      }
      return Online;
    }
  }

  datatype HubError = AtCapacity | TooManyConnections

  /** The presence events of a stretch of the stream. */
  function ToldOf(sent: seq<Envelope>): seq<Told> {
    if sent == [] then []
    else
      var last := sent[|sent| - 1];
      ToldOf(sent[..|sent| - 1])
      + if last.event.Presence? then [Told(last.event.wallet, last.event.status)] else []
  }

  /** Who receives depends on the target and the origin alone. */
  lemma ProbeEnough(conns: map<ConnId, Conn>, a: Envelope, b: Envelope)
    requires a.target == b.target && a.origin == b.origin
    ensures Recipients(conns, a) == Recipients(conns, b)
  {
    assert forall id :: id in conns ==>
                          conns[id].view.Accepts(a, conns[id].wallet) == conns[id].view.Accepts(b, conns[id].wallet);
  }

  lemma {:induction false} ToldOfSnoc(sent: seq<Envelope>, env: Envelope)
    ensures ToldOf(sent + [env])
         == ToldOf(sent) + if env.event.Presence? then [Told(env.event.wallet, env.event.status)] else []
  {
    assert (sent + [env])[..|sent|] == sent;
  }

  function EventEntry(target: Target, origin: Option<Wallet>, event: ServerEvent, fanout: nat): Entry {
    Entry(Realtime, Some(target), origin, Wire(event), Some(fanout))
  }

  class Hub {
    var conns: map<ConnId, ConnHandle>
    var byUser: map<Wallet, seq<ConnId>>
    var byRoom: map<RoomId, set<ConnId>>
    var presence: map<Wallet, Status>
    var beacons: map<Wallet, Beacon>
    var total: nat
    var nextId: ConnId
    var sent: seq<Envelope>
    const log: JsonlLog
    ghost const base: nat

    /** The values of the connections, kept up to date beside the handles. */
    ghost var table: map<ConnId, Conn>
    ghost var handles: set<ConnHandle>

    ghost function State(): HubState
      reads this`table, this`presence, this`beacons, this`sent
    {
      HubState(table, presence, beacons, ToldOf(sent))
    }

    /** `table` is what the handles hold. */
    ghost predicate Linked()
      reads this`conns, this`table, this`handles, handles
    {
      && table.Keys == conns.Keys
      && forall id :: id in conns ==>
                        conns[id] in handles && conns[id].id == id && conns[id].Value() == table[id]
    }

    /** The indexes agree with the connections and both caps hold. */
    ghost predicate Indexed()
      reads this`table, this`byUser, this`byRoom, this`total, this`nextId
    {
      TablesOk(byRoom, byUser, total, nextId, table)
    }

    /** What was broadcast is, in order, what was logged since the hub started. */
    ghost predicate Mirrored()
      reads this`sent, log, log.dir
    {
      && log.Valid()
      && LogSafety.SysOk(log.Sys())
      && base <= |log.dir.History()|
      && Sigs(sent) == WireSigs(log.dir.History()[base..])
    }

    /** Only live statuses are ever held. */
    ghost predicate LivePresence()
      reads this`presence
    {
      forall w :: w in presence ==> presence[w] != Offline
    }

    ghost predicate Valid()
      reads this, handles, log, log.dir
    {
      Linked() && Indexed() && LivePresence() && Mirrored()
    }

    constructor (log: JsonlLog)
      requires log.Valid() && LogSafety.SysOk(log.Sys())
      ensures Valid() && State() == EMPTY_HUB && this.log == log && sent == []
      ensures base == |log.dir.History()|
    {
      conns, byUser, byRoom, presence, beacons, table := map[], map[], map[], map[], map[], map[];
      handles := {};
      total, nextId, sent := 0, 1, [];
      this.log := log;
      base := |log.dir.History()|;
      new;
      assert log.dir.History()[base..] == [];
    }

    method NextConnId() returns (id: ConnId)
      requires Indexed()
      modifies this`nextId
      ensures Indexed() && id == old(nextId) && nextId == id + 1
    {
      id := nextId;
      nextId := nextId + 1;
    }

    // ---------------------------------------------------- register and unregister ---

    /** File an admitted connection everywhere. */
    method Admit(conn: ConnHandle, existing: seq<ConnId>)
      requires Linked() && Indexed() && conn.id !in conns && conn.id < nextId
      requires existing == IdsOf(byUser, conn.wallet) && |existing| < MAX_PER_WALLET && total < MAX_CONNECTIONS
      modifies this`conns, this`byUser, this`byRoom, this`total, this`beacons, this`table, this`handles
      ensures Linked() && Indexed()
      ensures conns == old(conns)[conn.id := conn] && table == old(table)[conn.id := conn.Value()]
      ensures byUser == old(byUser)[conn.wallet := existing + [conn.id]]
      ensures beacons == old(beacons) - {conn.wallet} && handles == old(handles) + {conn}
    {
      hide TablesOk, Filed, IdsOf;
      var filed := FileAll(byRoom, conn.view.rooms, conn.id);
      TablesAdd(byRoom, filed, byUser, total, nextId, table, conn.id, conn.Value());
      Insert(conn, filed, byUser[conn.wallet := existing + [conn.id]]);
    }

    // What the two predicates say of one connection or one wallet.

    lemma LinkedAt(id: ConnId)
      requires Linked() && id in table
      ensures id in conns && conns[id] in handles && conns[id].id == id && conns[id].Value() == table[id]
    {
    }

    lemma LinkedKeys()
      requires Linked()
      ensures table.Keys == conns.Keys
    {
    }

    lemma IdsFacts(wallet: Wallet)
      requires Indexed()
      ensures Distinct(IdsOf(byUser, wallet)) && Elements(IdsOf(byUser, wallet)) == ConnsOf(table, wallet)
      ensures IdsOf(byUser, wallet) == [] <==> !HasDevice(table, wallet)
      ensures total == |table| && |IdsOf(byUser, wallet)| == |ConnsOf(table, wallet)|
    {
      hide TablesOk;
      TablesIds(byRoom, byUser, total, nextId, table, wallet);
      TablesCount(byRoom, byUser, total, nextId, table, wallet);
    }

    method Register(conn: ConnHandle) returns (r: Result<ConnHandle, HubError>)
      requires Linked() && Indexed() && conn.id !in conns && conn.id < nextId
      modifies this`conns, this`byUser, this`byRoom, this`total, this`beacons, this`table, this`handles
      ensures Linked() && Indexed()
      ensures r.Ok? <==> Admits(old(State()), conn.wallet)
      ensures r.Err? ==> unchanged(this`conns, this`byUser, this`byRoom, this`total, this`beacons, this`table)
                         && (r.error.AtCapacity? <==> |old(table)| >= MAX_CONNECTIONS)
      ensures r.Ok? ==> r.value == conn
                        && conns == old(conns)[conn.id := conn]
                        && byUser == old(byUser)[conn.wallet := IdsOf(old(byUser), conn.wallet) + [conn.id]]
                        && State() == HubModel.Register(old(State()), conn.id, conn.Value())
                        && handles == old(handles) + {conn}
    {
      hide TablesOk, IdsOf, ConnsOf, ToldOf, Hub.Linked, Hub.Indexed;
      IdsFacts(conn.wallet);
      if total >= MAX_CONNECTIONS {
        return Err(AtCapacity);
      }
      var existing := IdsOf(byUser, conn.wallet);
      if |existing| >= MAX_PER_WALLET {
        return Err(TooManyConnections);
      }
      Admit(conn, existing);
      return Ok(conn);
    }

    method Insert(conn: ConnHandle, rooms: map<RoomId, set<ConnId>>, users: map<Wallet, seq<ConnId>>)
      requires Linked() && conn.id !in conns
      modifies this`conns, this`byUser, this`byRoom, this`total, this`beacons, this`table, this`handles
      ensures Linked()
      ensures conns == old(conns)[conn.id := conn] && table == old(table)[conn.id := conn.Value()]
      ensures byRoom == rooms && byUser == users && total == old(total) + 1
      ensures beacons == old(beacons) - {conn.wallet} && handles == old(handles) + {conn}
    {
      beacons := beacons - {conn.wallet};
      byRoom, byUser, total := rooms, users, total + 1;
      Link(conn);
    }

    method Link(conn: ConnHandle)
      requires Linked() && conn.id !in conns
      modifies this`conns, this`table, this`handles
      ensures Linked()
      ensures conns == old(conns)[conn.id := conn] && table == old(table)[conn.id := conn.Value()]
      ensures handles == old(handles) + {conn}
    {
      conns := conns[conn.id := conn];
      table := table[conn.id := conn.Value()];
      handles := handles + {conn};
    }

    method Unregister(id: ConnId)
      requires Linked() && Indexed()
      modifies this`conns, this`byUser, this`byRoom, this`total, this`table, handles`cancelled
      ensures Linked() && Indexed()
      ensures State() == HubModel.Unregister(old(State()), id)
      ensures conns == old(conns) - {id}
      ensures id in old(conns) ==> old(conns)[id].cancelled
      ensures id in old(conns) ==> byUser == Dropped(old(byUser), old(table)[id].wallet, id)
      ensures id !in old(conns) ==> byUser == old(byUser) && byRoom == old(byRoom)
    {
      hide TablesOk, Dropped, ToldOf, Hub.Indexed;
      if id in conns {
        Evict(id);
      } else {
        assert conns - {id} == conns && table - {id} == table;
      }
    }

    /** Take a connection that is there out of every table. */
    method Evict(id: ConnId)
      requires Linked() && Indexed() && id in conns
      modifies this`conns, this`byUser, this`byRoom, this`total, this`table, handles`cancelled
      ensures Linked() && Indexed()
      ensures conns == old(conns) - {id} && table == old(table) - {id}
      ensures old(conns)[id].cancelled && byUser == Dropped(old(byUser), old(table)[id].wallet, id)
    {
      hide TablesOk, Unfiled, Dropped;
      var handle := conns[id];
      var unfiled := UnfileAll(byRoom, handle.view.rooms, id);
      TablesDrop(byRoom, unfiled, byUser, total, nextId, table, id);
      var dropped := DropListing(byUser, handle.wallet, id);
      Remove(handle, unfiled, dropped);
    }

    method Remove(handle: ConnHandle, rooms: map<RoomId, set<ConnId>>, users: map<Wallet, seq<ConnId>>)
      requires Linked() && handle.id in conns && conns[handle.id] == handle && total > 0
      modifies this`conns, this`byUser, this`byRoom, this`total, this`table, handle`cancelled
      ensures Linked() && handle.cancelled
      ensures conns == old(conns) - {handle.id} && table == old(table) - {handle.id}
      ensures byRoom == rooms && byUser == users && total == old(total) - 1
    {
      handle.cancelled := true;
      byRoom, byUser, total := rooms, users, total - 1;
      Unlink(handle.id);
    }

    method Unlink(id: ConnId)
      requires Linked()
      modifies this`conns, this`table
      ensures Linked()
      ensures conns == old(conns) - {id} && table == old(table) - {id}
    {
      conns := conns - {id};
      table := table - {id};
    }

    // -------------------------------------------------------------------- fan-out ---

    /** The ids an index offers for a target; listed once each. */
    method CandidateIds(target: Target) returns (ids: seq<ConnId>)
      requires Linked() && Indexed()
      ensures Distinct(ids) && Elements(ids) == Candidates(byRoom, byUser, table, target)
    {
      match target {
        case ToRoom(room) =>
          ids := Collect(if room in byRoom then byRoom[room] else {});
        case ToRoomExcept(room, _) =>
          ids := Collect(if room in byRoom then byRoom[room] else {});
        case ToRooms(rooms) =>
          var seen: set<ConnId> := {};
          var i := 0;
          while i < |rooms|
            invariant 0 <= i <= |rooms|
            invariant seen == set r, id | r in rooms[..i] && r in byRoom && id in byRoom[r] :: id
          {
            assert forall r :: r in rooms[..i + 1] <==> r == rooms[i] || r in rooms[..i];
            if rooms[i] in byRoom {
              seen := seen + byRoom[rooms[i]];
            }
            i := i + 1;
          }
          assert rooms[..i] == rooms;
          ids := Collect(seen);
        case ToUser(wallet) =>
          ids := IdsOf(byUser, wallet);
        case ToAll =>
          ids := Collect(conns.Keys);
      }
    }

    /** The fan-out of an event, found through the indexes. */
    method CountRecipients(target: Target, origin: Option<Wallet>) returns (n: nat)
      requires Linked() && Indexed()
      ensures forall env: Envelope :: env.target == target && env.origin == origin
                                      ==> n == |Recipients(table, env)|
      ensures n <= MAX_CONNECTIONS
    {
      hide RoomIndexOk, UserIndexOk, Candidates;
      var probe := Envelope(0, 0, target, origin, Pong);
      var ids := CandidateIds(target);
      CandidatesComplete(byRoom, byUser, table, probe);
      n := CountAccepting(ids, probe);
      forall env: Envelope | env.target == target && env.origin == origin
        ensures Recipients(table, env) == Recipients(table, probe)
      {
        ProbeEnough(table, env, probe);
      }
      SubsetCount(Recipients(table, probe), table.Keys);
    }

    method CountAccepting(ids: seq<ConnId>, env: Envelope) returns (n: nat)
      requires Linked() && Distinct(ids) && Recipients(table, env) <= Elements(ids)
      ensures n == |Recipients(table, env)|
    {
      n := 0;
      ghost var found: set<ConnId> := {};
      var i := 0;
      while i < |ids|
        invariant 0 <= i <= |ids|
        invariant found <= Recipients(table, env) && n == |found|
        invariant forall id :: id in found ==> id in ids[..i]
        invariant forall id :: id in ids[..i] && id in Recipients(table, env) ==> id in found
      {
        assert ids[i] !in ids[..i];
        assert forall id :: id in ids[..i + 1] <==> id in ids[..i] || id == ids[i];
        if ids[i] in conns {
          var handle := conns[ids[i]];
          if handle.view.Accepts(env, handle.wallet) {
            found := found + {ids[i]};
            n := n + 1;
          }
        }
        i := i + 1;
      }
      assert ids[..i] == ids;
      assert found == Recipients(table, env);
    }

    // -------------------------------------------------------------- view refreshes ---

    method StoreView(id: ConnId, view: ConnView)
      requires Linked() && id in conns
      modifies handles`view, this`table
      ensures Linked() && table == old(table)[id := old(table)[id].(view := view)]
    {
      var handle := conns[id];
      handle.view := view;
      table := table[id := handle.Value()];
    }

    /** Swap one connection's view and move it between the buckets that differ. */
    method SwapView(id: ConnId, view: ConnView)
      requires Linked() && Indexed() && id in conns
      modifies handles`view, this`table, this`byRoom
      ensures Linked() && Indexed() && table == old(table)[id := old(table)[id].(view := view)]
    {
      hide TablesOk, Filed, Unfiled;
      var previous := conns[id].view;
      var unfiled := UnfileAll(byRoom, previous.rooms - view.rooms, id);
      var filed := FileAll(unfiled, view.rooms - previous.rooms, id);
      TablesSwap(byRoom, unfiled, filed, byUser, total, nextId, table, id, view);
      byRoom := filed;
      StoreView(id, view);
    }

    /** One step of it, `done` connections on. */
    method SwapNext(ghost before: map<ConnId, Conn>, ids: seq<ConnId>, done: nat, view: ConnView,
                    ghost refresh: Conn -> Conn)
      requires Linked() && Indexed() && done < |ids| && Distinct(ids) && ids[done] in table
      requires Progress(before, table, ids[..done], refresh)
      requires forall c :: refresh(c) == c.(view := view)
      modifies this`table, this`byRoom, handles`view
      ensures Linked() && Indexed() && table.Keys == old(table).Keys
      ensures Progress(before, table, ids[..done + 1], refresh)
    {
      hide TablesOk, Progress, Distinct, Hub.Linked, Hub.Indexed;
      ProgressStep(before, table, ids, done, refresh);
      LinkedAt(ids[done]);
      SwapView(ids[done], view);
    }

    method SwapEach(ids: seq<ConnId>, view: ConnView, ghost refresh: Conn -> Conn)
      requires Linked() && Indexed() && Distinct(ids) && forall i :: 0 <= i < |ids| ==> ids[i] in table
      requires Progress(table, table, ids[..0], refresh)
      requires forall c :: refresh(c) == c.(view := view)
      modifies this`table, this`byRoom, handles`view
      ensures Linked() && Indexed() && Progress(old(table), table, ids, refresh)
    {
      hide TablesOk, Progress, Distinct, Hub.Linked, Hub.Indexed;
      var i := 0;
      while i < |ids|
        invariant 0 <= i <= |ids|
        invariant Linked() && Indexed() && table.Keys == old(table).Keys
        invariant Progress(old(table), table, ids[..i], refresh)
      {
        SwapNext(old(table), ids, i, view, refresh);
        i := i + 1;
      }
      assert ids[..i] == ids;
    }

    /** All of a wallet's connections see by the new view from now on. */
    method SetUserView(wallet: Wallet, view: ConnView)
      requires Linked() && Indexed()
      modifies this`table, this`byRoom, handles`view
      ensures Linked() && Indexed()
      ensures State() == HubModel.SetUserView(old(State()), wallet, view)
      ensures table.Keys == old(table).Keys
      ensures forall id :: id in table ==>
                table[id] == if old(table)[id].wallet == wallet then old(table)[id].(view := view) else old(table)[id]
    {
      hide TablesOk, ToldOf, Progress, IdsOf, ConnsOf, Elements, Distinct, Hub.Linked, Hub.Indexed;
      var ids := IdsOf(byUser, wallet);
      IdsFacts(wallet);
      ghost var refresh := (c: Conn) => c.(view := view);
      ProgressStart(table, ids, wallet, refresh);
      SwapEach(ids, view, refresh);
      ProgressDone(old(table), table, ids, wallet, refresh);
      assert table == WithView(old(table), wallet, view);
    }

    // --------------------------------------------------------------------- publish ---

    /** Number it, log it with its fan-out, then broadcast it. */
    method Publish(clk: Clock, now: int, target: Target, origin: Option<Wallet>, event: ServerEvent)
      returns (seqNo: nat)
      requires Linked() && Indexed() && Mirrored() && log.day <= clk.day
      modifies this`sent, log, log.dir
      ensures Mirrored()
      ensures seqNo == Rotated(old(log.Mem()), clk).nextSeq
      ensures sent == old(sent) + [Envelope(seqNo, now, target, origin, event)]
      ensures var e := EventEntry(target, origin, event, |Recipients(table, sent[|sent| - 1])|);
              && log.Mem() == AppendMem(old(log.Mem()), clk, e)
              && log.dir.journal == old(log.dir.journal) + AppendWrites(old(log.Mem()), clk, e)
      ensures old(log.dir.History()) < log.dir.History()
      ensures log.dir.History()[|log.dir.History()| - 1]
           == Record(seqNo, clk.ms, Realtime, Some(target), origin, Wire(event),
                     Some(|Recipients(table, sent[|sent| - 1])|))
    {
      hide TablesOk, LogSafety.SysOk, AppendWrites, AppendMem, Recipients, Sigs, WireSigs, Hub.Linked, Hub.Indexed;
      var recipients := CountRecipients(target, origin);
      seqNo := LogAndSend(clk, now, target, origin, event, recipients);
    }

    method LogAndSend(clk: Clock, now: int, target: Target, origin: Option<Wallet>, event: ServerEvent,
                      fanout: nat)
      returns (seqNo: nat)
      requires Mirrored() && log.day <= clk.day
      modifies this`sent, log, log.dir
      ensures Mirrored()
      ensures seqNo == Rotated(old(log.Mem()), clk).nextSeq
      ensures sent == old(sent) + [Envelope(seqNo, now, target, origin, event)]
      ensures log.Mem() == AppendMem(old(log.Mem()), clk, EventEntry(target, origin, event, fanout))
      ensures log.dir.journal == old(log.dir.journal)
                                 + AppendWrites(old(log.Mem()), clk, EventEntry(target, origin, event, fanout))
      ensures old(log.dir.History()) < log.dir.History()
      ensures log.dir.History()[|log.dir.History()| - 1]
           == Record(seqNo, clk.ms, Realtime, Some(target), origin, Wire(event), Some(fanout))
    {
      hide LogSafety.SysOk, AppendWrites, AppendMem, Sigs, WireSigs;
      var e := EventEntry(target, origin, event, fanout);
      ghost var s0 := log.Sys();
      ghost var ws := AppendWrites(log.Mem(), clk, e);
      ghost var h0 := log.dir.History();
      PutsConcat(log.dir.journal, ws);
      LogSafety.StepKeeps(s0, LogSafety.DoAppend(clk, e));
      AppendWire(log.Mem(), clk, e);
      seqNo := log.Append(clk, e);
      assert log.Sys() == LogSafety.Next(s0, LogSafety.DoAppend(clk, e));
      ghost var env := Envelope(seqNo, now, target, origin, event);
      MirrorGrows(h0, Puts(ws), base, sent, env);
      sent := sent + [Envelope(seqNo, now, target, origin, event)];
    }

    // ------------------------------------------------------------------- presence ---

    method DerivePresence(wallet: Wallet, now: int) returns (s: Status)
      requires Linked() && Indexed()
      ensures s == Derived(State(), wallet, now)
    {
      hide RoomIndexOk, UserIndexOk;
      var ids := IdsOf(byUser, wallet);
      IdsAreConns(byUser, table, wallet);
      assert forall k :: 0 <= k < |ids| ==> ids[k] in Elements(ids);
      var fromConns := Offline;
      var i := 0;
      while i < |ids|
        invariant 0 <= i <= |ids|
        invariant forall k :: 0 <= k < |ids| ==> ids[k] in table
        invariant i == 0 ==> fromConns == Offline
        invariant fromConns == Online <==> exists k :: 0 <= k < i && table[ids[k]].StatusAt(now) == Online
        invariant i > 0 ==> fromConns != Offline
      {
        var p := conns[ids[i]].Presence(now);
        fromConns := fromConns.Max(p);
        i := i + 1;
      }
      MostPresent(table, ids, wallet, now);
      assert HasOnline(table, wallet, now) <==> fromConns == Online;
      assert HasDevice(table, wallet) <==> fromConns != Offline;
      s := fromConns.Max(FromBeacon(beacons, wallet, now));
    }

    method SetAnnounced(wallet: Wallet, derived: Status) returns (changed: bool)
      modifies this`presence
      ensures presence == if derived == Offline then old(presence) - {wallet}
                          else old(presence)[wallet := derived]
      ensures (forall w :: w in old(presence) ==> old(presence)[w] != Offline)
              ==> (changed <==> derived != if wallet in old(presence) then old(presence)[wallet] else Offline)
    {
      if derived == Offline {
        changed := wallet in presence;
        presence := presence - {wallet};
      } else {
        changed := !(wallet in presence && presence[wallet] == derived);
        presence := presence[wallet := derived];
      }
    }

    /** Send a presence event to the rooms. */
    method Tell(wallet: Wallet, status: Status, now: int, clk: Clock, rooms: seq<RoomId>)
      requires Valid() && log.day <= clk.day
      modifies this`sent, log, log.dir
      ensures Valid() && log.day <= clk.day
      ensures ToldOf(sent) == old(ToldOf(sent)) + [Told(wallet, status)]
      ensures |sent| == |old(sent)| + 1 && old(sent) <= sent && Informing(sent[|old(sent)|], wallet, status, rooms)
    {
      hide TablesOk, LogSafety.SysOk, AppendWrites, Recipients, Sigs, WireSigs, ToldOf, Hub.Linked, Hub.Indexed;
      ghost var before := sent;
      var _ := Publish(clk, now, ToRooms(rooms), Some(wallet), Presence(wallet, status));
      ToldOfSnoc(before, sent[|sent| - 1]);
    }

    method AnnouncePresence(wallet: Wallet, now: int, clk: Clock, rooms: seq<RoomId>)
      requires Valid() && log.day <= clk.day
      modifies this`presence, this`sent, log, log.dir
      ensures Valid() && log.day <= clk.day
      ensures State() == Announce(old(State()), wallet, now, rooms)
      ensures Announced(State(), wallet) == old(Derived(State(), wallet, now))
      ensures Informs(old(sent), sent, wallet, Announced(State(), wallet), rooms)
      ensures sent == old(sent) <==> rooms == [] || old(Derived(State(), wallet, now) == Announced(State(), wallet))
    {
      hide TablesOk, LogSafety.SysOk, Sigs, WireSigs, Derived, ToldOf, Informing, Hub.Linked, Hub.Indexed;
      var derived := DerivePresence(wallet, now);
      var changed := SetAnnounced(wallet, derived);
      if changed && rooms != [] {
        Tell(wallet, derived, now, clk, rooms);
      }
    }

    // ----------------------------------------------------- activity and declarations ---

    /** Update one connection's activity; `table` follows if the hub still holds the handle. */
    method Store(handle: ConnHandle, status: Status, now: int)
      requires Linked() && (handle.id in conns ==> conns[handle.id] == handle)
      modifies handle`lastActiveAt, handle`declaredAway, this`table
      ensures Linked()
      ensures handle.Value() == old(handle.Value()).Declared(status, now)
      ensures table == if handle.id in old(table) then old(table)[handle.id := handle.Value()] else old(table)
    {
      hide Conn.Declared, Conn.StatusAt, ToldOf;
      handle.Declare(status, now);
      ghost var updated := if handle.id in table then table[handle.id := handle.Value()] else table;
      assert forall id :: id in conns ==> conns[id].Value() == updated[id];
      table := updated;
    }

    method Mark(handle: ConnHandle, status: Status, now: int)
      requires Linked() && Indexed()
      requires handle.id in conns ==> conns[handle.id] == handle
      modifies handle`lastActiveAt, handle`declaredAway, this`table
      ensures Linked() && Indexed()
      ensures table == if handle.id in old(table)
                       then old(table)[handle.id := old(table)[handle.id].Declared(status, now)] else old(table)
    {
      hide TablesOk;
      if handle.id in conns {
        TablesTouch(byRoom, byUser, total, nextId, table, handle.id, table[handle.id].Declared(status, now));
      }
      Store(handle, status, now);
    }

    method NoteActivity(handle: ConnHandle, now: int, clk: Clock, rooms: seq<RoomId>)
      requires Valid() && log.day <= clk.day
      requires handle.id in conns ==> conns[handle.id] == handle
      modifies handle`lastActiveAt, handle`declaredAway, this`table, this`presence, this`sent, log, log.dir
      ensures Valid() && log.day <= clk.day
      ensures State() == HubModel.NoteActivity(old(State()), handle.id, handle.wallet, now, rooms)
      ensures Informs(old(sent), sent, handle.wallet, Announced(State(), handle.wallet), rooms)
    {
      hide Derived, Informing, TablesOk, LogSafety.SysOk, Sigs, WireSigs, ToldOf, Announce, Hub.Linked, Hub.Indexed;
      Mark(handle, Online, now);
      if !(handle.wallet in presence && presence[handle.wallet] == Online) {
        AnnouncePresence(handle.wallet, now, clk, rooms);
      }
    }

    method DeclarePresence(handle: ConnHandle, status: Status, now: int, clk: Clock, rooms: seq<RoomId>)
      requires Valid() && log.day <= clk.day
      requires handle.id in conns ==> conns[handle.id] == handle
      modifies handle`lastActiveAt, handle`declaredAway, this`table, this`presence, this`sent, log, log.dir
      ensures Valid() && log.day <= clk.day
      ensures State() == HubModel.DeclarePresence(old(State()), handle.id, handle.wallet, status, now, rooms)
      ensures Informs(old(sent), sent, handle.wallet, Announced(State(), handle.wallet), rooms)
    {
      hide Derived, Informing, TablesOk, LogSafety.SysOk, Sigs, WireSigs, ToldOf, Announce, Hub.Linked, Hub.Indexed;
      Mark(handle, status, now);
      AnnouncePresence(handle.wallet, now, clk, rooms);
    }

    /** A `PUT /api/presence`: declared on every live connection, or kept as a beacon if there is
        none; then announced. */
    method PutBeacon(wallet: Wallet, status: Status, now: int, clk: Clock, rooms: seq<RoomId>)
      requires Valid() && log.day <= clk.day
      modifies handles`lastActiveAt, handles`declaredAway, this`table, this`beacons, this`presence, this`sent
      modifies log, log.dir
      ensures Valid() && log.day <= clk.day
      ensures State() == Announce(BeaconPut(old(State()), wallet, status, now), wallet, now, rooms)
      ensures Informs(old(sent), sent, wallet, Announced(State(), wallet), rooms)
    {
      hide TablesOk, LogSafety.SysOk, Sigs, WireSigs, ToldOf, Announce, AllDeclared, BeaconPut, Derived, Informing;
      hide Hub.Linked, Hub.Indexed;
      Keep(wallet, status, now);
      AnnouncePresence(wallet, now, clk, rooms);
    }

    method Keep(wallet: Wallet, status: Status, now: int)
      requires Linked() && Indexed()
      modifies handles`lastActiveAt, handles`declaredAway, this`table, this`beacons
      ensures Linked() && Indexed()
      ensures State() == BeaconPut(old(State()), wallet, status, now)
    {
      hide TablesOk, ToldOf, AllDeclared, HasDevice, ConnsOf, Distinct, Elements, IdsOf, Hub.Linked, Hub.Indexed;
      var ids := IdsOf(byUser, wallet);
      IdsFacts(wallet);
      if ids == [] {
        beacons := beacons[wallet := Beacon(status, now)];
      } else {
        DeclareAll(wallet, ids, status, now);
        beacons := beacons - {wallet};
      }
    }

    method MarkAt(id: ConnId, status: Status, now: int)
      requires Linked() && Indexed() && id in conns
      modifies handles`lastActiveAt, handles`declaredAway, this`table
      ensures Linked() && Indexed() && table == old(table)[id := old(table)[id].Declared(status, now)]
    {
      hide TablesOk;
      Mark(conns[id], status, now);
    }

    method DeclareNext(ghost before: map<ConnId, Conn>, ids: seq<ConnId>, done: nat, status: Status, now: int,
                       ghost declare: Conn -> Conn)
      requires Linked() && Indexed() && done < |ids| && Distinct(ids) && ids[done] in table
      requires Progress(before, table, ids[..done], declare)
      requires forall c :: declare(c) == c.Declared(status, now)
      modifies handles`lastActiveAt, handles`declaredAway, this`table
      ensures Linked() && Indexed() && table.Keys == old(table).Keys
      ensures Progress(before, table, ids[..done + 1], declare)
    {
      hide TablesOk, Progress, Distinct, Hub.Linked, Hub.Indexed;
      ProgressStep(before, table, ids, done, declare);
      LinkedAt(ids[done]);
      MarkAt(ids[done], status, now);
    }

    method DeclareEach(ids: seq<ConnId>, status: Status, now: int, ghost declare: Conn -> Conn)
      requires Linked() && Indexed() && Distinct(ids) && forall i :: 0 <= i < |ids| ==> ids[i] in table
      requires Progress(table, table, ids[..0], declare)
      requires forall c :: declare(c) == c.Declared(status, now)
      modifies handles`lastActiveAt, handles`declaredAway, this`table
      ensures Linked() && Indexed() && Progress(old(table), table, ids, declare)
    {
      hide TablesOk, Progress, Distinct, Hub.Linked, Hub.Indexed;
      var i := 0;
      while i < |ids|
        invariant 0 <= i <= |ids|
        invariant Linked() && Indexed() && table.Keys == old(table).Keys
        invariant Progress(old(table), table, ids[..i], declare)
      {
        DeclareNext(old(table), ids, i, status, now, declare);
        i := i + 1;
      }
      assert ids[..i] == ids;
    }

    method DeclareAll(wallet: Wallet, ids: seq<ConnId>, status: Status, now: int)
      requires Linked() && Indexed() && Distinct(ids) && Elements(ids) == ConnsOf(table, wallet)
      modifies handles`lastActiveAt, handles`declaredAway, this`table
      ensures Linked() && Indexed() && table == AllDeclared(old(table), wallet, status, now)
    {
      hide TablesOk, Progress, ConnsOf, Elements, Distinct, ToldOf, Hub.Linked, Hub.Indexed;
      ghost var declare := (c: Conn) => c.Declared(status, now);
      ProgressStart(table, ids, wallet, declare);
      DeclareEach(ids, status, now, declare);
      ProgressDone(old(table), table, ids, wallet, declare);
    }

    /** Drop a connection and announce what is left of its holder's presence. */
    method Disconnect(id: ConnId, now: int, clk: Clock, rooms: seq<RoomId>)
      requires Valid() && log.day <= clk.day
      modifies this`conns, this`byUser, this`byRoom, this`total, this`table, handles`cancelled
      modifies this`presence, this`sent, log, log.dir
      ensures Valid() && log.day <= clk.day
      ensures State() == HubModel.Disconnect(old(State()), id, now, rooms)
      ensures id !in old(conns) ==> sent == old(sent)
      ensures id in old(conns) ==>
                var w := old(conns)[id].wallet; Informs(old(sent), sent, w, Announced(State(), w), rooms)
    {
      hide Derived, Informing, TablesOk, LogSafety.SysOk, Sigs, WireSigs, ToldOf, Announce, Hub.Indexed;
      var wallet := if id in conns then Some(conns[id].wallet) else None;
      Unregister(id);
      if wallet.Some? {
        AnnouncePresence(wallet.value, now, clk, rooms);
      } else {
        assert old(table) - {id} == old(table);
      }
    }

    /** Re-derive everyone currently announced; `order` is the order the table lists them in. */
    method SweepPresence(now: int, clk: Clock, roomsOf: Wallet -> seq<RoomId>)
      returns (ghost order: seq<Wallet>)
      requires Valid() && log.day <= clk.day
      modifies this`beacons, this`presence, this`sent, log, log.dir
      ensures Valid() && log.day <= clk.day
      ensures SweepOrder(old(State()), now, order)
      ensures State() == Sweep(old(State()), now, order, roomsOf)
      ensures InformsEach(old(sent), sent, order, roomsOf, old(State()), now)
    {
      hide TablesOk, LogSafety.SysOk, Sigs, WireSigs, ToldOf, Announce, Derived, Hub.Linked, Hub.Indexed;
      hide Informs, InformsEach, FreshBeacons, AnnounceAll, HubModel.Stale;
      beacons := FreshBeacons(beacons, now);
      ghost var s1 := State();
      assert s1 == old(State()).(beacons := FreshBeacons(old(beacons), now));
      var stale := StaleWallets(now);
      order := stale;
      InformsNobody(sent, roomsOf, old(State()), now);
      NobodyYet(s1, stale, now, roomsOf);
      var i := 0;
      while i < |stale|
        invariant 0 <= i <= |stale|
        invariant Valid() && log.day <= clk.day
        invariant State() == AnnounceAll(s1, stale[..i], now, roomsOf)
        invariant InformsEach(old(sent), sent, stale[..i], roomsOf, old(State()), now)
      {
        SweepAt(old(State()), stale, i, now, roomsOf);
        ghost var mid := sent;
        AnnouncePresence(stale[i], now, clk, roomsOf(stale[i]));
        InformsOneMore(old(sent), mid, sent, stale[..i], stale[i], roomsOf, old(State()), now);
        i := i + 1;
      }
      assert stale[..i] == stale;
    }

    /** The next of the stale wallets is still stale when its turn comes. */
    lemma SweepAt(s: HubState, stale: seq<Wallet>, i: nat, now: int, roomsOf: Wallet -> seq<RoomId>)
      requires SweepOrder(s, now, stale) && i < |stale|
      ensures stale[..i + 1] == stale[..i] + [stale[i]]
      ensures var s1 := s.(beacons := FreshBeacons(s.beacons, now));
              var mid := AnnounceAll(s1, stale[..i], now, roomsOf);
              && AnnounceAll(s1, stale[..i + 1], now, roomsOf) == Announce(mid, stale[i], now, roomsOf(stale[i]))
              && Derived(mid, stale[i], now) == Derived(s, stale[i], now)
              && Derived(mid, stale[i], now) != Announced(mid, stale[i])
    {
      hide Derived, FreshBeacons, Announce;
      var s1 := s.(beacons := FreshBeacons(s.beacons, now));
      var w := stale[i];
      assert stale[..i + 1][..i] == stale[..i];
      PresenceSafety.FreshDerives(s, now, w);
      PresenceSafety.AnnounceAllEffect(s1, stale[..i], now, roomsOf);
      assert w in HubModel.Stale(s1, now);
      assert w !in stale[..i];
    }

    lemma NobodyYet(s: HubState, stale: seq<Wallet>, now: int, roomsOf: Wallet -> seq<RoomId>)
      ensures stale[..0] == [] && AnnounceAll(s, stale[..0], now, roomsOf) == s
    {
    }

    method StaleWallets(now: int) returns (stale: seq<Wallet>)
      requires Linked() && Indexed()
      ensures Distinct(stale) && forall w :: w in stale <==> w in HubModel.Stale(State(), now)
    {
      hide TablesOk, Derived, ToldOf, Hub.Linked, Hub.Indexed;
      stale := [];
      var left := presence.Keys;
      while left != {}
        invariant left <= presence.Keys
        invariant Distinct(stale)
        invariant forall w :: w in stale <==> w in HubModel.Stale(State(), now) && w !in left
        decreases left
      {
        var w := Pick(left);
        var derived := DerivePresence(w, now);
        assert w !in stale;
        if derived != presence[w] {
          stale := stale + [w];
        }
        left := left - {w};
      }
    }

    // ---------------------------------------------------------------------- replay ---

    /** Replay what this connection may see now, whatever was true when it was logged. */
    method ReplaySince(cursor: nat, view: ConnView, wallet: Wallet, max: nat)
      returns (r: Result<seq<Envelope>, ReplayError>)
      ensures r == HubReplay(log.dir.files, cursor, view, wallet, max)
    {
      var read := log.ReplaySince(cursor, max);
      if read.Err? {
        return Err(LogFailed(read.error));
      }
      var recs := read.value;
      if recs.None? {
        return Err(ReplayError.CursorTooOld);
      }
      var out: seq<Envelope> := [];
      var i := 0;
      while i < |recs.value|
        invariant 0 <= i <= |recs.value|
        invariant out == Replayed(recs.value[..i], view, wallet)
      {
        var rec := recs.value[i];
        assert recs.value[..i + 1][..i] == recs.value[..i];
        if rec.kind == Realtime {
          var event := rec.ServerEvent();
          if event.Some? && rec.target.Some? && event.value.IsReplayable() {
            var env := Envelope(rec.seqNo, rec.atMs, rec.target.value, rec.origin, event.value);
            if view.Accepts(env, wallet) {
              out := out + [env];
            }
          }
        }
        i := i + 1;
      }
      assert recs.value[..i] == recs.value;
      return Ok(out);
    }
  }

  /** Registering a connection and unregistering it restores every connection table. */
  method RegisterThenUnregister(hub: Hub, conn: ConnHandle)
    requires hub.Linked() && hub.Indexed() && conn.id !in hub.conns && conn.id < hub.nextId
    modifies hub`conns, hub`byUser, hub`byRoom, hub`total, hub`beacons, hub`table, hub`handles
    modifies conn`cancelled, hub.handles`cancelled
    ensures hub.conns == old(hub.conns) && hub.table == old(hub.table)
    ensures hub.byUser == old(hub.byUser) && hub.byRoom == old(hub.byRoom) && hub.total == old(hub.total)
  {
    hide TablesOk, Dropped, IdsOf, ToldOf, Admits, Hub.Linked;
    hub.LinkedKeys();
    TablesUndo(hub.byRoom, hub.byUser, hub.total, hub.nextId, hub.table, conn.wallet, conn.id);
    var r := hub.Register(conn);
    if r.Ok? {
      hub.Unregister(conn.id);
      assert hub.table == old(hub.table);
      assert hub.conns == old(hub.conns);
      TablesUnique(old(hub.byRoom), hub.byRoom, old(hub.byUser), hub.byUser, old(hub.total), hub.total,
                   old(hub.nextId), hub.nextId, hub.table);
    }
  }

  // -------------------------------------------------------------- room buckets ---

  /** File a connection under every room of its view, creating buckets as needed. */
  method FileAll(byRoom: map<RoomId, set<ConnId>>, rooms: set<RoomId>, id: ConnId)
    returns (filed: map<RoomId, set<ConnId>>)
    ensures Filed(byRoom, filed, rooms, id)
  {
    filed := byRoom;
    var left := rooms;
    while left != {}
      invariant left <= rooms
      invariant Filed(byRoom, filed, rooms - left, id)
      decreases left
    {
      var room := Pick(left);
      var bucket := if room in filed then filed[room] else {};
      ghost var before := filed;
      filed := filed[room := bucket + {id}];
      assert forall r, k :: InRoom(filed, r, k) <==> InRoom(before, r, k) || (r == room && k == id);
      left := left - {room};
    }
  }

  /** Take a connection out of the buckets of some rooms, dropping those left empty. */
  method UnfileAll(byRoom: map<RoomId, set<ConnId>>, rooms: set<RoomId>, id: ConnId)
    returns (unfiled: map<RoomId, set<ConnId>>)
    ensures Unfiled(byRoom, unfiled, rooms, id)
  {
    unfiled := byRoom;
    var left := rooms;
    while left != {}
      invariant left <= rooms
      invariant Unfiled(byRoom, unfiled, rooms - left, id)
      decreases left
    {
      var room := Pick(left);
      if room in unfiled {
        var bucket := unfiled[room] - {id};
        assert forall k :: k in unfiled[room] && k != id ==> k in bucket;
        unfiled := if bucket == {} then unfiled - {room} else unfiled[room := bucket];
      }
      left := left - {room};
    }
  }

  method DropListing(byUser: map<Wallet, seq<ConnId>>, w: Wallet, id: ConnId)
    returns (dropped: map<Wallet, seq<ConnId>>)
    ensures dropped == Dropped(byUser, w, id)
  {
    dropped := byUser;
    if w in byUser {
      var rest := Without(byUser[w], id);
      dropped := if rest == [] then byUser - {w} else byUser[w := rest];
    }
  }

  // --------------------------------------------------------------------- stream ---

  /** One more logged event, one more broadcast one. */
  lemma {:induction false} MirrorGrows(h: seq<Record>, more: seq<Record>, base: nat, sent: seq<Envelope>, env: Envelope)
    requires base <= |h| && Sigs(sent) == WireSigs(h[base..]) && WireSigs(more) == [SigOf(env)]
    ensures Sigs(sent + [env]) == WireSigs((h + more)[base..])
  {
    assert (h + more)[base..] == h[base..] + more;
    WireSigsConcat(h[base..], more);
    assert (sent + [env])[..|sent|] == sent;
  }
}
