/** Who hears what: the recipients of an event by the shape of its target, what a replay may contain, and
    how far a presence event travels. */
module Audience {
  import opened Wrappers
  import opened Events
  import opened LogModel
  import opened HubModel
  import opened Delivery

  // ---------------------------------------------------------------------- live ---

  /** The connections that must not hear from an origin. */
  ghost function Deaf(conns: map<ConnId, Conn>, origin: Option<Wallet>): set<ConnId> {
    set id | id in conns && origin.Some? && origin.value in conns[id].view.blocks
  }

  ghost function Subscribers(conns: map<ConnId, Conn>, room: RoomId): set<ConnId> {
    set id | id in conns && room in conns[id].view.rooms
  }

  /** A block holds whatever the target is; apart from it each target reaches exactly those it names. */
  lemma RecipientsExactly(conns: map<ConnId, Conn>, env: Envelope)
    ensures var all, deaf := Recipients(conns, env), Deaf(conns, env.origin);
            && all !! deaf
            && match env.target
               case ToUser(w) => all == ConnsOf(conns, w) - deaf
               case ToRoom(r) => all == Subscribers(conns, r) - deaf
               case ToRoomExcept(r, e) => all == Subscribers(conns, r) - ConnsOf(conns, e) - deaf
               case ToRooms(rs) =>
                 forall id :: id in all <==> id !in deaf && exists r :: r in rs && id in Subscribers(conns, r)
               case ToAll => all == conns.Keys - deaf
  {
    match env.target
    case ToRooms(rs) =>
      forall id ensures id in Recipients(conns, env)
                   <==> id !in Deaf(conns, env.origin) && exists r :: r in rs && id in Subscribers(conns, r)
      {
        if id in Recipients(conns, env) {
          var r :| r in rs && r in conns[id].view.rooms;
          assert id in Subscribers(conns, r);
        }
      }
    case _ =>
  }

  // -------------------------------------------------------------------- replayed ---

  /** What is still worth something later. */
  predicate Lasting(event: ServerEvent) {
    match event
    case NewMessage(_, _) => true
    case RoomsUpdated => true
    case MemberRemoved(_) => true
    case InvitationReceived(_) => true
    case ResyncRequired(_, _, _) => true
    case SessionExpired(_) => true
    case Typing(_, _) => false
    case Presence(_, _) => false
    case Shout(_) => false
    case Pong => false
  }

  /** The record that logs an envelope. */
  predicate Logs(rec: Record, env: Envelope) {
    rec == Record(env.seqNo, env.atMs, Realtime, Some(env.target), env.origin, Wire(env.event), rec.fanout)
  }

  ghost predicate OnFile(recs: seq<Record>, env: Envelope) {
    exists rec :: rec in recs && Logs(rec, env)
  }

  /** One connection with this view. */
  function Alone(view: ConnView, me: Wallet): map<ConnId, Conn> {
    map[0 := Conn(me, Sse, view, 0, false)]
  }

  lemma EnvelopeIsLogged(rec: Record, env: Envelope)
    ensures EnvelopeOf(rec) == Some(env) <==> Logs(rec, env)
  {
  }

  lemma OnFileStep(recs: seq<Record>, env: Envelope)
    requires recs != []
    ensures OnFile(recs, env) <==> OnFile(recs[..|recs| - 1], env) || Logs(recs[|recs| - 1], env)
  {
    hide Logs;
    var n := |recs| - 1;
    assert recs == recs[..n] + [recs[n]];
    if OnFile(recs, env) {
      var rec :| rec in recs && Logs(rec, env);
      assert rec in recs[..n] || rec == recs[n];
    }
  }

  /** A replay holds an event exactly if it is on file, is of a lasting kind, and would reach a connection
      with the view the replay is for. */
  lemma {:induction false} ReplayedExactly(recs: seq<Record>, view: ConnView, me: Wallet, env: Envelope)
    ensures env in Replayed(recs, view, me)
       <==> OnFile(recs, env) && Lasting(env.event) && Recipients(Alone(view, me), env) == {0}
    decreases |recs|
  {
    if recs != [] {
      var n := |recs| - 1;
      ReplayedExactly(recs[..n], view, me, env);
      ReplayedStep(recs, view, me, env);
      OnFileStep(recs, env);
      EnvelopeIsLogged(recs[n], env);
      WantsExactly(view, me, env);
    }
  }

  lemma {:induction false} ReplayedStep(recs: seq<Record>, view: ConnView, me: Wallet, env: Envelope)
    requires recs != []
    ensures env in Replayed(recs, view, me)
       <==> || env in Replayed(recs[..|recs| - 1], view, me)
            || (EnvelopeOf(recs[|recs| - 1]) == Some(env) && Wants(view, me, env))
  {
    hide EnvelopeOf, Wants;
  }

  lemma WantsExactly(view: ConnView, me: Wallet, env: Envelope)
    ensures Wants(view, me, env) <==> Lasting(env.event) && Recipients(Alone(view, me), env) == {0}
  {
    assert 0 in Recipients(Alone(view, me), env) <==> view.Accepts(env, me);
  }

  /** A replay that is served holds exactly the retained events after the cursor that are of a lasting kind and
      would reach a connection with that view; so nothing from somebody blocked, and only what is addressed to
      the wallet, to a room the view has, or to everybody. */
  lemma ReplayAddressed(files: map<Day, DayFile>, cursor: nat, view: ConnView, me: Wallet, max: nat, env: Envelope)
    requires HubReplay(files, cursor, view, me, max).Ok?
    ensures env in HubReplay(files, cursor, view, me, max).value
       <==> && OnFile(TryReplay(files, cursor, max).value.value, env) && Lasting(env.event)
            && Recipients(Alone(view, me), env) == {0}
    ensures env in HubReplay(files, cursor, view, me, max).value ==>
              && (env.origin.Some? ==> env.origin.value !in view.blocks)
              && match env.target
                 case ToUser(w) => w == me
                 case ToRoom(r) => r in view.rooms
                 case ToRoomExcept(r, e) => r in view.rooms && e != me
                 case ToRooms(rs) => exists r :: r in rs && r in view.rooms
                 case ToAll => true
  {
    hide TryReplay, Replayed, Recipients;
    ReplayedExactly(TryReplay(files, cursor, max).value.value, view, me, env);
    if env in HubReplay(files, cursor, view, me, max).value {
      HeardAlone(view, me, env);
    }
  }

  lemma HeardAlone(view: ConnView, me: Wallet, env: Envelope)
    requires Recipients(Alone(view, me), env) == {0}
    ensures env.origin.Some? ==> env.origin.value !in view.blocks
    ensures match env.target
            case ToUser(w) => w == me
            case ToRoom(r) => r in view.rooms
            case ToRoomExcept(r, e) => r in view.rooms && e != me
            case ToRooms(rs) => exists r :: r in rs && r in view.rooms
            case ToAll => true
  {
    hide Recipients;
    RecipientsExactly(Alone(view, me), env);
    assert 0 in Recipients(Alone(view, me), env);
    assert 0 !in Deaf(Alone(view, me), env.origin);
    if env.target.ToRooms? {
      var r :| r in env.target.rooms && 0 in Subscribers(Alone(view, me), r);
      assert r in view.rooms;
    }
  }

  // -------------------------------------------------------------------- presence ---

  /** The stream is as it was, or has one envelope more, which tells the wallet's rooms, in the wallet's
      name, of that status. */
  ghost predicate Informs(before: seq<Envelope>, after: seq<Envelope>, w: Wallet, status: Status, rooms: seq<RoomId>) {
    || after == before
    || (rooms != [] && |after| == |before| + 1 && before <= after && Informing(after[|before|], w, status, rooms))
  }

  predicate Informing(env: Envelope, w: Wallet, status: Status, rooms: seq<RoomId>) {
    env.target == ToRooms(rooms) && env.origin == Some(w) && env.event == Presence(w, status)
  }

  /** Such an envelope reaches exactly the connections that share one of the rooms and stand behind no
      block with the wallet. */
  lemma InformedExactly(conns: map<ConnId, Conn>, env: Envelope, w: Wallet, status: Status, rooms: seq<RoomId>)
    requires Informing(env, w, status, rooms)
    ensures forall id :: id in Recipients(conns, env) <==>
                           && id in conns && w !in conns[id].view.blocks
                           && exists r :: r in rooms && r in conns[id].view.rooms
  {
    hide Recipients;
    RecipientsExactly(conns, env);
    forall id ensures id in Recipients(conns, env) <==>
                        && id in conns && w !in conns[id].view.blocks
                        && exists r :: r in rooms && r in conns[id].view.rooms
    {
      if id in conns && w !in conns[id].view.blocks && exists r :: r in rooms && r in conns[id].view.rooms {
        var r :| r in rooms && r in conns[id].view.rooms;
        assert id in Subscribers(conns, r);
      }
    }
  }

  /** The wallets that have somebody to tell. */
  function Roomed(order: seq<Wallet>, roomsOf: Wallet -> seq<RoomId>): seq<Wallet> {
    if order == [] then []
    else
      var last := order[|order| - 1];
      Roomed(order[..|order| - 1], roomsOf) + if roomsOf(last) == [] then [] else [last]
  }

  /** The stream has one envelope more for each of the wallets that have a room, in that order, each in the
      wallet's name, to its own rooms, with what its devices add up to. */
  ghost predicate InformsEach(before: seq<Envelope>, after: seq<Envelope>, order: seq<Wallet>,
                              roomsOf: Wallet -> seq<RoomId>, s: HubState, now: int)
  {
    var told := Roomed(order, roomsOf);
    && before <= after && |after| == |before| + |told|
    && forall i :: 0 <= i < |told| ==>
         Informing(after[|before| + i], told[i], Derived(s, told[i], now), roomsOf(told[i]))
  }

  lemma InformsNobody(sent: seq<Envelope>, roomsOf: Wallet -> seq<RoomId>, s: HubState, now: int)
    ensures InformsEach(sent, sent, [], roomsOf, s, now)
  {
  }

  /** One wallet more, told if it has a room. */
  lemma {:induction false} InformsOneMore(before: seq<Envelope>, mid: seq<Envelope>, after: seq<Envelope>,
                                          order: seq<Wallet>, w: Wallet, roomsOf: Wallet -> seq<RoomId>,
                                          s: HubState, now: int)
    requires InformsEach(before, mid, order, roomsOf, s, now)
    requires Informs(mid, after, w, Derived(s, w, now), roomsOf(w)) && (after == mid <==> roomsOf(w) == [])
    ensures InformsEach(before, after, order + [w], roomsOf, s, now)
  {
    hide Informing, Derived;
    assert (order + [w])[..|order|] == order;
    var told := Roomed(order, roomsOf);
    assert roomsOf(w) == [] ==> told + [] == told;
    forall i | 0 <= i < |told|
      ensures Informing(after[|before| + i], told[i], Derived(s, told[i], now), roomsOf(told[i]))
    {
      assert after[|before| + i] == mid[|before| + i];
    }
  }
}
