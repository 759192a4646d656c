/** The realtime vocabulary of app/core/src/events.rs: what is sent, to whom, and what may be replayed. */
module Events {
  datatype RoomId = RoomId(id: string)

  datatype Wallet = Wallet(address: string)

  /** Presence, ordered by how present somebody is: a wallet shows as its liveliest device. */
  datatype Status = Offline | Away | Online {
    function Rank(): nat {
      match this
      case Offline => 0
      case Away => 1
      case Online => 2
    }

    predicate AtLeast(other: Status) {
      Rank() >= other.Rank()
    }

    function Max(other: Status): Status {
      if AtLeast(other) then this else other
    }
  }

  datatype ResyncReason = CursorTooOld | Lagged | MembershipChanged

  datatype ServerEvent =
    | NewMessage(room: RoomId, msgSerial: int)
    | RoomsUpdated
    | MemberRemoved(room: RoomId)
    | InvitationReceived(room: RoomId)
    | Typing(room: RoomId, from: Wallet)
    | Presence(wallet: Wallet, status: Status)
    | ResyncRequired(reason: ResyncReason, fromSeq: nat, toSeq: nat)
    | SessionExpired(why: string)
    | Shout(shoutId: string)
    | Pong
  {
    /** Signals that are only worth anything while they are fresh stay out of replays. */
    predicate IsReplayable() {
      !(Typing? || Presence? || Shout? || Pong?)
    }
  }

  datatype Target =
    | ToRoom(room: RoomId)
    | ToUser(wallet: Wallet)
    | ToRoomExcept(room: RoomId, except: Wallet)
    | ToRooms(rooms: seq<RoomId>)
    | ToAll
}
