/**
 * Accounts and join requests (`convex/users.ts`): creating a user by name
 * or from the identity provider, setting a player's ready flag, the
 * caller's hosted rooms, and asking a room's host to be let in.
 */
module Users {
  import opened Wrappers
  import opened Store
  import opened Text
  import opened Sorting
  import opened Rooms

  // ---------------------------------------------------------------- creating users

  /** The `by_username` index lookup. */
  function Named(name: string): User -> bool
  {
    (u: User) => u.username == name
  }

  /** `id` is the one and only user called `name`. */
  ghost predicate SoleHolder(users: map<Id, User>, name: string, id: Id)
  {
    && id in users
    && users[id].username == name
    && forall k :: k in users && users[k].username == name ==> k == id
  }

  /**
   * `createUserByUsername`: the name is stored lower-cased and trimmed;
   * when a user already has that name its id is returned and nothing is
   * written, otherwise a user with only that name is inserted. Whichever
   * way it succeeds, the id returned is the only user with the name, so a
   * second call with an equivalent name returns the same id and writes
   * nothing.
   */
  method CreateUserByUsername(db: Db, username: string) returns (r: Result<Id>)
    requires db.Valid()
    modifies db`users, db`nextId
    ensures db.Valid()
    ensures var name := LowerTrim(username);
            && (forall id: Id :: SoleHolder(old(db.users), name, id) ==>
                  r == Ok(id) && db.users == old(db.users) && db.nextId == old(db.nextId))
            && ((forall k :: k in old(db.users) ==> old(db.users)[k].username != name) ==>
                  && r == Ok(old(db.nextId))
                  && db.users == old(db.users)[old(db.nextId) := User(name, None, None, None, None)]
                  && db.nextId == old(db.nextId) + 1)
            && (r.Err? ==>
                  && r.msg == NOT_UNIQUE
                  && db.users == old(db.users) && db.nextId == old(db.nextId)
                  && exists a, b :: a in old(db.users) && b in old(db.users) && a != b
                                    && old(db.users)[a].username == name && old(db.users)[b].username == name)
            && (r.Ok? ==> SoleHolder(db.users, name, r.value))
  {
    var name := LowerTrim(username);
    var existing := Unique(db.users, db.nextId, Named(name));
    match existing
    case OneRow(id) =>
      r := Ok(id);
    case ManyRows =>
      r := Err(NOT_UNIQUE);
    case NoRow =>
      var id := db.InsertUser(User(name, None, None, None, None));
      r := Ok(id);
  }

  /** Some user carries the identity provider's id `clerkId`. */
  predicate HasClerkId(users: map<Id, User>, clerkId: string)
  {
    exists k :: k in users && users[k].clerkId == Some(clerkId)
  }

  /**
   * `createClerkUser`: a no-op returning nothing when a user with that
   * identity-provider id exists; otherwise inserts the user with every
   * profile field and returns the new id.
   */
  method CreateClerkUser(db: Db, clerkId: string, email: string, image: string, fullname: string, username: string)
    returns (r: Option<Id>)
    requires db.Valid()
    modifies db`users, db`nextId
    ensures db.Valid()
    ensures HasClerkId(old(db.users), clerkId) ==>
              r == None && db.users == old(db.users) && db.nextId == old(db.nextId)
    ensures !HasClerkId(old(db.users), clerkId) ==>
              && r == Some(old(db.nextId))
              && db.users == old(db.users)[old(db.nextId) :=
                   User(username, Some(email), Some(clerkId), Some(image), Some(fullname))]
              && db.nextId == old(db.nextId) + 1
    ensures HasClerkId(db.users, clerkId)
  {
    var existing := First(db.users, db.nextId, (u: User) => u.clerkId == Some(clerkId));
    if existing.Some? {
      return None;
    }
    assert !HasClerkId(db.users, clerkId) by {
      forall k | k in db.users ensures db.users[k].clerkId != Some(clerkId) {
        assert !((u: User) => u.clerkId == Some(clerkId))(db.users[k]);
      }
    }
    var id := db.InsertUser(User(username, Some(email), Some(clerkId), Some(image), Some(fullname)));
    assert db.users[id].clerkId == Some(clerkId);
    r := Some(id);
  }

  // ---------------------------------------------------------------- ready flag

  /** One entry of the snapshot `setPlayerReady` returns. */
  datatype ReadyFlag = ReadyFlag(userId: Id, ready: bool)

  /** The room's players as `(userId, ready)` pairs, in insertion order. */
  function ReadyFlags(roomPlayers: map<Id, RoomPlayer>, hi: nat, roomId: Id): (r: seq<ReadyFlag>)
    requires KeysBelow(roomPlayers, hi)
    ensures forall k :: k in roomPlayers && roomPlayers[k].roomId == roomId ==>
              ReadyFlag(roomPlayers[k].userId, roomPlayers[k].ready) in r
    ensures forall e :: e in r ==>
              exists k :: k in roomPlayers && roomPlayers[k].roomId == roomId
                          && e == ReadyFlag(roomPlayers[k].userId, roomPlayers[k].ready)
    ensures forall e :: multiset(r)[e] ==
              |set k | k in roomPlayers && roomPlayers[k].roomId == roomId
                       && ReadyFlag(roomPlayers[k].userId, roomPlayers[k].ready) == e|
  {
    var ks := Query(roomPlayers, hi, InRoom(roomId));
    FlagsCover(roomPlayers, ks, roomId);
    FlagsSound(roomPlayers, ks, roomId);
    var r := Flags(roomPlayers, ks);
    assert forall e :: multiset(r)[e] ==
             |set k | k in roomPlayers && roomPlayers[k].roomId == roomId
                      && ReadyFlag(roomPlayers[k].userId, roomPlayers[k].ready) == e| by {
      forall e ensures multiset(r)[e] ==
                 |set k | k in roomPlayers && roomPlayers[k].roomId == roomId
                          && ReadyFlag(roomPlayers[k].userId, roomPlayers[k].ready) == e| {
        FlagsCount(roomPlayers, ks, roomId, e);
      }
    }
    r
  }

  /** Over the room's keys, each pair is listed once per row of the room that has it. */
  lemma FlagsCount(roomPlayers: map<Id, RoomPlayer>, ks: seq<Id>, roomId: Id, e: ReadyFlag)
    requires Increasing(ks)
    requires forall k :: k in ks <==> k in roomPlayers && InRoom(roomId)(roomPlayers[k])
    ensures forall i :: 0 <= i < |ks| ==> ks[i] in roomPlayers
    ensures multiset(Flags(roomPlayers, ks))[e] ==
              |set k | k in roomPlayers && roomPlayers[k].roomId == roomId
                       && ReadyFlag(roomPlayers[k].userId, roomPlayers[k].ready) == e|
  {
    assert forall i :: 0 <= i < |ks| ==> ks[i] in ks;
    var flagAt := k requires k in roomPlayers => ReadyFlag(roomPlayers[k].userId, roomPlayers[k].ready);
    ImageCount(ks, Flags(roomPlayers, ks), flagAt, e);
    assert Preimage(ks, flagAt, e)
           == set k | k in roomPlayers && roomPlayers[k].roomId == roomId
                      && ReadyFlag(roomPlayers[k].userId, roomPlayers[k].ready) == e;
  }

  /** The `(userId, ready)` pairs of the rows `ks`, in the same order. */
  function Flags(roomPlayers: map<Id, RoomPlayer>, ks: seq<Id>): (r: seq<ReadyFlag>)
    requires forall i :: 0 <= i < |ks| ==> ks[i] in roomPlayers
    ensures |r| == |ks|
    ensures forall i :: 0 <= i < |ks| ==> r[i] == ReadyFlag(roomPlayers[ks[i]].userId, roomPlayers[ks[i]].ready)
  {
    seq(|ks|, i requires 0 <= i < |ks| => ReadyFlag(roomPlayers[ks[i]].userId, roomPlayers[ks[i]].ready))
  }

  /** Every row of the room listed by `ks` shows up among the pairs. */
  lemma FlagsCover(roomPlayers: map<Id, RoomPlayer>, ks: seq<Id>, roomId: Id)
    requires forall k :: k in ks <==> k in roomPlayers && InRoom(roomId)(roomPlayers[k])
    ensures forall k :: k in roomPlayers && roomPlayers[k].roomId == roomId ==>
              ReadyFlag(roomPlayers[k].userId, roomPlayers[k].ready) in Flags(roomPlayers, ks)
  {
    forall k | k in roomPlayers && roomPlayers[k].roomId == roomId
      ensures ReadyFlag(roomPlayers[k].userId, roomPlayers[k].ready) in Flags(roomPlayers, ks)
    {
      assert InRoom(roomId)(roomPlayers[k]);
      var i :| 0 <= i < |ks| && ks[i] == k;
      assert Flags(roomPlayers, ks)[i] == ReadyFlag(roomPlayers[k].userId, roomPlayers[k].ready);
    }
  }

  /** Every pair comes from a row of the room. */
  lemma FlagsSound(roomPlayers: map<Id, RoomPlayer>, ks: seq<Id>, roomId: Id)
    requires forall i :: 0 <= i < |ks| ==> ks[i] in roomPlayers && InRoom(roomId)(roomPlayers[ks[i]])
    ensures forall e :: e in Flags(roomPlayers, ks) ==>
              exists k :: k in roomPlayers && roomPlayers[k].roomId == roomId
                          && e == ReadyFlag(roomPlayers[k].userId, roomPlayers[k].ready)
  {
    var r := Flags(roomPlayers, ks);
    forall e | e in r
      ensures exists k :: k in roomPlayers && roomPlayers[k].roomId == roomId
                          && e == ReadyFlag(roomPlayers[k].userId, roomPlayers[k].ready)
    {
      var i :| 0 <= i < |r| && r[i] == e;
      assert InRoom(roomId)(roomPlayers[ks[i]]);
    }
  }

  /**
   * `setPlayerReady`: sets the ready flag of the first row of the user in
   * the room and returns every player of the room with its flag; a user
   * with no row in the room is refused.
   */
  method SetPlayerReady(db: Db, roomId: Id, userId: Id, ready: bool) returns (r: Result<seq<ReadyFlag>>)
    requires db.Valid()
    modifies db`roomPlayers
    ensures db.Valid()
    ensures !IsMember(old(db.roomPlayers), roomId, userId) ==>
              r == Err("Player not in room") && db.roomPlayers == old(db.roomPlayers)
    ensures IsMember(old(db.roomPlayers), roomId, userId) ==>
              var k := PlayerRow(old(db.roomPlayers), old(db.nextId), roomId, userId).value;
              && db.roomPlayers == old(db.roomPlayers)[k := old(db.roomPlayers)[k].(ready := ready)]
              && r == Ok(ReadyFlags(db.roomPlayers, db.nextId, roomId))
              && ReadyFlag(userId, ready) in r.value
  {
    var row := PlayerRow(db.roomPlayers, db.nextId, roomId, userId);
    if row.None? {
      return Err("Player not in room");
    }
    var k := row.value;
    db.SetPlayers(db.roomPlayers[k := db.roomPlayers[k].(ready := ready)]);
    assert db.roomPlayers[k] == RoomPlayer(roomId, userId, ready, old(db.roomPlayers)[k].joinIndex);
    r := Ok(ReadyFlags(db.roomPlayers, db.nextId, roomId));
  }

  // ---------------------------------------------------------------- hosted rooms

  /** The sort key of `myRooms`: `b._creationTime - a._creationTime` sorts on the negated time. */
  function NewestFirst(room: Room): int
  {
    -room.creationTime
  }

  /** The rooms `caller` hosts. */
  function HostedBy(caller: Id): Room -> bool
  {
    (x: Room) => x.hostId == caller
  }

  /** `myRooms`: the rooms the caller hosts, the most recently created first. */
  function MyRooms(rooms: map<Id, Room>, hi: nat, caller: Id): (r: seq<Room>)
    requires KeysBelow(rooms, hi)
    ensures forall x :: x in r ==> x in rooms.Values && x.hostId == caller
    ensures forall k :: k in rooms && rooms[k].hostId == caller ==> rooms[k] in r
    ensures forall i, j :: 0 <= i < j < |r| ==> r[i].creationTime >= r[j].creationTime
    ensures forall x :: multiset(r)[x] == Copies(rooms, HostedBy(caller), x)
  {
    var hosted := Select(rooms, hi, HostedBy(caller));
    var sorted := SortByKey(hosted, NewestFirst);
    SortedByNegated(sorted, (x: Room) => x.creationTime);
    assert forall x :: x in sorted <==> x in hosted by {
      forall x ensures x in sorted <==> x in hosted {
        assert x in sorted <==> x in multiset(sorted);
        assert x in hosted <==> x in multiset(hosted);
      }
    }
    assert forall x :: multiset(sorted)[x] == multiset(hosted)[x];
    sorted
  }

  // ---------------------------------------------------------------- join requests

  /** The reply of `requestRoom`: `{ ok, message }`. */
  datatype RequestReply = RequestReply(ok: bool, message: string)

  /** The `by_user_code` index lookup of `rooms` on the code. */
  function WithCode(code: string): Room -> bool
  {
    (x: Room) => x.code == code
  }

  /** Some room carries the code. */
  predicate CodeExists(rooms: map<Id, Room>, code: string)
  {
    exists k :: k in rooms && rooms[k].code == code
  }

  /** The user has a request for the room, whatever its status. */
  predicate HasRequested(roomRequests: map<Id, RoomRequest>, roomId: Id, userId: Id)
  {
    exists k :: k in roomRequests && roomRequests[k].roomId == roomId && roomRequests[k].userId == userId
  }

  /** The earliest room with the code, the one `requestRoom` picks. */
  function RoomWithCode(rooms: map<Id, Room>, hi: nat, code: string): (r: Option<Id>)
    requires KeysBelow(rooms, hi)
    ensures r.None? <==> !CodeExists(rooms, code)
    ensures r.Some? ==> r.value in rooms && rooms[r.value].code == code
  {
    var r := First(rooms, hi, WithCode(code));
    if r.None? then
      assert !CodeExists(rooms, code) by {
        forall k | k in rooms ensures rooms[k].code != code {
          assert !WithCode(code)(rooms[k]);
        }
      }
      r
    else r
  }

  /** The user's first request for the room. */
  function RequestRow(roomRequests: map<Id, RoomRequest>, hi: nat, roomId: Id, userId: Id): (r: Option<Id>)
    requires KeysBelow(roomRequests, hi)
    ensures r.None? <==> !HasRequested(roomRequests, roomId, userId)
  {
    var r := First(roomRequests, hi, RequestOf(roomId, userId));
    if r.None? then
      assert !HasRequested(roomRequests, roomId, userId) by {
        forall k | k in roomRequests ensures !(roomRequests[k].roomId == roomId && roomRequests[k].userId == userId) {
          assert !RequestOf(roomId, userId)(roomRequests[k]);
        }
      }
      r
    else
      assert RequestOf(roomId, userId)(roomRequests[r.value]);
      r
  }

  /** The guards of `requestRoom`, in source order; `Ok` names the room asked for. */
  function CheckRequest(rooms: map<Id, Room>, roomRequests: map<Id, RoomRequest>, hi: nat, caller: Id, code: string)
    : (r: Result<Id>)
    requires KeysBelow(rooms, hi) && KeysBelow(roomRequests, hi)
    ensures !CodeExists(rooms, code) ==> r == Err("Room not found")
    ensures CodeExists(rooms, code) ==>
              var roomId := RoomWithCode(rooms, hi, code).value;
              && (HasRequested(roomRequests, roomId, caller) ==> r == Err("You have already requested this room"))
              && (!HasRequested(roomRequests, roomId, caller) && rooms[roomId].hostId == caller ==>
                    r == Err("You own the room already"))
              && (r.Ok? <==> !HasRequested(roomRequests, roomId, caller) && rooms[roomId].hostId != caller)
              && (r.Ok? ==> r.value == roomId)
  {
    var room := RoomWithCode(rooms, hi, code);
    if room.None? then Err("Room not found")
    else if RequestRow(roomRequests, hi, room.value, caller).Some? then Err("You have already requested this room")
    else if rooms[room.value].hostId == caller then Err("You own the room already")
    else Ok(room.value)
  }

  /**
   * `requestRoom` as the source writes it: after the three refusals
   * (`{ok: false}`, nothing written) it inserts a pending request and a
   * "request" notification to the host, but the notification does not
   * record the request's id.
   */
  method RequestRoomAsWritten(db: Db, caller: Id, code: string, now: int) returns (r: RequestReply)
    requires db.Valid()
    modifies db`roomRequests, db`notifications, db`nextId
    ensures db.Valid()
    ensures var g := CheckRequest(old(db.rooms), old(db.roomRequests), old(db.nextId), caller, code);
            && (g.Err? ==>
                  && r == RequestReply(false, g.msg)
                  && db.roomRequests == old(db.roomRequests) && db.notifications == old(db.notifications)
                  && db.nextId == old(db.nextId))
            && (g.Ok? ==>
                  && r == RequestReply(true, "Room request sent")
                  && db.roomRequests == old(db.roomRequests)[old(db.nextId) := RoomRequest(g.value, caller, Pending)]
                  && db.notifications == old(db.notifications)[old(db.nextId) + 1 :=
                       Notification(caller, old(db.rooms)[g.value].hostId, JoinRequest, false, Some(g.value), None, now)]
                  && db.nextId == old(db.nextId) + 2)
  {
    var g := CheckRequest(db.rooms, db.roomRequests, db.nextId, caller, code);
    if g.Err? {
      return RequestReply(false, g.msg);
    }
    FileRequest(db, caller, g.value, db.rooms[g.value].hostId, false, now);
    r := RequestReply(true, "Room request sent");
  }

  /**
   * The two inserts of a successful `requestRoom`: the pending request,
   * then the "request" notification to the host, which records the
   * request's id when `linked` holds.
   */
  method FileRequest(db: Db, caller: Id, roomId: Id, hostId: Id, linked: bool, now: int)
    requires db.Valid()
    modifies db`roomRequests, db`notifications, db`nextId
    ensures db.Valid()
    ensures db.roomRequests == old(db.roomRequests)[old(db.nextId) := RoomRequest(roomId, caller, Pending)]
    ensures db.notifications == old(db.notifications)[old(db.nextId) + 1 :=
              Notification(caller, hostId, JoinRequest, false, Some(roomId),
                           if linked then Some(old(db.nextId)) else None, now)]
    ensures db.nextId == old(db.nextId) + 2
    ensures linked && roomId in db.rooms && hostId == db.rooms[roomId].hostId ==>
              CheckJoinRequest(db.notifications, db.roomRequests, db.rooms, hostId, old(db.nextId) + 1) == Ok(old(db.nextId))
  {
    var requestId := db.InsertRequest(RoomRequest(roomId, caller, Pending));
    var noticeId := db.InsertNotification(
      Notification(caller, hostId, JoinRequest, false, Some(roomId), if linked then Some(requestId) else None, now));
    if linked && roomId in db.rooms && hostId == db.rooms[roomId].hostId {
      FiledRequestAnswerable(old(db.notifications), old(db.roomRequests), db.rooms, old(db.nextId), caller, roomId, now);
    }
  }

  /**
   * A "request" notification without a request id is refused by the
   * guard of `acceptRoomRequest` and `rejectRoomRequest`, whoever answers
   * it: the host can never let the requester in.
   */
  lemma UnlinkedRequestRefused(notifications: map<Id, Notification>, roomRequests: map<Id, RoomRequest>,
                               rooms: map<Id, Room>, noticeId: Id, notice: Notification, caller: Id)
    requires notice.kind == JoinRequest && notice.roomRequestId.None?
    ensures CheckJoinRequest(notifications[noticeId := notice], roomRequests, rooms, caller, noticeId)
              == Err("Notification does not have a roomRequestId")
  {
  }

  /**
   * `requestRoom` as intended: the same guards and rows, except that the
   * notification records the id of the request it announces.
   */
  method RequestRoom(db: Db, caller: Id, code: string, now: int) returns (r: RequestReply)
    requires db.Valid()
    modifies db`roomRequests, db`notifications, db`nextId
    ensures db.Valid()
    ensures var g := CheckRequest(old(db.rooms), old(db.roomRequests), old(db.nextId), caller, code);
            && (g.Err? ==>
                  && r == RequestReply(false, g.msg)
                  && db.roomRequests == old(db.roomRequests) && db.notifications == old(db.notifications)
                  && db.nextId == old(db.nextId))
            && (g.Ok? ==>
                  && r == RequestReply(true, "Room request sent")
                  && db.roomRequests == old(db.roomRequests)[old(db.nextId) := RoomRequest(g.value, caller, Pending)]
                  && db.notifications == old(db.notifications)[old(db.nextId) + 1 :=
                       Notification(caller, old(db.rooms)[g.value].hostId, JoinRequest, false, Some(g.value),
                                    Some(old(db.nextId)), now)]
                  && db.nextId == old(db.nextId) + 2
                  && CheckJoinRequest(db.notifications, db.roomRequests, db.rooms, old(db.rooms)[g.value].hostId,
                                      old(db.nextId) + 1) == Ok(old(db.nextId)))
  {
    var g := CheckRequest(db.rooms, db.roomRequests, db.nextId, caller, code);
    if g.Err? {
      return RequestReply(false, g.msg);
    }
    var host := db.rooms[g.value].hostId;
    FileRequest(db, caller, g.value, host, true, now);
    r := RequestReply(true, "Room request sent");
  }

  /** The request and notice that `requestRoom` files pass the host's accept and reject guard. */
  lemma FiledRequestAnswerable(notifications: map<Id, Notification>, roomRequests: map<Id, RoomRequest>,
                               rooms: map<Id, Room>, n: Id, caller: Id, roomId: Id, now: int)
    requires roomId in rooms
    ensures CheckJoinRequest(
              notifications[n + 1 := Notification(caller, rooms[roomId].hostId, JoinRequest, false, Some(roomId), Some(n), now)],
              roomRequests[n := RoomRequest(roomId, caller, Pending)], rooms, rooms[roomId].hostId, n + 1) == Ok(n)
  {
    LinkedRequestAccepted(notifications, roomRequests[n := RoomRequest(roomId, caller, Pending)], rooms, n + 1,
      Notification(caller, rooms[roomId].hostId, JoinRequest, false, Some(roomId), Some(n), now), rooms[roomId].hostId);
  }

  /**
   * A "request" notification that records an existing request for an
   * existing room passes the guard of `acceptRoomRequest` and
   * `rejectRoomRequest` for that room's host, and for no one else.
   */
  lemma LinkedRequestAccepted(notifications: map<Id, Notification>, roomRequests: map<Id, RoomRequest>,
                              rooms: map<Id, Room>, noticeId: Id, notice: Notification, caller: Id)
    requires notice.kind == JoinRequest && notice.roomRequestId.Some?
    requires notice.roomRequestId.value in roomRequests
    requires roomRequests[notice.roomRequestId.value].roomId in rooms
    ensures var g := CheckJoinRequest(notifications[noticeId := notice], roomRequests, rooms, caller, noticeId);
            && (g.Ok? <==> caller == rooms[roomRequests[notice.roomRequestId.value].roomId].hostId)
            && (g.Ok? ==> g.value == notice.roomRequestId.value)
  {
  }
}
