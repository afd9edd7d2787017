/**
 * Room membership (`convex/rooms.ts`): creating a room with its host as
 * the first player, the host's answer to a join request, leaving and
 * being removed, the ready flag, and linking a room to its group session.
 * Every mutation checks its guards before it writes, so a failed guard
 * leaves every table as it was.
 */
module Rooms {
  import opened Wrappers
  import opened Store
  import opened Pointers
  import opened Modular

  // ---------------------------------------------------------------- row filters

  /** The rows of one room. */
  function InRoom(roomId: Id): RoomPlayer -> bool
  {
    (p: RoomPlayer) => p.roomId == roomId
  }

  /** The `by_roomId` index lookup of `roomPlayers` on room and user. */
  function PlayerOf(roomId: Id, userId: Id): RoomPlayer -> bool
  {
    (p: RoomPlayer) => p.roomId == roomId && p.userId == userId
  }

  /** The `by_roomId` index lookup of `roomRequests` on room and user. */
  function RequestOf(roomId: Id, userId: Id): RoomRequest -> bool
  {
    (q: RoomRequest) => q.roomId == roomId && q.userId == userId
  }

  /** The user holds a player row in the room. */
  predicate IsMember(roomPlayers: map<Id, RoomPlayer>, roomId: Id, userId: Id)
  {
    exists k :: k in roomPlayers && roomPlayers[k].roomId == roomId && roomPlayers[k].userId == userId
  }

  /** The user ids of the rows `ks`, in the same order (`.map((p) => p.userId)`). */
  function UserIds(roomPlayers: map<Id, RoomPlayer>, ks: seq<Id>): (r: seq<Id>)
    requires forall i :: 0 <= i < |ks| ==> ks[i] in roomPlayers
    ensures |r| == |ks|
    ensures forall i :: 0 <= i < |ks| ==> r[i] == roomPlayers[ks[i]].userId
  {
    seq(|ks|, i requires 0 <= i < |ks| => roomPlayers[ks[i]].userId)
  }

  // ---------------------------------------------------------------- createRoom

  const ROOM_CODE_LENGTH: nat := 7
  const ROOM_CODE_PREFIX: string := "RR-"

  /** The codes of the rooms that `hostId` hosts. */
  function HostCodes(rooms: map<Id, Room>, hostId: Id): set<string>
  {
    set k | k in rooms && rooms[k].hostId == hostId :: rooms[k].code
  }

  /** Some room of `hostId` already has `code` (the `by_user_code` lookup). */
  predicate CodeTaken(rooms: map<Id, Room>, code: string, hostId: Id)
  {
    code in HostCodes(rooms, hostId)
  }

  /** The code that the `k`-th pass of the retry loop proposes. */
  function Candidate(prefix: string, draws: seq<seq<Byte>>, k: nat): string
    requires k < |draws|
  {
    prefix + CodeOf(draws[k])
  }

  /**
   * `createRoom`: draws codes until the host has no room with that code
   * (pass `k` of the `do ... while` draws the bytes `draws[k]`), inserts the
   * room, not playing, and then the host as its first player, ready, with
   * join index 0. Returns the room id.
   */
  method CreateRoom(db: Db, caller: Id, name: Option<string>, status: RoomStatus, maxPlayers: int,
                    now: int, draws: seq<seq<Byte>>)
    returns (roomId: Id)
    requires db.Valid()
    requires forall k :: 0 <= k < |draws| ==> |draws[k]| == ROOM_CODE_LENGTH
    requires |draws| > 0 && !CodeTaken(db.rooms, Candidate(ROOM_CODE_PREFIX, draws, |draws| - 1), caller)
    modifies db`rooms, db`roomPlayers, db`nextId
    ensures db.Valid()
    ensures roomId == old(db.nextId) && db.nextId == roomId + 2
    ensures exists k :: 0 <= k < |draws|
              && db.rooms == old(db.rooms)[roomId := Room(name, Candidate(ROOM_CODE_PREFIX, draws, k), caller, status, maxPlayers,
                                                         false, None, None, now)]
              && !CodeTaken(old(db.rooms), Candidate(ROOM_CODE_PREFIX, draws, k), caller)
              && forall j :: 0 <= j < k ==> CodeTaken(old(db.rooms), Candidate(ROOM_CODE_PREFIX, draws, j), caller)
    ensures db.roomPlayers == old(db.roomPlayers)[roomId + 1 := RoomPlayer(roomId, caller, true, Some(0))]
  {
    var k, code := FreeCode(db.rooms, db.nextId, caller, ROOM_CODE_PREFIX, draws);
    TakenBeforeAll(db.rooms, caller, ROOM_CODE_PREFIX, draws, k);
    roomId := db.InsertRoom(Room(name, code, caller, status, maxPlayers, false, None, None, now));
    var playerId := db.InsertPlayer(RoomPlayer(roomId, caller, true, Some(0)));
  }

  /**
   * The `do ... while` loop of `createRoom`: draws until the host has no
   * room with the code; returns the pass `k` that stopped it and its code.
   */
  method FreeCode(rooms: map<Id, Room>, hi: nat, hostId: Id, prefix: string, draws: seq<seq<Byte>>)
    returns (k: nat, code: string)
    requires KeysBelow(rooms, hi)
    requires forall k :: 0 <= k < |draws| ==> |draws[k]| == ROOM_CODE_LENGTH
    requires |draws| > 0 && !CodeTaken(rooms, Candidate(prefix, draws, |draws| - 1), hostId)
    ensures k < |draws| && code == Candidate(prefix, draws, k)
    ensures !CodeTaken(rooms, code, hostId)
    ensures TakenBefore(rooms, hostId, prefix, draws, k)
  {
    k := 0;
    var taken;
    code, taken := Pass(rooms, hi, hostId, prefix, draws, k);
    while taken
      invariant 0 <= k < |draws|
      invariant code == Candidate(prefix, draws, k)
      invariant taken == CodeTaken(rooms, code, hostId)
      invariant TakenBefore(rooms, hostId, prefix, draws, k)
      decreases |draws| - k
    {
      assert k != |draws| - 1;
      k := k + 1;
      code, taken := Pass(rooms, hi, hostId, prefix, draws, k);
    }
  }

  /** One pass of the loop: draw a code and look it up among the host's rooms. */
  method Pass(rooms: map<Id, Room>, hi: nat, hostId: Id, prefix: string, draws: seq<seq<Byte>>, k: nat)
    returns (code: string, taken: bool)
    requires KeysBelow(rooms, hi)
    requires k < |draws| && |draws[k]| == ROOM_CODE_LENGTH
    ensures code == Candidate(prefix, draws, k)
    ensures taken == CodeTaken(rooms, code, hostId)
  {
    code := DrawCode(prefix, draws, k);
    var existing := CodeHolder(rooms, hi, code, hostId);
    taken := existing.Some?;
  }

  /** Every pass before `k` proposed a code the host already uses. */
  ghost predicate TakenBefore(rooms: map<Id, Room>, hostId: Id, prefix: string, draws: seq<seq<Byte>>, k: nat)
    requires k <= |draws|
  {
    k == 0 || (TakenBefore(rooms, hostId, prefix, draws, k - 1) && CodeTaken(rooms, Candidate(prefix, draws, k - 1), hostId))
  }

  /** `TakenBefore` spelled out: each earlier pass collided. */
  lemma {:induction false} TakenBeforeAll(rooms: map<Id, Room>, hostId: Id, prefix: string, draws: seq<seq<Byte>>, k: nat)
    requires k <= |draws| && TakenBefore(rooms, hostId, prefix, draws, k)
    ensures forall j :: 0 <= j < k ==> CodeTaken(rooms, Candidate(prefix, draws, j), hostId)
  {
    if k > 0 {
      TakenBeforeAll(rooms, hostId, prefix, draws, k - 1);
    }
  }

  /** The `by_user_code` lookup: the first room of `hostId` with `code`. */
  function CodeHolder(rooms: map<Id, Room>, hi: nat, code: string, hostId: Id): (r: Option<Id>)
    requires KeysBelow(rooms, hi)
    ensures r.Some? <==> CodeTaken(rooms, code, hostId)
  {
    var p := (r: Room) => r.code == code && r.hostId == hostId;
    var r := First(rooms, hi, p);
    if r.None? then
      assert !CodeTaken(rooms, code, hostId) by {
        forall k | k in rooms && rooms[k].hostId == hostId ensures rooms[k].code != code {
          assert !p(rooms[k]);
        }
      }
      r
    else
      assert p(rooms[r.value]);
      assert rooms[r.value].code in HostCodes(rooms, hostId);
      r
  }

  /**
   * `generateRoomCode({ length: 7, prefix: "RR-" })` on pass `k`, which
   * draws the bytes `draws[k]`. With no `existing` set its first attempt is
   * always accepted, so one draw of bytes is all a call uses and the
   * attempt budget does not come into play.
   */
  method DrawCode(prefix: string, draws: seq<seq<Byte>>, k: nat) returns (code: string)
    requires k < |draws| && |draws[k]| == ROOM_CODE_LENGTH
    ensures code == Candidate(prefix, draws, k)
    ensures |code| == |prefix| + ROOM_CODE_LENGTH
  {
    var bytes := draws[k];
    var r := GenerateRoomCode(ROOM_CODE_LENGTH, 1, NoExisting, prefix, [bytes]);
    assert Free(ExistingCodes(NoExisting), prefix + CodeOf([bytes][0]));
    code := r.value;
  }

  // ---------------------------------------------------------------- join requests

  /**
   * The guards that `acceptRoomRequest` and `rejectRoomRequest` share, in
   * their order: the notification exists, is a join request, names a
   * request, the request and its room exist, and the caller hosts the room.
   * On success, the id of the request.
   */
  function CheckJoinRequest(notifications: map<Id, Notification>, roomRequests: map<Id, RoomRequest>,
                            rooms: map<Id, Room>, caller: Id, notificationId: Id): (r: Result<Id>)
    ensures notificationId !in notifications ==> r == Err("Notification not found")
    ensures notificationId in notifications && notifications[notificationId].kind != JoinRequest ==>
              r == Err("Notification is not a join request")
    ensures (notificationId in notifications && notifications[notificationId].kind == JoinRequest
             && notifications[notificationId].roomRequestId.None?) ==>
              r == Err("Notification does not have a roomRequestId")
    ensures (notificationId in notifications && notifications[notificationId].kind == JoinRequest
             && notifications[notificationId].roomRequestId.Some?
             && notifications[notificationId].roomRequestId.value !in roomRequests) ==>
              r == Err("Room request not found")
    ensures (notificationId in notifications && notifications[notificationId].kind == JoinRequest
             && notifications[notificationId].roomRequestId.Some?
             && notifications[notificationId].roomRequestId.value in roomRequests
             && roomRequests[notifications[notificationId].roomRequestId.value].roomId !in rooms) ==>
              r == Err("Room not found")
    ensures (notificationId in notifications && notifications[notificationId].kind == JoinRequest
             && notifications[notificationId].roomRequestId.Some?
             && notifications[notificationId].roomRequestId.value in roomRequests
             && roomRequests[notifications[notificationId].roomRequestId.value].roomId in rooms
             && rooms[roomRequests[notifications[notificationId].roomRequestId.value].roomId].hostId != caller) ==>
              r == Err("Only host can accept join requests")
    ensures r.Ok? <==>
              && notificationId in notifications
              && notifications[notificationId].kind == JoinRequest
              && notifications[notificationId].roomRequestId.Some?
              && notifications[notificationId].roomRequestId.value in roomRequests
              && roomRequests[notifications[notificationId].roomRequestId.value].roomId in rooms
              && rooms[roomRequests[notifications[notificationId].roomRequestId.value].roomId].hostId == caller
    ensures r.Ok? ==> r.value == notifications[notificationId].roomRequestId.value
  {
    if notificationId !in notifications then Err("Notification not found")
    else
      var n := notifications[notificationId];
      if n.kind != JoinRequest then Err("Notification is not a join request")
      else if n.roomRequestId.None? then Err("Notification does not have a roomRequestId")
      else if n.roomRequestId.value !in roomRequests then Err("Room request not found")
      else
        var request := roomRequests[n.roomRequestId.value];
        if request.roomId !in rooms then Err("Room not found")
        else if rooms[request.roomId].hostId != caller then Err("Only host can accept join requests")
        else Ok(n.roomRequestId.value)
  }

  /** What `acceptRoomRequest` returns besides `ok: true`. */
  datatype AcceptReply = AcceptReply(acceptedUser: Id, startUser: Id)

  /**
   * `acceptRoomRequest`: after the shared guards, marks the request
   * accepted, adds the requester as a player (not ready) whose join index
   * is the room's player count, picks the room's next starting player with
   * `random` (the `Math.random()` draw) among the players including the new
   * one, notifies the requester and marks the request notification read.
   */
  method AcceptRoomRequest(db: Db, caller: Id, notificationId: Id, random: real, now: int)
    returns (r: Result<AcceptReply>)
    requires db.Valid()
    requires 0.0 <= random < 1.0
    modifies db`roomRequests, db`roomPlayers, db`rooms, db`notifications, db`nextId
    ensures db.Valid()
    ensures var g := CheckJoinRequest(old(db.notifications), old(db.roomRequests), old(db.rooms), caller, notificationId);
            && (g.Err? ==> r == Err(g.msg))
            && (g.Ok? <==> r.Ok?)
    ensures r.Err? ==>
              && db.roomRequests == old(db.roomRequests) && db.roomPlayers == old(db.roomPlayers)
              && db.rooms == old(db.rooms) && db.notifications == old(db.notifications)
              && db.nextId == old(db.nextId)
    ensures r.Ok? ==>
              var requestId := old(db.notifications)[notificationId].roomRequestId.value;
              var request := old(db.roomRequests)[requestId];
              var before := Query(old(db.roomPlayers), old(db.nextId), InRoom(request.roomId));
              var playerIds := UserIds(old(db.roomPlayers), before) + [request.userId];
              && r.value.acceptedUser == request.userId
              && r.value.startUser == playerIds[PickIndex(random, |playerIds|)]
              && db.roomRequests == old(db.roomRequests)[requestId := request.(status := Accepted)]
              && db.roomPlayers == old(db.roomPlayers)[old(db.nextId) :=
                   RoomPlayer(request.roomId, request.userId, false, Some(|before|))]
              && db.rooms == old(db.rooms)[request.roomId :=
                   old(db.rooms)[request.roomId].(startUser := Some(r.value.startUser))]
              && db.notifications == old(db.notifications)[notificationId :=
                   old(db.notifications)[notificationId].(read := true)][old(db.nextId) + 1 :=
                   Notification(caller, request.userId, JoinAccepted, false, Some(request.roomId), None, now)]
              && db.nextId == old(db.nextId) + 2
  {
    var g := CheckJoinRequest(db.notifications, db.roomRequests, db.rooms, caller, notificationId);
    if g.Err? {
      return Err(g.msg);
    }
    var request := db.roomRequests[g.value];
    db.SetRequests(db.roomRequests[g.value := request.(status := Accepted)]);
    var existing := Query(db.roomPlayers, db.nextId, InRoom(request.roomId));
    var playerIds := UserIds(db.roomPlayers, existing) + [request.userId];
    var joinIndex := |existing|;
    var playerId := db.InsertPlayer(RoomPlayer(request.roomId, request.userId, false, Some(joinIndex)));
    var startUser := playerIds[PickIndex(random, |playerIds|)];
    db.SetRooms(db.rooms[request.roomId := db.rooms[request.roomId].(startUser := Some(startUser))]);
    var noticeId := db.InsertNotification(
      Notification(caller, request.userId, JoinAccepted, false, Some(request.roomId), None, now));
    db.SetNotifications(db.notifications[notificationId := db.notifications[notificationId].(read := true)]);
    r := Ok(AcceptReply(request.userId, startUser));
  }

  /** The starting player `acceptRoomRequest` picks is the requester or already a player of the room. */
  lemma StartUserIsMember(roomPlayers: map<Id, RoomPlayer>, hi: nat, roomId: Id, requester: Id, random: real)
    requires KeysBelow(roomPlayers, hi)
    requires 0.0 <= random < 1.0
    ensures var before := Query(roomPlayers, hi, InRoom(roomId));
            var playerIds := UserIds(roomPlayers, before) + [requester];
            var s := playerIds[PickIndex(random, |playerIds|)];
            s == requester || IsMember(roomPlayers, roomId, s)
  {
    var before := Query(roomPlayers, hi, InRoom(roomId));
    var playerIds := UserIds(roomPlayers, before) + [requester];
    var i := PickIndex(random, |playerIds|);
    var s := playerIds[i];
    if i < |before| {
      var k := before[i];
      assert k in roomPlayers && roomPlayers[k].roomId == roomId && roomPlayers[k].userId == s by {
        assert InRoom(roomId)(roomPlayers[k]);
      }
    } else {
      assert s == requester;
    }
  }

  /** The ids of the room's player rows. */
  function RoomRowIds(roomPlayers: map<Id, RoomPlayer>, roomId: Id): (r: set<Id>)
    ensures forall k :: k in r <==> k in roomPlayers && roomPlayers[k].roomId == roomId
  {
    set k | k in roomPlayers && roomPlayers[k].roomId == roomId
  }

  /** The join index `acceptRoomRequest` hands out is the number of the room's player rows. */
  lemma JoinIndexIsRoomSize(roomPlayers: map<Id, RoomPlayer>, hi: nat, roomId: Id)
    requires KeysBelow(roomPlayers, hi)
    ensures |Query(roomPlayers, hi, InRoom(roomId))| == |RoomRowIds(roomPlayers, roomId)|
  {
    var before := Query(roomPlayers, hi, InRoom(roomId));
    IncreasingCard(before);
    assert KeySet(before) == RoomRowIds(roomPlayers, roomId);
  }

  /** The player row `acceptRoomRequest` inserts raises the room's size by one. */
  lemma InsertGrowsRoom(roomPlayers: map<Id, RoomPlayer>, hi: nat, row: RoomPlayer)
    requires KeysBelow(roomPlayers, hi)
    ensures |RoomRowIds(roomPlayers[hi := row], row.roomId)| == |RoomRowIds(roomPlayers, row.roomId)| + 1
  {
    assert hi !in RoomRowIds(roomPlayers, row.roomId);
    assert RoomRowIds(roomPlayers[hi := row], row.roomId) == RoomRowIds(roomPlayers, row.roomId) + {hi};
  }

  /**
   * `rejectRoomRequest`: after the shared guards, deletes the request,
   * sends the requester a "reject" notification and marks the request
   * notification read. Returns the rejected user.
   */
  method RejectRoomRequest(db: Db, caller: Id, notificationId: Id, now: int) returns (r: Result<Id>)
    requires db.Valid()
    modifies db`roomRequests, db`notifications, db`nextId
    ensures db.Valid()
    ensures var g := CheckJoinRequest(old(db.notifications), old(db.roomRequests), old(db.rooms), caller, notificationId);
            && (g.Err? ==> r == Err(g.msg))
            && (g.Ok? <==> r.Ok?)
    ensures r.Err? ==>
              db.roomRequests == old(db.roomRequests) && db.notifications == old(db.notifications)
              && db.nextId == old(db.nextId)
    ensures r.Ok? ==>
              var requestId := old(db.notifications)[notificationId].roomRequestId.value;
              var request := old(db.roomRequests)[requestId];
              && r.value == request.userId
              && db.roomRequests == old(db.roomRequests) - {requestId}
              && db.notifications == old(db.notifications)[old(db.nextId) :=
                   Notification(caller, request.userId, JoinRejected, false, Some(request.roomId), None, now)][notificationId :=
                   old(db.notifications)[notificationId].(read := true)]
              && db.nextId == old(db.nextId) + 1
  {
    var g := CheckJoinRequest(db.notifications, db.roomRequests, db.rooms, caller, notificationId);
    if g.Err? {
      return Err(g.msg);
    }
    var request := db.roomRequests[g.value];
    db.SetRequests(db.roomRequests - {g.value});
    var noticeId := db.InsertNotification(
      Notification(caller, request.userId, JoinRejected, false, Some(request.roomId), None, now));
    db.SetNotifications(db.notifications[notificationId := db.notifications[notificationId].(read := true)]);
    r := Ok(request.userId);
  }

  // ---------------------------------------------------------------- leaving a room

  /**
   * `quitRoom`: deletes every request and every player row of the caller
   * in the room, then tells the host with a "quit" notification.
   */
  method QuitRoom(db: Db, caller: Id, roomId: Id, now: int) returns (r: Result<Unit>)
    requires db.Valid()
    modifies db`roomRequests, db`roomPlayers, db`notifications, db`nextId
    ensures db.Valid()
    ensures roomId !in old(db.rooms) ==>
              && r == Err("Room not found")
              && db.roomRequests == old(db.roomRequests) && db.roomPlayers == old(db.roomPlayers)
              && db.notifications == old(db.notifications) && db.nextId == old(db.nextId)
    ensures roomId in old(db.rooms) ==>
              && r == Ok(Unit)
              && db.roomRequests == Without(old(db.roomRequests), RequestOf(roomId, caller))
              && db.roomPlayers == Without(old(db.roomPlayers), PlayerOf(roomId, caller))
              && db.notifications == old(db.notifications)[old(db.nextId) :=
                   Notification(caller, old(db.rooms)[roomId].hostId, PlayerQuit, false, Some(roomId), None, now)]
              && db.nextId == old(db.nextId) + 1
  {
    if roomId !in db.rooms {
      return Err("Room not found");
    }
    var room := db.rooms[roomId];
    var requests := DeleteWhere(db.roomRequests, db.nextId, RequestOf(roomId, caller));
    var players := DeleteWhere(db.roomPlayers, db.nextId, PlayerOf(roomId, caller));
    db.SetRequests(requests);
    db.SetPlayers(players);
    var noticeId := db.InsertNotification(
      Notification(caller, room.hostId, PlayerQuit, false, Some(roomId), None, now));
    r := Ok(Unit);
  }

  /** After the deletes of `quitRoom` or `removeUserFromRoom` the user is no member of the room. */
  lemma NoMemberAfterDelete(roomPlayers: map<Id, RoomPlayer>, roomId: Id, userId: Id)
    ensures !IsMember(Without(roomPlayers, PlayerOf(roomId, userId)), roomId, userId)
    ensures forall u :: u != userId && IsMember(roomPlayers, roomId, u) ==>
              IsMember(Without(roomPlayers, PlayerOf(roomId, userId)), roomId, u)
  {
    var after := Without(roomPlayers, PlayerOf(roomId, userId));
    forall k | k in after ensures !(after[k].roomId == roomId && after[k].userId == userId) {
      assert !PlayerOf(roomId, userId)(roomPlayers[k]);
    }
    forall u | u != userId && IsMember(roomPlayers, roomId, u) ensures IsMember(after, roomId, u) {
      var k :| k in roomPlayers && roomPlayers[k].roomId == roomId && roomPlayers[k].userId == u;
      assert !PlayerOf(roomId, userId)(roomPlayers[k]);
      assert k in after;
    }
  }

  /** A request `removeUserFromRoom` withdraws: the user's accepted request for the room. */
  function AcceptedRequestOf(roomId: Id, userId: Id): RoomRequest -> bool
  {
    (q: RoomRequest) => q.roomId == roomId && q.userId == userId && q.status == Accepted
  }

  /** The status patch of `removeUserFromRoom`. */
  function MarkRemoved(q: RoomRequest): RoomRequest
  {
    q.(status := Removed)
  }

  /**
   * `removeUserFromRoom`: host only. Marks the user's accepted requests for
   * the room "removed", deletes the user's player rows in the room and
   * sends the user a "removed" notification. Returns the removed user.
   */
  method RemoveUserFromRoom(db: Db, caller: Id, roomId: Id, userId: Id, now: int) returns (r: Result<Id>)
    requires db.Valid()
    modifies db`roomRequests, db`roomPlayers, db`notifications, db`nextId
    ensures db.Valid()
    ensures roomId !in old(db.rooms) ==> r == Err("Room not found")
    ensures roomId in old(db.rooms) && old(db.rooms)[roomId].hostId != caller ==>
              r == Err("Only room host can remove users")
    ensures r.Ok? <==> roomId in old(db.rooms) && old(db.rooms)[roomId].hostId == caller
    ensures r.Err? ==>
              && db.roomRequests == old(db.roomRequests) && db.roomPlayers == old(db.roomPlayers)
              && db.notifications == old(db.notifications) && db.nextId == old(db.nextId)
    ensures r.Ok? ==>
              && r.value == userId
              && db.roomRequests == Patched(old(db.roomRequests), AcceptedRequestOf(roomId, userId), MarkRemoved)
              && db.roomPlayers == Without(old(db.roomPlayers), PlayerOf(roomId, userId))
              && db.notifications == old(db.notifications)[old(db.nextId) :=
                   Notification(caller, userId, PlayerRemoved, false, Some(roomId), None, now)]
              && db.nextId == old(db.nextId) + 1
  {
    if roomId !in db.rooms {
      return Err("Room not found");
    }
    var room := db.rooms[roomId];
    if caller != room.hostId {
      return Err("Only room host can remove users");
    }
    var requests := PatchWhere(db.roomRequests, db.nextId, AcceptedRequestOf(roomId, userId), MarkRemoved);
    var players := DeleteWhere(db.roomPlayers, db.nextId, PlayerOf(roomId, userId));
    db.SetRequests(requests);
    db.SetPlayers(players);
    var noticeId := db.InsertNotification(
      Notification(room.hostId, userId, PlayerRemoved, false, Some(roomId), None, now));
    r := Ok(userId);
  }

  // ---------------------------------------------------------------- ready flag

  /** The caller's row that `toggleReady` patches: the first of its rows in the room. */
  function PlayerRow(roomPlayers: map<Id, RoomPlayer>, hi: nat, roomId: Id, userId: Id): (r: Option<Id>)
    requires KeysBelow(roomPlayers, hi)
    ensures r.None? <==> !IsMember(roomPlayers, roomId, userId)
    ensures r.Some? ==> r.value in roomPlayers && PlayerOf(roomId, userId)(roomPlayers[r.value])
  {
    var r := First(roomPlayers, hi, PlayerOf(roomId, userId));
    if r.None? then
      assert !IsMember(roomPlayers, roomId, userId) by {
        forall k | k in roomPlayers ensures !(roomPlayers[k].roomId == roomId && roomPlayers[k].userId == userId) {
          assert !PlayerOf(roomId, userId)(roomPlayers[k]);
        }
      }
      r
    else r
  }

  /** The table with the ready flag of row `k` negated. */
  function Toggled(roomPlayers: map<Id, RoomPlayer>, k: Id): (r: map<Id, RoomPlayer>)
    requires k in roomPlayers
    ensures r.Keys == roomPlayers.Keys
    ensures r[k].ready == !roomPlayers[k].ready
  {
    roomPlayers[k := roomPlayers[k].(ready := !roomPlayers[k].ready)]
  }

  /**
   * `toggleReady`: negates the ready flag of the caller's row in the room
   * and returns the new value; a caller with no row is refused. (The
   * source's two further checks cannot fail: the row found belongs to the
   * caller, and a flag is either set or not.)
   */
  method ToggleReady(db: Db, caller: Id, roomId: Id) returns (r: Result<bool>)
    requires db.Valid()
    modifies db`roomPlayers
    ensures db.Valid()
    ensures !IsMember(old(db.roomPlayers), roomId, caller) ==>
              r == Err("You are not a player in this room") && db.roomPlayers == old(db.roomPlayers)
    ensures IsMember(old(db.roomPlayers), roomId, caller) ==>
              var k := PlayerRow(old(db.roomPlayers), old(db.nextId), roomId, caller).value;
              && r == Ok(!old(db.roomPlayers)[k].ready)
              && db.roomPlayers == Toggled(old(db.roomPlayers), k)
  {
    var player := PlayerRow(db.roomPlayers, db.nextId, roomId, caller);
    if player.None? {
      return Err("You are not a player in this room");
    }
    var k := player.value;
    if db.roomPlayers[k].ready {
      db.SetPlayers(db.roomPlayers[k := db.roomPlayers[k].(ready := false)]);
      r := Ok(false);
    } else {
      db.SetPlayers(db.roomPlayers[k := db.roomPlayers[k].(ready := true)]);
      r := Ok(true);
    }
  }

  /** Toggling keeps the row `toggleReady` finds: a second call patches the same row. */
  lemma ToggleFindsSameRow(roomPlayers: map<Id, RoomPlayer>, hi: nat, roomId: Id, userId: Id)
    requires KeysBelow(roomPlayers, hi)
    requires IsMember(roomPlayers, roomId, userId)
    ensures var k := PlayerRow(roomPlayers, hi, roomId, userId).value;
            PlayerRow(Toggled(roomPlayers, k), hi, roomId, userId) == Some(k)
  {
    var k := PlayerRow(roomPlayers, hi, roomId, userId).value;
    QueryAgree(roomPlayers, Toggled(roomPlayers, k), hi, PlayerOf(roomId, userId));
  }

  /** Toggling the same row twice restores the table: two `toggleReady` calls change nothing. */
  lemma ToggleTwice(roomPlayers: map<Id, RoomPlayer>, k: Id)
    requires k in roomPlayers
    ensures Toggled(Toggled(roomPlayers, k), k) == roomPlayers
  {
    assert Toggled(Toggled(roomPlayers, k), k)[k] == roomPlayers[k];
  }

  // ---------------------------------------------------------------- playtime link

  /**
   * `updateRoomPlaytimeId`: the session must exist and belong to the room;
   * then the room records it (patching a missing room fails).
   */
  method UpdateRoomPlaytimeId(db: Db, roomPlaytimeId: Id, roomId: Id) returns (r: Result<Unit>)
    requires db.Valid()
    modifies db`rooms
    ensures db.Valid()
    ensures roomPlaytimeId !in db.roomPlaytimes ==> r == Err("Room playtime not found")
    ensures roomPlaytimeId in db.roomPlaytimes && db.roomPlaytimes[roomPlaytimeId].roomId != roomId ==>
              r == Err("Room playtime does not belong to the specified room")
    ensures (roomPlaytimeId in db.roomPlaytimes && db.roomPlaytimes[roomPlaytimeId].roomId == roomId
             && roomId !in old(db.rooms)) ==> r == Err(MISSING_DOCUMENT)
    ensures r.Ok? <==>
              roomPlaytimeId in db.roomPlaytimes && db.roomPlaytimes[roomPlaytimeId].roomId == roomId
              && roomId in old(db.rooms)
    ensures r.Err? ==> db.rooms == old(db.rooms)
    ensures r.Ok? ==> db.rooms == old(db.rooms)[roomId := old(db.rooms)[roomId].(playtimeId := Some(roomPlaytimeId))]
  {
    if roomPlaytimeId !in db.roomPlaytimes {
      return Err("Room playtime not found");
    }
    if db.roomPlaytimes[roomPlaytimeId].roomId != roomId {
      return Err("Room playtime does not belong to the specified room");
    }
    if roomId !in db.rooms {
      return Err(MISSING_DOCUMENT);
    }
    db.SetRooms(db.rooms[roomId := db.rooms[roomId].(playtimeId := Some(roomPlaytimeId))]);
    r := Ok(Unit);
  }
}
