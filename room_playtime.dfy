/**
 * convex/roomPlaytime.ts and convex/utils/playtimeHelpers.ts: the group
 * progression engine over the `roomPlaytimes` table. Two rotations run side
 * by side on every advance: the riddle pointer moves forward to the next
 * riddle not done, and the turn passes to the next roster member modulo the
 * roster size; each turn with a current riddle is appended to the `play` log.
 */
module RoomPlaytimeEngine {
  import opened Wrappers
  import opened Store
  import opened Pointers
  import opened RiddleList
  import opened Sorting
  import opened Modular

  // ------------------------------------------------------------ creation

  /**
   * The record both creators build: riddles in the given order, none done,
   * the riddle pointer at the first one, no play log and no user pointers.
   * `createRoomPlaytime` passes `playing = true`, `initializeRoomPlaytime`
   * passes `playing = false`.
   */
  function FreshRoomPlaytime(roomId: Id, ids: seq<Id>, playing: bool): (rp: RoomPlaytime)
    ensures rp.roomId == roomId
    ensures RiddleIds(rp.riddles) == ids
    ensures forall i :: 0 <= i < |rp.riddles| ==> !rp.riddles[i].done
    ensures rp.currentRiddle == (if |ids| > 0 then Some(ids[0]) else None)
    ensures rp.previousRiddle == None
    ensures rp.nextRiddle == (if |ids| > 1 then Some(ids[1]) else None)
    ensures rp.playing == playing && !rp.completed && rp.play == None
    ensures rp.currentUser == None && rp.previousUser == None && rp.nextUser == None
  {
    var riddles := AllUndone(ids);
    var firstIdx := FindFirstUndone(riddles);
    var ptr := ComputeRiddlePointersFromIndex(riddles, if firstIdx == -1 then None else Some(firstIdx));
    RoomPlaytime(roomId, riddles, None, playing, false, ptr.current, ptr.previous, ptr.next, None, None, None)
  }

  /** `createRoomPlaytime`: inserts a playing session row and returns its id. */
  method CreateRoomPlaytime(db: Db, roomId: Id, riddleIds: seq<Id>) returns (id: Id)
    requires db.Valid()
    modifies db`roomPlaytimes, db`nextId
    ensures db.Valid()
    ensures id !in old(db.roomPlaytimes)
    ensures db.roomPlaytimes == old(db.roomPlaytimes)[id := FreshRoomPlaytime(roomId, riddleIds, true)]
  {
    var payload := FreshRoomPlaytime(roomId, riddleIds, true);
    id := db.NewId();
    db.roomPlaytimes := db.roomPlaytimes[id := payload];
  }

  /** `initializeRoomPlaytime`: inserts a session row that waits for the host to start it. */
  method InitializeRoomPlaytime(db: Db, roomId: Id, riddleIds: seq<Id>) returns (id: Id)
    requires db.Valid()
    modifies db`roomPlaytimes, db`nextId
    ensures db.Valid()
    ensures id !in old(db.roomPlaytimes)
    ensures db.roomPlaytimes == old(db.roomPlaytimes)[id := FreshRoomPlaytime(roomId, riddleIds, false)]
  {
    var payload := FreshRoomPlaytime(roomId, riddleIds, false);
    id := db.NewId();
    db.roomPlaytimes := db.roomPlaytimes[id := payload];
  }

  // -------------------------------------------------------------- roster

  /** The room's player rows in query (insertion) order, with no `ready` filter. */
  function RosterRows(players: map<Id, RoomPlayer>, hi: nat, roomId: Id): (rows: seq<RoomPlayer>)
    requires KeysBelow(players, hi)
    ensures forall i :: 0 <= i < |rows| ==> rows[i].roomId == roomId
    ensures forall k :: k in players && players[k].roomId == roomId ==> players[k] in rows
  {
    var ks := Query(players, hi, (p: RoomPlayer) => p.roomId == roomId);
    var rows := Rows(players, ks);
    assert forall k :: k in players && players[k].roomId == roomId ==> exists i :: 0 <= i < |ks| && ks[i] == k;
    rows
  }

  /** `.map(p => p.userId)`. */
  function UserIds(rows: seq<RoomPlayer>): (ids: seq<Id>)
    ensures |ids| == |rows|
    ensures forall i :: 0 <= i < |rows| ==> ids[i] == rows[i].userId
  {
    seq(|rows|, i requires 0 <= i < |rows| => rows[i].userId)
  }

  /** The sort key of `onStartGame`: a missing `joinIndex` counts as 0. */
  function JoinKey(p: RoomPlayer): int
  {
    if p.joinIndex.Some? then p.joinIndex.value else 0
  }

  /** The roster order of `onStartGame`: the rows stably sorted by join key. */
  function StartOrder(rows: seq<RoomPlayer>): (sorted: seq<RoomPlayer>)
    ensures SortedBy(sorted, JoinKey)
    ensures multiset(sorted) == multiset(rows)
  {
    SortByKey(rows, JoinKey)
  }

  /** `findIndex` of a user id, `-1` when absent. */
  function IndexOfUser(ids: seq<Id>, u: Id): (r: int)
    ensures -1 <= r < |ids|
    ensures r == -1 <==> u !in ids
    ensures r >= 0 ==> ids[r] == u && forall i :: 0 <= i < r ==> ids[i] != u
  {
    if ids == [] then -1
    else if ids[0] == u then 0
    else
      var k := IndexOfUser(ids[1..], u);
      if k == -1 then -1 else k + 1
  }

  /** With distinct ids, a member's index is its position. */
  lemma IndexOfDistinct(ids: seq<Id>, i: nat)
    requires i < |ids| && Distinct(ids)
    ensures IndexOfUser(ids, ids[i]) == i
  {
  }

  // ----------------------------------------------------------- start game

  /** The starting user: the room's `startUser` when it is in the roster, otherwise a random member. */
  function ChooseStartUser(startUser: Option<Id>, roster: seq<Id>, random: real): (u: Id)
    requires |roster| > 0 && 0.0 <= random < 1.0
    ensures u in roster
    ensures startUser.Some? && startUser.value in roster ==> u == startUser.value
    ensures startUser.None? || startUser.value !in roster ==> u == roster[PickIndex(random, |roster|)]
  {
    if startUser.None? || startUser.value !in roster then roster[PickIndex(random, |roster|)]
    else startUser.value
  }

  /** What `onStartGame` returns on success. */
  datatype StartReply = StartReply(playtimeId: Id, pointers: Triple<Id>)

  /** The user pointers `onStartGame` writes: non-wrapping neighbours of the start user. */
  function StartPointers(startUser: Option<Id>, roster: seq<Id>, random: real): Triple<Id>
    requires |roster| > 0 && 0.0 <= random < 1.0
  {
    var u := ChooseStartUser(startUser, roster, random);
    var startIndex := IndexOfUser(roster, u);
    ComputeUserPointersFromIndex(roster, if startIndex == -1 then None else Some(startIndex))
  }

  /**
   * The start pointers name the chosen user as current and its neighbours
   * in the sorted roster as previous and next, without wrapping around.
   */
  lemma StartPointersNeighbours(startUser: Option<Id>, roster: seq<Id>, random: real)
    requires |roster| > 0 && 0.0 <= random < 1.0
    ensures var ptr, u := StartPointers(startUser, roster, random), ChooseStartUser(startUser, roster, random);
            var i := IndexOfUser(roster, u);
            && 0 <= i < |roster|
            && ptr.current == Some(u)
            && ptr.currentIndex == Some(i)
            && (ptr.previous.Some? <==> i > 0)
            && (i > 0 ==> ptr.previous == Some(roster[i - 1]))
            && (ptr.next.Some? <==> i < |roster| - 1)
            && (i < |roster| - 1 ==> ptr.next == Some(roster[i + 1]))
  {
  }

  /**
   * `onStartGame`: orders the roster by join index, starts with the room's
   * `startUser` (or a random member), and marks the session playing.
   */
  method OnStartGame(db: Db, roomId: Id, random: real) returns (r: Result<StartReply>)
    requires db.Valid() && 0.0 <= random < 1.0
    modifies db`roomPlaytimes
    ensures db.Valid()
    ensures roomId !in db.rooms ==> r == Err("Room not found")
    ensures roomId in db.rooms && db.rooms[roomId].playtimeId.None? ==> r == Err("Room playtime not found")
    ensures roomId in db.rooms && db.rooms[roomId].playtimeId.Some? && RosterRows(db.roomPlayers, db.nextId, roomId) == [] ==>
              r == Err("No players to start the game")
    ensures r.Err? ==> db.roomPlaytimes == old(db.roomPlaytimes)
    ensures r.Ok? <==>
              && roomId in db.rooms && db.rooms[roomId].playtimeId.Some?
              && RosterRows(db.roomPlayers, db.nextId, roomId) != []
              && db.rooms[roomId].playtimeId.value in old(db.roomPlaytimes)
    ensures r.Ok? ==>
              var room := db.rooms[roomId];
              var pid := room.playtimeId.value;
              var roster := UserIds(StartOrder(RosterRows(db.roomPlayers, db.nextId, roomId)));
              var ptr := StartPointers(room.startUser, roster, random);
              && r.value == StartReply(pid, ptr)
              && db.roomPlaytimes == old(db.roomPlaytimes)[pid := old(db.roomPlaytimes[pid]).(
                   playing := true, currentUser := ptr.current, previousUser := ptr.previous, nextUser := ptr.next)]
  {
    if roomId !in db.rooms {
      return Err("Room not found");
    }
    var room := db.rooms[roomId];
    if room.playtimeId.None? {
      return Err("Room playtime not found");
    }
    var players := RosterRows(db.roomPlayers, db.nextId, roomId);
    if |players| == 0 {
      return Err("No players to start the game");
    }
    var playerIds := UserIds(StartOrder(players));
    var pointers := StartPointers(room.startUser, playerIds, random);
    var pid := room.playtimeId.value;
    if pid !in db.roomPlaytimes {
      return Err(MISSING_DOCUMENT);
    }
    PatchStart(db, pid, pointers);
    r := Ok(StartReply(pid, pointers));
  }

  /** The `db.patch` of `onStartGame`: the session plays, with the given user pointers. */
  method PatchStart(db: Db, pid: Id, pointers: Triple<Id>)
    requires db.Valid() && pid in db.roomPlaytimes
    modifies db`roomPlaytimes
    ensures db.Valid()
    ensures db.roomPlaytimes == old(db.roomPlaytimes)[pid := old(db.roomPlaytimes[pid]).(
              playing := true, currentUser := pointers.current, previousUser := pointers.previous, nextUser := pointers.next)]
  {
    db.roomPlaytimes := db.roomPlaytimes[pid := db.roomPlaytimes[pid].(
      playing := true, currentUser := pointers.current, previousUser := pointers.previous, nextUser := pointers.next)];
  }

  /**
   * The two roster orders can differ: rows stored as B (joined second)
   * then A (joined first) start in the order A, B but rotate in the stored
   * order B, A.
   */
  lemma RosterOrdersDiffer(room: Id, a: Id, b: Id)
    requires a != b
    ensures var rows := [RoomPlayer(room, b, true, Some(1)), RoomPlayer(room, a, true, Some(0))];
            && UserIds(StartOrder(rows)) == [a, b]
            && UserIds(rows) == [b, a]
  {
    var rows := [RoomPlayer(room, b, true, Some(1)), RoomPlayer(room, a, true, Some(0))];
    assert rows[..1] == [rows[0]];
    assert SortByKey(rows[..1], JoinKey) == [rows[0]];
    assert StartOrder(rows) == [rows[1], rows[0]];
  }

  // --------------------------------------------------------------- advance

  /** The validated `result` argument of `advanceRoomPlaytime`. */
  datatype RoomPointers = RoomPointers(
    previousUser: Option<Id>, currentUser: Option<Id>, nextUser: Option<Id>,
    previousRiddle: Option<Id>, currentRiddle: Option<Id>, nextRiddle: Option<Id>,
    completed: bool)

  /** What `advanceRoomPlaytime` returns when it does not throw. */
  datatype AdvanceReply = NotPlaying(message: string) | Advanced(playtimeId: Id, pointers: RoomPointers)

  /** The play log, with `undefined` read as empty. */
  function Log(play: Option<seq<PlayEntry>>): seq<PlayEntry>
  {
    if play.Some? then play.value else []
  }

  /** The turn's player: the current user's roster index, or 0 when it is unset or not in the roster. */
  function ResolveUserIndex(currentUser: Option<Id>, roster: seq<Id>): (i: nat)
    requires |roster| > 0
    ensures i < |roster|
    ensures currentUser.Some? && currentUser.value in roster ==> i == IndexOfUser(roster, currentUser.value)
    ensures currentUser.None? || currentUser.value !in roster ==> i == 0
  {
    var found := if currentUser.Some? then IndexOfUser(roster, currentUser.value) else -1;
    if found == -1 then 0 else found
  }

  /** Index of the current riddle in the list, `-1` when it is unset or not found. */
  function RiddleIndexOf(rp: RoomPlaytime): (i: int)
    ensures -1 <= i < |rp.riddles|
  {
    if rp.currentRiddle.Some? then FindIndexById(rp.riddles, rp.currentRiddle.value) else -1
  }

  /** The riddle list with the current riddle (when found) marked done. */
  function MarkedRiddles(rp: RoomPlaytime): (rs: seq<RiddleRef>)
    ensures |rs| == |rp.riddles|
  {
    var ri := RiddleIndexOf(rp);
    if ri >= 0 then MarkDone(rp.riddles, ri) else rp.riddles
  }

  /** The entry logged for this turn: only when there is a current riddle; a missing result counts as skipped. */
  function TurnEntry(rp: RoomPlaytime, roster: seq<Id>, ui: nat, result: Option<Outcome>): Option<PlayEntry>
    requires ui < |roster|
  {
    if rp.currentRiddle.Some? then
      Some(PlayEntry(rp.currentRiddle.value, true, roster[ui], |Log(rp.play)|, if result.Some? then result.value else Skipped))
    else None
  }

  /** The new `play` field: concatenation onto an existing log, a one-entry log, or still `undefined`. */
  function Appended(play: Option<seq<PlayEntry>>, entry: Option<PlayEntry>): Option<seq<PlayEntry>>
  {
    if play.Some? then Some(play.value + (if entry.Some? then [entry.value] else []))
    else if entry.Some? then Some([entry.value])
    else None
  }

  /**
   * The patched row once the turn's player index `ui` and the scan's stop
   * `next` (`|riddles|` when nothing is left) are known. When no riddle is
   * left the session stops playing, is marked completed and loses its
   * riddle pointers; otherwise `playing` and `completed` are not patched.
   */
  function RoomMoved(rp: RoomPlaytime, roster: seq<Id>, result: Option<Outcome>, ui: nat, next: nat): RoomPlaytime
    requires ui < |roster|
  {
    var n := |roster|;
    var nextUserIndex := (ui + 1) % n;
    var riddles := MarkedRiddles(rp);
    var ptr := ComputeRiddlePointersFromIndex(riddles, if next < |riddles| then Some(next) else None);
    var finished := ptr.current.None?;
    rp.(riddles := riddles,
        play := Appended(rp.play, TurnEntry(rp, roster, ui, result)),
        previousUser := Some(roster[ui]),
        currentUser := Some(roster[nextUserIndex]),
        nextUser := Some(roster[(nextUserIndex + 1) % n]),
        previousRiddle := rp.currentRiddle,
        currentRiddle := ptr.current,
        nextRiddle := if finished then None else ptr.next,
        playing := if finished then false else rp.playing,
        completed := if finished then true else rp.completed)
  }

  /** The row `advanceRoomPlaytime` writes, given the raw roster. */
  function RoomStep(rp: RoomPlaytime, roster: seq<Id>, result: Option<Outcome>): (q: RoomPlaytime)
    requires |roster| > 0
    ensures |q.riddles| == |rp.riddles|
  {
    var riddles := MarkedRiddles(rp);
    RoomMoved(rp, roster, result, ResolveUserIndex(rp.currentUser, roster),
              NextUndoneFrom(riddles, RiddleIndexOf(rp) + 1))
  }

  /** The pointers returned to the caller; `completed` is set only by the advance that finishes. */
  function ReplyOf(q: RoomPlaytime): RoomPointers
  {
    RoomPointers(q.previousUser, q.currentUser, q.nextUser, q.previousRiddle, q.currentRiddle, q.nextRiddle,
                 q.currentRiddle.None?)
  }

  /** The computation of `advanceRoomPlaytime` between its reads and its patch. */
  method AdvanceRoomRow(rp: RoomPlaytime, roster: seq<Id>, result: Option<Outcome>) returns (q: RoomPlaytime)
    requires |roster| > 0
    ensures q == RoomStep(rp, roster, result)
  {
    var currentUserIndex := -1;
    if rp.currentUser.Some? {
      currentUserIndex := IndexOfUser(roster, rp.currentUser.value);
    }
    if currentUserIndex == -1 {
      currentUserIndex := 0;
    }
    var currentRiddleIndex := -1;
    if rp.currentRiddle.Some? {
      currentRiddleIndex := FindIndexById(rp.riddles, rp.currentRiddle.value);
    }
    var newRiddles := rp.riddles;
    if currentRiddleIndex >= 0 {
      newRiddles := MarkDone(rp.riddles, currentRiddleIndex);
    }
    assert currentUserIndex == ResolveUserIndex(rp.currentUser, roster);
    assert currentRiddleIndex == RiddleIndexOf(rp);
    assert newRiddles == MarkedRiddles(rp);
    var nextRiddleIdx := ScanNextUndone(newRiddles, currentRiddleIndex + 1);
    assert nextRiddleIdx == NextUndoneFrom(MarkedRiddles(rp), RiddleIndexOf(rp) + 1);
    q := RoomMoved(rp, roster, result, currentUserIndex, nextRiddleIdx);
    assert RoomStep(rp, roster, result) == q;
  }

  /**
   * The successful advance of session `pid`: it was stored and playing, its
   * room has players, the row is replaced by `RoomStep` over the raw roster
   * and the reply carries the new pointers.
   */
  ghost predicate AdvancedBy(before: map<Id, RoomPlaytime>, after: map<Id, RoomPlaytime>, players: map<Id, RoomPlayer>,
                             hi: nat, pid: Id, result: Option<Outcome>, reply: AdvanceReply)
    requires KeysBelow(players, hi)
  {
    && pid in before && before[pid].playing
    && var roster := UserIds(RosterRows(players, hi, before[pid].roomId));
    && |roster| > 0
    && after == before[pid := RoomStep(before[pid], roster, result)]
    && reply == Advanced(pid, ReplyOf(after[pid]))
  }

  /** Steps 3 to 11 of `advanceRoomPlaytime`: compute the patch, write it, report the pointers. */
  method PatchAdvance(db: Db, playtimeId: Id, roster: seq<Id>, result: Option<Outcome>) returns (reply: AdvanceReply)
    requires db.Valid() && playtimeId in db.roomPlaytimes && |roster| > 0
    modifies db`roomPlaytimes
    ensures db.Valid()
    ensures db.roomPlaytimes == old(db.roomPlaytimes)[playtimeId := RoomStep(old(db.roomPlaytimes[playtimeId]), roster, result)]
    ensures reply == Advanced(playtimeId, ReplyOf(db.roomPlaytimes[playtimeId]))
  {
    var patched := AdvanceRoomRow(db.roomPlaytimes[playtimeId], roster, result);
    db.roomPlaytimes := db.roomPlaytimes[playtimeId := patched];
    reply := Advanced(playtimeId, ReplyOf(patched));
  }

  /** `advanceRoomPlaytime` on a validated `result`. */
  method AdvanceRoomPlaytime(db: Db, playtimeId: Id, result: Option<Outcome>) returns (r: Result<AdvanceReply>)
    requires db.Valid()
    modifies db`roomPlaytimes
    ensures db.Valid()
    ensures playtimeId !in old(db.roomPlaytimes) ==> r == Err("Playtime not found")
    ensures playtimeId in old(db.roomPlaytimes) && !old(db.roomPlaytimes[playtimeId].playing) ==>
              r == Ok(NotPlaying("Playtime is not playing"))
    ensures playtimeId in old(db.roomPlaytimes) && old(db.roomPlaytimes[playtimeId].playing)
            && RosterRows(db.roomPlayers, db.nextId, old(db.roomPlaytimes[playtimeId].roomId)) == [] ==>
              r == Err("No players found for this room")
    ensures r.Ok? && r.value.Advanced? <==>
              && playtimeId in old(db.roomPlaytimes) && old(db.roomPlaytimes[playtimeId].playing)
              && RosterRows(db.roomPlayers, db.nextId, old(db.roomPlaytimes[playtimeId].roomId)) != []
    ensures !r.Ok? || r.value.NotPlaying? ==> db.roomPlaytimes == old(db.roomPlaytimes)
    ensures r.Ok? && r.value.Advanced? ==> AdvancedBy(old(db.roomPlaytimes), db.roomPlaytimes, db.roomPlayers, db.nextId, playtimeId, result, r.value)
  {
    if playtimeId !in db.roomPlaytimes {
      return Err("Playtime not found");
    }
    var playtime := db.roomPlaytimes[playtimeId];
    if !playtime.playing {
      return Ok(NotPlaying("Playtime is not playing"));
    }
    var playerIds := UserIds(RosterRows(db.roomPlayers, db.nextId, playtime.roomId));
    if |playerIds| == 0 {
      return Err("No players found for this room");
    }
    var reply := PatchAdvance(db, playtimeId, playerIds, result);
    r := Ok(reply);
  }

  // ------------------------------------------------- argument validation

  /** The string an outcome is sent as. */
  function OutcomeName(o: Outcome): string
  {
    match o
    case Correct => "correct"
    case Incorrect => "incorrect"
    case Skipped => "skipped"
    case TimedOut => "timedOut"
  }

  /**
   * The `result` validator of `advanceRoomPlaytime` as written: optional,
   * and one of "correct", "incorrect" and "skipped". "timedOut", which the
   * room page sends when a turn's timer runs out, is refused.
   */
  function ParseResultAsWritten(arg: Option<string>): (r: Result<Option<Outcome>>)
    ensures arg.None? ==> r == Ok(None)
    ensures forall o: Outcome :: o != TimedOut && arg == Some(OutcomeName(o)) ==> r == Ok(Some(o))
    ensures arg.Some? && (forall o: Outcome :: o != TimedOut ==> arg.value != OutcomeName(o)) ==> r == Err(ARG_INVALID)
  {
    if arg.None? then Ok(None)
    else if arg.value == OutcomeName(Correct) then Ok(Some(Correct))
    else if arg.value == OutcomeName(Incorrect) then Ok(Some(Incorrect))
    else if arg.value == OutcomeName(Skipped) then Ok(Some(Skipped))
    else Err(ARG_INVALID)
  }

  /** The validator with "timedOut" admitted, so that every outcome the client sends is accepted. */
  function ParseResult(arg: Option<string>): (r: Result<Option<Outcome>>)
    ensures arg.None? ==> r == Ok(None)
    ensures forall o: Outcome :: arg == Some(OutcomeName(o)) ==> r == Ok(Some(o))
    ensures arg.Some? && (forall o: Outcome :: arg.value != OutcomeName(o)) ==> r == Err(ARG_INVALID)
  {
    if arg.None? then Ok(None)
    else if arg.value == OutcomeName(Correct) then Ok(Some(Correct))
    else if arg.value == OutcomeName(Incorrect) then Ok(Some(Incorrect))
    else if arg.value == OutcomeName(Skipped) then Ok(Some(Skipped))
    else if arg.value == OutcomeName(TimedOut) then Ok(Some(TimedOut))
    else Err(ARG_INVALID)
  }

  /** Distinct outcomes are sent as distinct strings. */
  lemma OutcomeNameInjective(o: Outcome, p: Outcome)
    requires OutcomeName(o) == OutcomeName(p)
    ensures o == p
  {
  }

  /** The room page's timer path sends "timedOut", which the validator as written refuses. */
  lemma AsWrittenRefusesTimedOut()
    ensures ParseResultAsWritten(Some(OutcomeName(TimedOut))) == Err(ARG_INVALID)
    ensures ParseResult(Some(OutcomeName(TimedOut))) == Ok(Some(TimedOut))
  {
    assert forall o: Outcome :: o != TimedOut ==> OutcomeName(TimedOut) != OutcomeName(o);
  }

  /** The corrected validator agrees with the one as written wherever that one accepts. */
  lemma ParseResultExtends(arg: Option<string>)
    ensures ParseResultAsWritten(arg).Ok? ==> ParseResult(arg) == ParseResultAsWritten(arg)
    ensures ParseResult(arg).Err? <==> ParseResultAsWritten(arg).Err? && arg != Some(OutcomeName(TimedOut))
  {
  }

  /**
   * `advanceRoomPlaytime` as the program runs it: the raw `result` argument
   * goes through the validator as written, so "timedOut" is refused with
   * the validation error and nothing is written; an accepted argument
   * drives the advance.
   */
  method AdvanceRoomPlaytimeCallAsWritten(db: Db, playtimeId: Id, arg: Option<string>) returns (r: Result<AdvanceReply>)
    requires db.Valid()
    modifies db`roomPlaytimes
    ensures db.Valid()
    ensures ParseResultAsWritten(arg).Err? ==> r == Err(ARG_INVALID) && db.roomPlaytimes == old(db.roomPlaytimes)
    ensures arg == Some(OutcomeName(TimedOut)) ==> r == Err(ARG_INVALID) && db.roomPlaytimes == old(db.roomPlaytimes)
    ensures ParseResultAsWritten(arg).Ok? && playtimeId !in old(db.roomPlaytimes) ==> r == Err("Playtime not found")
    ensures ParseResultAsWritten(arg).Ok? && playtimeId in old(db.roomPlaytimes) && !old(db.roomPlaytimes[playtimeId].playing) ==>
              r == Ok(NotPlaying("Playtime is not playing"))
    ensures ParseResultAsWritten(arg).Ok? && playtimeId in old(db.roomPlaytimes) && old(db.roomPlaytimes[playtimeId].playing)
            && RosterRows(db.roomPlayers, db.nextId, old(db.roomPlaytimes[playtimeId].roomId)) == [] ==>
              r == Err("No players found for this room")
    ensures r.Ok? && r.value.Advanced? <==>
              && ParseResultAsWritten(arg).Ok?
              && playtimeId in old(db.roomPlaytimes) && old(db.roomPlaytimes[playtimeId].playing)
              && RosterRows(db.roomPlayers, db.nextId, old(db.roomPlaytimes[playtimeId].roomId)) != []
    ensures !r.Ok? || r.value.NotPlaying? ==> db.roomPlaytimes == old(db.roomPlaytimes)
    ensures r.Ok? && r.value.Advanced? ==>
              && ParseResultAsWritten(arg).Ok?
              && AdvancedBy(old(db.roomPlaytimes), db.roomPlaytimes, db.roomPlayers, db.nextId, playtimeId,
                            ParseResultAsWritten(arg).value, r.value)
  {
    AsWrittenRefusesTimedOut();
    var result := ParseResultAsWritten(arg);
    if result.Err? {
      return Err(ARG_INVALID);
    }
    r := AdvanceRoomPlaytime(db, playtimeId, result.value);
  }

  /**
   * `advanceRoomPlaytime` with the corrected validator, which admits
   * "timedOut": a refused argument writes nothing; otherwise the validated
   * outcome drives the advance.
   */
  method AdvanceRoomPlaytimeCall(db: Db, playtimeId: Id, arg: Option<string>) returns (r: Result<AdvanceReply>)
    requires db.Valid()
    modifies db`roomPlaytimes
    ensures db.Valid()
    ensures ParseResult(arg).Err? ==> r == Err(ARG_INVALID) && db.roomPlaytimes == old(db.roomPlaytimes)
    ensures ParseResult(arg).Ok? && playtimeId !in old(db.roomPlaytimes) ==> r == Err("Playtime not found")
    ensures ParseResult(arg).Ok? && playtimeId in old(db.roomPlaytimes) && !old(db.roomPlaytimes[playtimeId].playing) ==>
              r == Ok(NotPlaying("Playtime is not playing"))
    ensures ParseResult(arg).Ok? && playtimeId in old(db.roomPlaytimes) && old(db.roomPlaytimes[playtimeId].playing)
            && RosterRows(db.roomPlayers, db.nextId, old(db.roomPlaytimes[playtimeId].roomId)) == [] ==>
              r == Err("No players found for this room")
    ensures r.Ok? && r.value.Advanced? <==>
              && ParseResult(arg).Ok?
              && playtimeId in old(db.roomPlaytimes) && old(db.roomPlaytimes[playtimeId].playing)
              && RosterRows(db.roomPlayers, db.nextId, old(db.roomPlaytimes[playtimeId].roomId)) != []
    ensures !r.Ok? || r.value.NotPlaying? ==> db.roomPlaytimes == old(db.roomPlaytimes)
    ensures r.Ok? && r.value.Advanced? ==>
              && ParseResult(arg).Ok?
              && AdvancedBy(old(db.roomPlaytimes), db.roomPlaytimes, db.roomPlayers, db.nextId, playtimeId,
                            ParseResult(arg).value, r.value)
    ensures arg == Some(OutcomeName(TimedOut)) && playtimeId in old(db.roomPlaytimes) && old(db.roomPlaytimes[playtimeId].playing)
            && RosterRows(db.roomPlayers, db.nextId, old(db.roomPlaytimes[playtimeId].roomId)) != [] ==>
              && r.Ok? && r.value.Advanced?
              && db.roomPlaytimes[playtimeId]
                 == RoomStep(old(db.roomPlaytimes[playtimeId]),
                             UserIds(RosterRows(db.roomPlayers, db.nextId, old(db.roomPlaytimes[playtimeId].roomId))),
                             Some(TimedOut))
  {
    AsWrittenRefusesTimedOut();
    var result := ParseResult(arg);
    if result.Err? {
      return Err(ARG_INVALID);
    }
    r := AdvanceRoomPlaytime(db, playtimeId, result.value);
  }

  // ------------------------------------------------------- one advance

  /**
   * A play entry is appended exactly when there was a current riddle; it
   * records that riddle, the resolved player, the old log length as its
   * turn index and the result (skipped when absent). Earlier entries stay.
   */
  lemma RoomStepLogsTurn(rp: RoomPlaytime, roster: seq<Id>, result: Option<Outcome>)
    requires |roster| > 0
    ensures var q, ui := RoomStep(rp, roster, result), ResolveUserIndex(rp.currentUser, roster);
            && (rp.currentRiddle.Some? ==>
                  q.play == Some(Log(rp.play) + [PlayEntry(rp.currentRiddle.value, true, roster[ui], |Log(rp.play)|,
                                                           if result.Some? then result.value else Skipped)]))
            && (rp.currentRiddle.None? ==> q.play == rp.play)
  {
    var entry := TurnEntry(rp, roster, ResolveUserIndex(rp.currentUser, roster), result);
    if entry.Some? {
      assert [] + [entry.value] == [entry.value];
    } else if rp.play.Some? {
      assert rp.play.value + [] == rp.play.value;
    }
  }

  /**
   * A turn whose timer ran out, admitted by the corrected validator, is
   * logged with the `TimedOut` outcome for the riddle that was current.
   */
  lemma TimedOutTurnLogged(rp: RoomPlaytime, roster: seq<Id>)
    requires |roster| > 0 && rp.currentRiddle.Some?
    ensures var log := Log(RoomStep(rp, roster, Some(TimedOut)).play);
            && |log| == |Log(rp.play)| + 1
            && log[|log| - 1].riddleId == rp.currentRiddle.value
            && log[|log| - 1].result == TimedOut
  {
    RoomStepLogsTurn(rp, roster, Some(TimedOut));
  }

  /** Every entry's turn index is its position in the log. */
  predicate TurnsIndexed(log: seq<PlayEntry>)
  {
    forall i :: 0 <= i < |log| ==> log[i].turnIndex == i
  }

  /** The log only grows at its end and keeps turn indices equal to positions. */
  lemma RoomStepKeepsLog(rp: RoomPlaytime, roster: seq<Id>, result: Option<Outcome>)
    requires |roster| > 0
    ensures var q := RoomStep(rp, roster, result);
            && Log(rp.play) <= Log(q.play)
            && |Log(q.play)| <= |Log(rp.play)| + 1
            && (TurnsIndexed(Log(rp.play)) ==> TurnsIndexed(Log(q.play)))
  {
    RoomStepLogsTurn(rp, roster, result);
  }

  /**
   * The turn always rotates, with or without a current riddle: the resolved
   * player becomes previous, the next two roster positions (wrapping
   * modulo the roster size) become current and next.
   */
  lemma RoomStepRotatesUsers(rp: RoomPlaytime, roster: seq<Id>, result: Option<Outcome>)
    requires |roster| > 0
    ensures var q, ui, n := RoomStep(rp, roster, result), ResolveUserIndex(rp.currentUser, roster), |roster|;
            && q.previousUser == Some(roster[ui])
            && q.currentUser == Some(roster[(ui + 1) % n])
            && q.nextUser == Some(roster[(ui + 2) % n])
  {
    ModSum(ResolveUserIndex(rp.currentUser, roster), 1, |roster|);
  }

  /**
   * Only the current riddle's `done` flag can flip, the ids keep their
   * order, and the previous riddle is the old current one.
   */
  lemma RoomStepMarksRiddle(rp: RoomPlaytime, roster: seq<Id>, result: Option<Outcome>)
    requires |roster| > 0
    ensures var q, ri := RoomStep(rp, roster, result), RiddleIndexOf(rp);
            && RiddleIds(q.riddles) == RiddleIds(rp.riddles)
            && (ri >= 0 ==> q.riddles[ri].done)
            && (forall k :: 0 <= k < |rp.riddles| && k != ri ==> q.riddles[k] == rp.riddles[k])
            && q.previousRiddle == rp.currentRiddle
  {
    var ri := RiddleIndexOf(rp);
    if ri >= 0 {
      assert MarkedRiddles(rp) == MarkDone(rp.riddles, ri);
    }
  }

  /**
   * The new current riddle is the first not-done riddle after the old one
   * (searching from the start when it was not found), with its successor
   * as next; there is none when the search runs off the end.
   */
  lemma RoomStepMovesRiddle(rp: RoomPlaytime, roster: seq<Id>, result: Option<Outcome>)
    requires |roster| > 0
    ensures var q, ri := RoomStep(rp, roster, result), RiddleIndexOf(rp);
            var j := NextUndoneFrom(q.riddles, ri + 1);
            && (forall k :: ri < k < j ==> q.riddles[k].done)
            && (j < |q.riddles| ==> !q.riddles[j].done && q.currentRiddle == Some(q.riddles[j].id))
            && (j < |q.riddles| - 1 ==> q.nextRiddle == Some(q.riddles[j + 1].id))
            && (j == |q.riddles| - 1 ==> q.nextRiddle == None)
            && (j == |q.riddles| ==> q.currentRiddle == None && q.nextRiddle == None)
  {
    var ri := RiddleIndexOf(rp);
    var q, rs := RoomStep(rp, roster, result), MarkedRiddles(rp);
    var j := NextUndoneFrom(rs, ri + 1);
    var ptr := ComputeRiddlePointersFromIndex(rs, if j < |rs| then Some(j) else None);
    assert q.riddles == rs && q.currentRiddle == ptr.current;
    if j < |rs| {
      assert q.nextRiddle == ptr.next;
    }
  }

  /**
   * Completion: the advance finishes the session exactly when no riddle
   * after the current one is left; it then stops playing, marks the session
   * completed and clears the riddle pointers. Otherwise both flags are kept.
   */
  lemma RoomStepCompletes(rp: RoomPlaytime, roster: seq<Id>, result: Option<Outcome>)
    requires |roster| > 0
    ensures var q, ri := RoomStep(rp, roster, result), RiddleIndexOf(rp);
            && (q.currentRiddle.None? <==> forall k :: ri < k < |q.riddles| ==> q.riddles[k].done)
            && (q.currentRiddle.None? ==> !q.playing && q.completed && q.nextRiddle.None?)
            && (q.currentRiddle.Some? ==> q.playing == rp.playing && q.completed == rp.completed)
            && ReplyOf(q).completed == q.currentRiddle.None?
  {
    RoomStepMovesRiddle(rp, roster, result);
  }

  // ----------------------------------------------------- several advances

  /** Advances with the given results in a row, on a fixed roster. */
  function StepAll(rp: RoomPlaytime, roster: seq<Id>, results: seq<Option<Outcome>>): RoomPlaytime
    requires |roster| > 0
    decreases |results|
  {
    if results == [] then rp else StepAll(RoomStep(rp, roster, results[0]), roster, results[1..])
  }

  /** Whose turn it is after one advance: the roster successor of the resolved player. */
  function TurnAfter(currentUser: Option<Id>, roster: seq<Id>): Option<Id>
    requires |roster| > 0
  {
    Some(roster[(ResolveUserIndex(currentUser, roster) + 1) % |roster|])
  }

  /** Whose turn it is after `k` advances. */
  function TurnsAfter(currentUser: Option<Id>, roster: seq<Id>, k: nat): Option<Id>
    requires |roster| > 0
    decreases k
  {
    if k == 0 then currentUser else TurnsAfter(TurnAfter(currentUser, roster), roster, k - 1)
  }

  /**
   * Whose turn it is after several advances depends only on the roster,
   * the starting turn and how many advances there were, not on the results
   * or the riddle pointer.
   */
  lemma {:induction false} StepAllTurns(rp: RoomPlaytime, roster: seq<Id>, results: seq<Option<Outcome>>)
    requires |roster| > 0
    ensures StepAll(rp, roster, results).currentUser == TurnsAfter(rp.currentUser, roster, |results|)
    decreases |results|
  {
    if results == [] {
      assert StepAll(rp, roster, results).currentUser == rp.currentUser;
    } else {
      var q := RoomStep(rp, roster, results[0]);
      var rest := results[1..];
      assert |rest| == |results| - 1;
      RoomStepRotatesUsers(rp, roster, results[0]);
      assert q.currentUser == TurnAfter(rp.currentUser, roster);
      StepAllTurns(q, roster, rest);
      assert StepAll(rp, roster, results).currentUser == StepAll(q, roster, rest).currentUser;
      assert TurnsAfter(rp.currentUser, roster, |results|) == TurnsAfter(q.currentUser, roster, |results| - 1);
    }
  }

  /**
   * On a roster of distinct users the turn passes round it in order: `k`
   * turns after player `i` it is player `(i + k) mod n`'s turn.
   */
  lemma {:induction false} TurnsCycle(roster: seq<Id>, i: nat, k: nat)
    requires Distinct(roster) && i < |roster|
    ensures TurnsAfter(Some(roster[i]), roster, k) == Some(roster[(i + k) % |roster|])
    decreases k
  {
    var n := |roster|;
    if k == 0 {
      ModUnique(i, 0, i, n);
    } else {
      IndexOfDistinct(roster, i);
      var j := (i + 1) % n;
      assert TurnAfter(Some(roster[i]), roster) == Some(roster[j]);
      assert TurnsAfter(Some(roster[i]), roster, k) == TurnsAfter(Some(roster[j]), roster, k - 1);
      TurnsCycle(roster, j, k - 1);
      ModSum(i, k - 1, n);
      assert i + 1 + (k - 1) == i + k;
    }
  }

  /** After as many turns as there are players, the turn is back with the same player. */
  lemma TurnsFullCircle(roster: seq<Id>, i: nat)
    requires Distinct(roster) && i < |roster|
    ensures TurnsAfter(Some(roster[i]), roster, |roster|) == Some(roster[i])
  {
    var n := |roster|;
    ModFullTurn(i, n);
    var j := (i + n) % n;
    assert j == i;
    TurnsCycle(roster, i, n);
  }

  /** A fresh two-riddle session handed to player `a`, with `b` next. */
  function TwoPlayerStart(room: Id, r1: Id, r2: Id, a: Id, b: Id): RoomPlaytime
  {
    FreshRoomPlaytime(room, [r1, r2], true).(currentUser := Some(a), previousUser := None, nextUser := Some(b))
  }

  /**
   * The first advance of the two-riddle, two-player game logs riddle 1 for
   * player A as turn 0, marks it done and hands riddle 2 to B.
   */
  lemma TwoPlayerFirstTurn(room: Id, r1: Id, r2: Id, a: Id, b: Id)
    requires r1 != r2 && a != b
    ensures var first := RoomStep(TwoPlayerStart(room, r1, r2, a, b), [a, b], Some(Correct));
            && first.riddles == [RiddleRef(r1, true), RiddleRef(r2, false)]
            && first.play == Some([PlayEntry(r1, true, a, 0, Correct)])
            && first.currentUser == Some(b)
            && first.currentRiddle == Some(r2)
            && first.playing && !first.completed
  {
    var roster := [a, b];
    var start := TwoPlayerStart(room, r1, r2, a, b);
    assert start.riddles[0].id == r1 && start.riddles[1].id == r2;
    assert RiddleIndexOf(start) == 0;
    assert ResolveUserIndex(start.currentUser, roster) == 0;
    var first := RoomStep(start, roster, Some(Correct));
    RoomStepLogsTurn(start, roster, Some(Correct));
    RoomStepRotatesUsers(start, roster, Some(Correct));
    RoomStepMarksRiddle(start, roster, Some(Correct));
    RoomStepMovesRiddle(start, roster, Some(Correct));
    assert first.riddles == [RiddleRef(r1, true), RiddleRef(r2, false)];
    NextUndoneFromUnique(first.riddles, 1, 1);
    RoomStepCompletes(start, roster, Some(Correct));
  }

  /**
   * The second advance of the same game logs riddle 2 for player B as turn
   * 1 and finishes the session: no current riddle, not playing, completed,
   * and the turn back with A.
   */
  lemma TwoPlayerSecondTurn(first: RoomPlaytime, r1: Id, r2: Id, a: Id, b: Id)
    requires r1 != r2 && a != b
    requires first.riddles == [RiddleRef(r1, true), RiddleRef(r2, false)]
    requires first.play == Some([PlayEntry(r1, true, a, 0, Correct)])
    requires first.currentUser == Some(b) && first.currentRiddle == Some(r2)
    ensures var second := RoomStep(first, [a, b], Some(Skipped));
            && second.play == Some([PlayEntry(r1, true, a, 0, Correct), PlayEntry(r2, true, b, 1, Skipped)])
            && second.completed && !second.playing
            && second.currentRiddle == None
            && second.currentUser == Some(a)
  {
    var roster := [a, b];
    assert first.riddles[0].id != r2 && first.riddles[1].id == r2;
    assert RiddleIndexOf(first) == 1;
    assert roster[0] != b && roster[1] == b;
    assert IndexOfUser(roster, b) == 1;
    RoomStepLogsTurn(first, roster, Some(Skipped));
    RoomStepRotatesUsers(first, roster, Some(Skipped));
    RoomStepCompletes(first, roster, Some(Skipped));
    ModUnique(2, 1, 0, 2);
    var second := RoomStep(first, roster, Some(Skipped));
    assert [PlayEntry(r1, true, a, 0, Correct)] + [PlayEntry(r2, true, b, 1, Skipped)]
        == [PlayEntry(r1, true, a, 0, Correct), PlayEntry(r2, true, b, 1, Skipped)];
    assert second.currentRiddle == None;
    assert second.currentUser == Some(a);
  }
}
