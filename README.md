# RiddleRush core, modelled in Dafny

RiddleRush is a riddle game. It has a Convex backend (TypeScript mutations
and queries over a document store) and a React client. This project models
the core of both in Dafny and proves properties about the model.

**Backend**
- Solo sessions: a player walks through a list of riddles.
- Group sessions: riddles and turns rotate round a room's roster, and every
  turn is logged.
- Rooms: room codes, join requests and the host's answer to them, leaving a
  room and being removed, ready flags.
- Users and categories.
- Voice presence.
- The WebRTC signalling mailbox.
- The notification inbox.

**Client utilities**
- The ranking table shown at the end of a game.
- The lobby's room filters and sorts.
- Relative ages ("3min ago").
- Screen breakpoints.
- `capitalize`.

**How the backend is represented**
- The database is `Store.Db`, a class with one `map<Id, Record>` field per
  table.
- Ids come from one counter, `nextId`. A query therefore returns its rows in
  ascending id order, which is insertion order.
- Every mutation is a method with field frames (`modifies db`rooms, ...`).
  Its `ensures` states the whole new state of every table it may write.
- Where the source computes with expressions, the method delegates to a
  specification function, and lemmas state the properties of that function.
- Loops of the source stay loops with invariants:
  - the scan for the next riddle not done;
  - the `do … while` that draws room codes;
  - `makeCode` and `generateRoomCode`;
  - `levenshtein` (over arrays);
  - `shuffle` and `cleanupOldSignals`;
  - the two aggregation loops and the ranking loop of `buildRankingTable`.

**Inputs that become parameters**
- The authenticated user (`getAuthUser`) is a `caller` parameter.
- `Date.now()` is a `now` parameter.
- Random draws are parameters: `Math.random()` values as reals in [0, 1), and
  random bytes as byte sequences.

## Model

| member | source | states |
|---|---|---|
| Pointers.PointersAt | convex/utils/fns.ts:52-68 | a missing or out-of-range index gives no pointers; otherwise current is the element at the index, previous exists iff the index is positive and is the element before, next exists iff it is not last and is the element after |
| Pointers.ComputePointersFromIndex | convex/utils/fns.ts:52-68 | equals `PointersAt` over the riddle ids |
| Pointers.ComputeUserPointersFromIndex | convex/utils/fns.ts:153-168 | equals `PointersAt` over the user ids |
| Pointers.ComputeRiddlePointersFromIndex | convex/utils/fns.ts:170-186 | equals `PointersAt` over the riddle ids |
| Pointers.VariantsAgree | convex/utils/fns.ts:52-68 | the three pointer helpers compute the same pointers for the same ids |
| Pointers.DoneFlagsIrrelevant | convex/utils/fns.ts:52-68 | the pointers depend only on the ids, not on the `done` flags |
| Pointers.SafeCharsAreSafe | convex/utils/fns.ts:103 | the alphabet has 31 characters and none of them is 0, O, 1, I or L |
| Pointers.CodeOf | convex/utils/fns.ts:141-151 | the code has one character per random byte, each from the safe alphabet and never a confusable one |
| Pointers.MakeCode | convex/utils/fns.ts:141-151 | the loop outputs `length` characters; character i is `SAFE_CHARS[bytes[i] % 31]`; the output equals `CodeOf(bytes)` |
| Pointers.ExistingCodes | convex/utils/fns.ts:73-79 | there is no set exactly when `existing` is absent; a given set is passed through unchanged; an array becomes the set of its elements |
| Pointers.GenerateRoomCode | convex/utils/fns.ts:70-94 | succeeds iff some attempt within `maxAttempts` draws a code that is not taken; it returns the first such code, prefixed and of length `|prefix| + length`; otherwise it fails with the exhaustion message |
| RiddleList.AllUndone | convex/playtime.ts:15 | keeps the ids in order, every riddle not done |
| RiddleList.FindIndexById | convex/playtime.ts:66-73 | -1 iff no riddle has the id; otherwise the first index holding it |
| RiddleList.FindFirstUndone | convex/playtime.ts:75-81 | -1 iff every riddle is done; otherwise the first index not done |
| RiddleList.NextUndoneFrom | convex/playtime.ts:107-115 | the first index at or after `from` that is not done, or the length; everything skipped is done |
| RiddleList.ScanNextUndone | convex/playtime.ts:107-115 | the `while` loop returns `NextUndoneFrom(rs, from)` |
| RiddleList.MarkDone | convex/playtime.ts:86-91 | the copy has entry i marked done with the same id; every other entry and every id are unchanged |
| RiddleList.DoneCountMarkDone | convex/playtime.ts:86-91 | marking a riddle done raises the done count by one exactly when it was not done |
| RiddleList.FindIndexOfDistinct | convex/playtime.ts:66-73 | with distinct ids, looking an entry's id up gives back its index |
| RiddleList.NextUndoneFromUnique | convex/playtime.ts:107-115 | the scan result is the only index satisfying the scan's stopping condition |
| SoloPlaytime.NewPlaytime | convex/playtime.ts:14-35 | the new session has the given riddles in order, none done; current is the first riddle and next the second; there is no previous; it is playing; all buckets are empty |
| SoloPlaytime.SavePlaytime | convex/playtime.ts:6-37 | inserts exactly `NewPlaytime` under a fresh id |
| SoloPlaytime.ResolveIndex | convex/playtime.ts:66-81 | the index of `current` when it is found, else the first riddle not done, else -1 |
| SoloPlaytime.BucketOf | convex/playtime.ts:99-105 | correct and incorrect keep their own bucket; anything else is filed as skipped |
| SoloPlaytime.AdvanceRow | convex/playtime.ts:66-130 | the computation of the advance, with its scan loop, yields `Advance(p, result)` |
| SoloPlaytime.AdvancePlaytime | convex/playtime.ts:51-134 | a missing row fails with "Playtime not found" and writes nothing; otherwise the row becomes `Advance` of itself |
| SoloPlaytime.AdvanceResolved | convex/playtime.ts:83-130 | when a riddle resolves, the advance marks it, scans from the next index and moves the pointers there |
| SoloPlaytime.AdvanceWhenNothingLeft | convex/playtime.ts:76-80 | with no current riddle and every riddle done, the advance only sets `playing` to false |
| SoloPlaytime.AdvanceMarksOne | convex/playtime.ts:86-91 | the advance marks exactly the resolved riddle done and keeps the ids and every other entry |
| SoloPlaytime.AdvanceFilesOnce | convex/playtime.ts:93-105 | the resolved riddle's id is appended to its outcome's bucket; the other buckets are unchanged; the bucket total grows by one |
| SoloPlaytime.AdvanceMovesForward | convex/playtime.ts:107-130 | the new current riddle is the first not-done riddle after the resolved one, with its neighbours as previous and next; `playing` is false exactly when none is left |
| SoloPlaytime.AdvanceConserves | convex/playtime.ts:86-105 | answering a riddle not yet done raises both the bucket total and the done count by one, so the two stay equal |
| SoloPlaytime.SessionStart | convex/playtime.ts:14-35 | a freshly saved session is the reference session after no answers |
| SoloPlaytime.SessionStep | convex/playtime.ts:51-134 | one more in-order answer takes the reference session after `rs` to the one after `rs + [o]` |
| SoloPlaytime.SessionRun | convex/playtime.ts:51-134 | answering from a fresh session gives exactly the reference session (induction) |
| SoloPlaytime.SessionEnds | src/pages/Alone/playtime.tsx:34-55 | after n in-order answers the client shows the session finished iff n equals the riddle count; `playing` iff fewer; the buckets list their riddles in array order; bucket total equals done count |
| SoloPlaytime.FiledTotal | convex/playtime.ts:93-105 | every answer lands in exactly one of the three buckets |
| RoomPlaytimeEngine.FreshRoomPlaytime | convex/utils/playtimeHelpers.ts:10-34 | riddles in the given order, none done; riddle pointer at the first; no log and no user pointers; the given `playing`, not completed |
| RoomPlaytimeEngine.CreateRoomPlaytime | convex/roomPlaytime.ts:9-50 | inserts a fresh playing session under a fresh id |
| RoomPlaytimeEngine.InitializeRoomPlaytime | convex/utils/playtimeHelpers.ts:5-37 | inserts a fresh session that is not playing, under a fresh id |
| RoomPlaytimeEngine.StartOrder | convex/roomPlaytime.ts:73-75 | the roster sorted by join index (missing as 0), a permutation of the rows |
| RoomPlaytimeEngine.ChooseStartUser | convex/roomPlaytime.ts:77-84 | the room's `startUser` when it is in the roster, otherwise the member at `floor(random * n)`; always a member |
| RoomPlaytimeEngine.StartPointersNeighbours | convex/roomPlaytime.ts:86-100 | the start user is current; its neighbours in the sorted roster are previous and next, without wrapping |
| RoomPlaytimeEngine.OnStartGame | convex/roomPlaytime.ts:52-108 | the three errors in source order, with nothing written; success iff the room, its session and at least one player exist; then the session plays with the start pointers, and the reply returns them |
| RoomPlaytimeEngine.RosterOrdersDiffer | convex/roomPlaytime.ts:73-75 | the start roster (join order) and the advance roster (storage order) can differ |
| RoomPlaytimeEngine.ResolveUserIndex | convex/roomPlaytime.ts:142-150 | the current user's roster index, or 0 when the current user is unset or absent |
| RoomPlaytimeEngine.AdvanceRoomRow | convex/roomPlaytime.ts:142-212 | the computation of the advance, with its scan loop, yields `RoomStep` |
| RoomPlaytimeEngine.AdvanceRoomPlaytime | convex/roomPlaytime.ts:120-240 | a missing session is an error; a session that is not playing returns `ok: false`; an empty roster is an error (all three write nothing); the reply is `Advanced` iff the session exists, is playing and its room has players, and then the row becomes `RoomStep` over the raw roster and the reply carries its pointers |
| RoomPlaytimeEngine.ParseResultAsWritten | convex/roomPlaytime.ts:110-119 | absent gives none; "correct", "incorrect" and "skipped" are accepted; anything else, including "timedOut", is refused |
| RoomPlaytimeEngine.ParseResult | convex/roomPlaytime.ts:110-119 | the same validator with "timedOut" accepted |
| RoomPlaytimeEngine.AsWrittenRefusesTimedOut | src/pages/Room/playtime.tsx:171-178 | the client's "timedOut" is refused as written and accepted after the correction |
| RoomPlaytimeEngine.ParseResultExtends | convex/roomPlaytime.ts:110-119 | the correction changes only the answer for "timedOut" |
| RoomPlaytimeEngine.OutcomeNameInjective | convex/roomPlaytime.ts:166 | distinct outcomes are logged under distinct names |
| RoomPlaytimeEngine.AdvanceRoomPlaytimeCallAsWritten | convex/roomPlaytime.ts:110-240 | the call as the program makes it: an argument the validator as written refuses, "timedOut" among them, is the validation error and writes nothing; after an accepted argument the missing, not-playing and empty-roster outcomes are those of `AdvanceRoomPlaytime`, and the reply is `Advanced` iff the argument is accepted and the session exists, is playing and has players, the row then being `RoomStep` of the parsed outcome |
| RoomPlaytimeEngine.AdvanceRoomPlaytimeCall | convex/roomPlaytime.ts:110-240 | the corrected call (see Findings): the validator admits "timedOut"; a refused argument is the validation error and writes nothing; after an accepted argument the missing, not-playing and empty-roster outcomes are those of `AdvanceRoomPlaytime`, and the reply is `Advanced` iff the session exists, is playing and has players, the row then being `RoomStep` of the parsed outcome; in particular "timedOut" on a playing session with players advances it with outcome `TimedOut` |
| RoomPlaytimeEngine.RoomStepLogsTurn | convex/roomPlaytime.ts:159-169 | an entry is appended iff there is a current riddle; it holds that riddle, the resolved player, the old log length as its turn, and the result (skipped when absent) |
| RoomPlaytimeEngine.TimedOutTurnLogged | convex/roomPlaytime.ts:159-169 | a timed-out turn with a current riddle appends one entry, for that riddle, whose result is `TimedOut` |
| RoomPlaytimeEngine.RoomStepKeepsLog | convex/roomPlaytime.ts:159-169 | the log only grows at its end, by at most one; turn indices stay equal to positions |
| RoomPlaytimeEngine.RoomStepRotatesUsers | convex/roomPlaytime.ts:142-150 | the resolved player becomes previous; the next two roster positions modulo n become current and next |
| RoomPlaytimeEngine.RoomStepMarksRiddle | convex/roomPlaytime.ts:171-178 | only the current riddle's flag is set; ids keep their order; previous is the old current |
| RoomPlaytimeEngine.RoomStepMovesRiddle | convex/roomPlaytime.ts:182-212 | the new current riddle is the first not-done riddle after the old one, with its successor as next; there is none when the scan runs off the end |
| RoomPlaytimeEngine.RoomStepCompletes | convex/roomPlaytime.ts:214-238 | the session ends iff no later riddle is left; then it stops playing, is completed and loses its pointers; otherwise both flags are kept |
| RoomPlaytimeEngine.StepAllTurns | convex/roomPlaytime.ts:142-150 | after k advances the turn depends only on the roster, the start turn and k (induction) |
| RoomPlaytimeEngine.TurnsCycle | convex/roomPlaytime.ts:142-150 | with distinct players, k turns after player i it is player (i + k) mod n's turn |
| RoomPlaytimeEngine.TurnsFullCircle | convex/roomPlaytime.ts:142-150 | after n turns the turn is back with the same player |
| RoomPlaytimeEngine.TwoPlayerFirstTurn | convex/roomPlaytime.ts:110-240 | a two-riddle, two-player game: the first advance logs riddle 1 for A as turn 0 and hands riddle 2 to B |
| RoomPlaytimeEngine.TwoPlayerSecondTurn | convex/roomPlaytime.ts:110-240 | the second advance logs riddle 2 for B as turn 1, completes the session and returns the turn to A |
| Rooms.CreateRoom | convex/rooms.ts:8-56 | inserts the room with the first drawn code the host does not already use (every earlier draw collided), not playing; then inserts the host as a ready player with join index 0 |
| Rooms.FreeCode | convex/rooms.ts:28-36 | the `do … while` stops at the first pass whose code the host does not use; every earlier pass collided |
| Rooms.CodeHolder | convex/rooms.ts:30-35 | finds a room iff the host already has one with that code |
| Rooms.DrawCode | convex/rooms.ts:29 | the call yields the prefixed code of that pass, of length prefix + 7 |
| Rooms.CheckJoinRequest | convex/rooms.ts:220-296 | the six guards, each with its message in source order (notification missing, not a request, no request id, request missing, room missing, caller not the host); success iff all hold, and it returns the request id |
| Rooms.AcceptRoomRequest | convex/rooms.ts:212-299 | on a failed guard, nothing is written. On success: the request is accepted; the requester is inserted as a player who is not ready, with join index equal to the room's player count; `startUser` is the draw among the players plus the requester; an "accepted" notice is sent; the request notification is read |
| Rooms.StartUserIsMember | convex/rooms.ts:260-275 | the chosen start user is the requester or already a player |
| Rooms.JoinIndexIsRoomSize | convex/rooms.ts:244-249 | the join index equals the number of the room's player rows |
| Rooms.InsertGrowsRoom | convex/rooms.ts:251-258 | the insert raises the room's player count by one |
| Rooms.RejectRoomRequest | convex/rooms.ts:301-348 | the same guards, and nothing is written on failure. On success the request is deleted, a "reject" notice is sent, the request notification is read, and the rejected user is returned |
| Rooms.QuitRoom | convex/rooms.ts:487-530 | a missing room is an error and nothing is written; otherwise every request and player row of the caller in the room is deleted and the host is notified |
| Rooms.NoMemberAfterDelete | convex/rooms.ts:487-581 | after the deletes the user is no member, and every other member stays |
| Rooms.RemoveUserFromRoom | convex/rooms.ts:532-581 | host only: errors in source order, with nothing written. On success the user's accepted requests are marked removed, the user's player rows are deleted, and the user is notified |
| Rooms.PlayerRow | convex/rooms.ts:607-613 | a row is found iff the user is a member, and it is the user's row in the room |
| Rooms.ToggleReady | convex/rooms.ts:602-632 | a non-member is refused and nothing is written; otherwise the ready flag of the caller's row is negated and the new value returned |
| Rooms.ToggleFindsSameRow | convex/rooms.ts:607-613 | after a toggle the lookup finds the same row |
| Rooms.ToggleTwice | convex/rooms.ts:602-632 | two toggles restore the table |
| Rooms.UpdateRoomPlaytimeId | convex/rooms.ts:195-210 | the session must exist and belong to the room, and patching a missing room fails; on success only the room's `playtimeId` changes |
| Users.CreateUserByUsername | convex/users.ts:62-77 | the stored name is lower-cased and trimmed. An existing holder's id is returned with nothing written; otherwise one user is inserted. On success the id is the only holder of the name, so the call is idempotent; duplicates are a `.unique()` error |
| Users.CreateClerkUser | convex/users.ts:79-104 | a known identity-provider id returns nothing and writes nothing; otherwise the full user is inserted; afterwards the id is known |
| Users.SetPlayerReady | convex/users.ts:106-136 | a non-member is refused with nothing written; otherwise the first row's flag is set, and the snapshot lists every player of the room, including this user with the new flag |
| Users.ReadyFlags | convex/users.ts:126-133 | the snapshot lists the room's rows as (user, ready) pairs, each pair as often as rows of the room carry it, and nothing else |
| Users.MyRooms | convex/users.ts:138-153 | a permutation of the caller's rooms (each room as often as rows hold it), newest first |
| Users.RoomWithCode | convex/users.ts:159-163 | finds a room iff some room has the code, and that room carries it |
| Users.CheckRequest | convex/users.ts:159-180 | the three refusals with their messages in source order; success iff none applies, and it names the room |
| Users.RequestRoomAsWritten | convex/users.ts:155-198 | after the refusals, which write nothing, it inserts a pending request and a "request" notice to the host without the request's id |
| Users.UnlinkedRequestRefused | convex/rooms.ts:229-297 | a request notice without a request id is refused by the accept and reject guard, whoever answers it |
| Users.RequestRoom | convex/users.ts:155-198 | the same, but the notice records the request id, and the host's accept and reject guard then passes with that request |
| Users.RequestRow | convex/users.ts:165-176 | finds a request iff the user has already requested the room |
| Users.FileRequest | convex/users.ts:182-194 | the two inserts; when the notice is linked and addressed to the room's host, the guard returns the new request |
| Users.FiledRequestAnswerable | convex/rooms.ts:220-239 | the request and notice filed by `requestRoom` pass the guard for the host |
| Users.LinkedRequestAccepted | convex/rooms.ts:220-239 | a linked notice for an existing request and room passes the guard exactly for that room's host |
| Categories.SaveCategory | convex/category.ts:4-19 | the name is lower-cased and trimmed. An existing category's id is returned with nothing written; otherwise one category is inserted. On success the id is the only category with that name, so the call is idempotent |
| Presences.PresenceRow | convex/presence.ts:16-20 | none iff the user has no row in the room; one row means it is the only one |
| Presences.Updated | convex/presence.ts:22-33 | the patch stamps `lastSeen` and overwrites exactly the supplied fields |
| Presences.Fresh | convex/presence.ts:35-43 | the insert uses the supplied values or the defaults: online, silent, microphone off, speaker on |
| Presences.UpdatePresence | convex/presence.ts:5-46 | duplicates are an error; an existing row is patched, otherwise one is inserted. Afterwards the caller has exactly one row in the room |
| Presences.DisplayName | convex/presence.ts:60-67 | user name, else email, else "Unknown"; never empty |
| Presences.GetRoomPresence | convex/presence.ts:48-76 | the room's online rows whose user exists, each joined with its user; each view is listed as often as such rows give it, and nothing else |
| Presences.ToggleMicrophone | convex/presence.ts:78-102 | no row returns false and writes nothing; otherwise the microphone is flipped, speaking is cleared, and the new value is returned |
| Presences.MicToggled | convex/presence.ts:91-96 | the patch flips the microphone, clears speaking, stamps `lastSeen` and keeps every other field |
| Presences.MicToggleTwice | convex/presence.ts:78-102 | two toggles restore the microphone setting |
| Presences.ToggleSpeaker | convex/presence.ts:104-127 | no row returns true and writes nothing; otherwise the speaker is flipped and the new value returned |
| Presences.SpeakerToggled | convex/presence.ts:117-121 | the patch flips the speaker, stamps `lastSeen` and keeps every other field |
| Presences.SpeakerToggleTwice | convex/presence.ts:104-127 | two toggles restore the speaker setting |
| Signals.ParseSignalType | convex/signal.ts:9-18 | exactly "offer", "answer" and "ice" are accepted |
| Signals.ParseTypeName | convex/signal.ts:9-18 | every signal type's name parses back to it |
| Signals.SendSignal | convex/signal.ts:4-55 | a type outside "offer", "answer" and "ice" is the argument-validation error; then an absent sender, then an absent recipient is refused; nothing is written on any refusal; otherwise the signal is stored, stamped `now` |
| Signals.ListForUser | convex/signal.ts:60-87 | a permutation of the signals to the user in the room, not before `since` and within the 60 s TTL (each as often as rows hold it), ascending by creation time |
| Signals.Swept | convex/signal.ts:113-129 | the rows kept are exactly those created at or after `now - TTL` |
| Signals.SweepKeepsListing | convex/signal.ts:60-129 | a sweep at `now` changes no listing taken at the same `now` |
| Signals.DeleteSignal | convex/signal.ts:89-97 | removes the row; a missing row is an error |
| Signals.DeleteExpired | convex/signal.ts:119-128 | the delete loop leaves exactly the swept table and counts the rows it removed |
| Signals.CleanupOldSignals | convex/signal.ts:113-129 | deletes exactly the stale rows, leaves the swept table and returns how many it deleted |
| Signals.ListPresenceInRoom | convex/signal.ts:99-111 | the room's presence rows, each as often as rows hold it, and nothing else |
| Notifications.GetMyUnreadNotifications | convex/notification.ts:5-18 | the caller's unread notifications, each exactly once, newest first |
| Notifications.Detail | convex/notification.ts:33-43 | the sender's name and image, and the room's name and code, each absent when the document is missing |
| Notifications.NotificationsAndDetails | convex/notification.ts:20-49 | each entry is the join of its notification |
| Notifications.DetailsCoverUnread | convex/notification.ts:5-49 | both inbox queries list the same notifications |
| Notifications.ReadNotification | convex/notification.ts:51-57 | a missing id is an error with nothing written; otherwise only that notification becomes read |
| Notifications.ReadIdempotent | convex/notification.ts:51-57 | reading twice equals reading once |
| Notifications.ReadLeavesInbox | convex/notification.ts:5-57 | a read notification leaves both inbox queries, and every other unread one stays |
| RiddleFns.StripPunctuation | convex/utils/riddleFns.ts:10 | no stripped character remains; every other character stays |
| RiddleFns.DropArticle | convex/utils/riddleFns.ts:11 | the result is a suffix of the input |
| RiddleFns.CollapseWhitespace | convex/utils/riddleFns.ts:12 | no two white-space characters are adjacent; only spaces are introduced |
| RiddleFns.NormalizeText | convex/utils/riddleFns.ts:6-14 | empty stays empty; the output has no capital and no stripped punctuation, and no two adjacent white-space characters |
| RiddleFns.TrimmedLowerHasNoUpper | convex/utils/riddleFns.ts:9 | lower-casing then trimming leaves no capital |
| RiddleFns.LevCell | convex/utils/riddleFns.ts:28-34 | each table cell is the minimum of deletion, insertion and substitution |
| RiddleFns.Levenshtein | convex/utils/riddleFns.ts:16-39 | the two-row loop returns the edit distance |
| RiddleFns.NextRow | convex/utils/riddleFns.ts:26-36 | the inner loop fills row i of the table from row i - 1 |
| RiddleFns.LevSymmetric | convex/utils/riddleFns.ts:16-39 | the distance is symmetric |
| RiddleFns.LevAtMostLonger | convex/utils/riddleFns.ts:41-47 | the distance is at most the longer length |
| RiddleFns.LevZeroIffEqual | convex/utils/riddleFns.ts:16-39 | the distance is zero iff the strings are equal |
| RiddleFns.Similarity | convex/utils/riddleFns.ts:41-48 | 1 for two empty strings, 0 when exactly one is empty, always in [0, 1], and 1 iff the strings are equal |
| RiddleFns.RatioFacts | convex/utils/riddleFns.ts:45-47 | `1 - distance / longer` lies in [0, 1] and is 1 iff the distance is 0 |
| RiddleFns.IsAnswerCorrect | convex/utils/riddleFns.ts:55-77 | an exact normalised match is accepted; with `exactOnly` only such a match is; no accepted answers means refused |
| RiddleFns.Shuffle | convex/utils/riddleFns.ts:83-92 | the loop returns a permutation of the input |
| RiddleFns.MakeTypo | convex/utils/riddleFns.ts:94-107 | empty is unchanged; one character gets "x"; otherwise the length is kept and two neighbours are swapped; when the second draw exceeds 0.6 the swapped string then has one position overwritten with a lower-case letter |
| RiddleFns.SwapKeepsLetters | convex/utils/riddleFns.ts:98-101 | the swap keeps the multiset of characters |
| RiddleFns.MorphologicalVariant | convex/utils/riddleFns.ts:109-115 | a non-empty word always changes, and its length changes by -1 to +2 |
| RiddleFns.VariantOfShortWordRoundTrips | convex/utils/riddleFns.ts:111-112 | for a short word not ending in "s", the variant adds "s" and the variant of that removes it |
| Ranking.DisplayName | src/utils/ranking.tsx:73-75 | the shown name is never empty |
| Ranking.TallyPartition | src/utils/ranking.tsx:120-133 | each play falls in exactly one of the four counts |
| Ranking.BuildRows | src/utils/ranking.tsx:69-158 | one row per player key, plus one per other player of a play when `includeNonPlayers`; each row's counts are the tallies of the plays and its total their sum; the name and avatar come from the last player with the key |
| Ranking.SeedPlayers | src/utils/ranking.tsx:72-90 | one zero row per player key, in `Map` insertion order |
| Ranking.CountPlays | src/utils/ranking.tsx:114-143 | the plays loop keeps every row tallied; plays of users without a row add a row only when allowed |
| Ranking.ProfileOfPlayer | src/utils/ranking.tsx:72-90 | a repeated key shows the last player's name and avatar |
| Ranking.ProfileOfGuest | src/utils/ranking.tsx:93-112 | a user who is not a player shows its decimal id and no avatar |
| Ranking.RowOrderIsPreorder | src/utils/ranking.tsx:160-180 | every comparator of the table is total and transitive |
| Ranking.DefaultOrder | src/utils/ranking.tsx:164-171 | the default order is: more correct answers first, then fewer incorrect, then a larger total, then by name |
| Ranking.AsWrittenPutsMoreIncorrectFirst | src/utils/ranking.tsx:168 | as written, of two rows with equal correct answers the one with more incorrect answers sorts first |
| Ranking.CorrectedPutsFewerIncorrectFirst | src/utils/ranking.tsx:168 | with the intended tie-break the same rows come out with fewer incorrect answers first |
| Ranking.RankAt | src/utils/ranking.tsx:184-210 | a rank lies between 1 and the row's position |
| Ranking.RanksNonDecreasing | src/utils/ranking.tsx:184-210 | ranks never decrease down the table |
| Ranking.RankIsRunStart | src/utils/ranking.tsx:184-210 | "1224": a row's rank is the position of the first row of its run of equal scores |
| Ranking.AssignRanks | src/utils/ranking.tsx:185-210 | the loop writes `RankAt` into every row and changes nothing else |
| Ranking.BuildRankingTable | src/utils/ranking.tsx:54-210 | the rows of `BuildRows`, sorted by the chosen comparator (defaults "corrects", "desc"), with competition ranks |
| RoomFilters.NormalizeTimestampMs | src/utils/filtersAndSorts.ts:19-22 | a missing time is 0; seconds are scaled to milliseconds |
| RoomFilters.FilterRooms | src/utils/filtersAndSorts.ts:29-44 | no list gives none; "all" returns the list; "playing" keeps rooms whose session plays; "not_playing" keeps rooms with a session that is not playing |
| RoomFilters.FilterModesPartition | src/utils/filtersAndSorts.ts:37-40 | "playing" and "not_playing" split the rooms that have a session, each copy exactly once; a room without a session is in neither |
| RoomFilters.KeepAppend | src/utils/filtersAndSorts.ts:37-40 | filtering a concatenation filters each part |
| RoomFilters.CompareIsKeyOrder | src/utils/filtersAndSorts.ts:55-60 | the comparator orders by the (negated for "desc") normalised time |
| RoomFilters.SortByCreationTime | src/utils/filtersAndSorts.ts:50-61 | a permutation; newest first for "desc", oldest first for "asc" |
| RoomFilters.FilterAndSortRooms | src/utils/filtersAndSorts.ts:64-71 | a sorted permutation of the filtered rooms |
| TimeAgo.ToMillis | src/utils/dateTimeHelper.ts:22-25 | a timestamp below 10^12 is scaled from seconds |
| TimeAgo.SecondsAndMillisAgree | src/utils/dateTimeHelper.ts:22-25 | a seconds timestamp and the same instant in milliseconds give the same time |
| TimeAgo.RoundDiv | src/utils/dateTimeHelper.ts:39 | `Math.round(n / d)`: the nearest integer, with a half rounded up |
| TimeAgo.SpanOf | src/utils/dateTimeHelper.ts:42-58 | "just now" iff under 45 s; otherwise the one unit whose range holds the difference, with a rounded count of at least 1 |
| TimeAgo.UnitRangesDisjoint | src/utils/dateTimeHelper.ts:42-58 | the unit ranges do not overlap |
| TimeAgo.TimeAgo | src/utils/dateTimeHelper.ts:15-67 | "just now", or "in " + span for a future time when `allowFuture`, or span + " ago" unless `short` |
| TimeAgo.NearIsJustNow | src/utils/dateTimeHelper.ts:42-43 | within 45 s either way the answer is "just now", whatever the options |
| TimeAgo.DocumentedExamples | src/utils/dateTimeHelper.ts:69-90 | the documented millisecond examples ("3min ago", "1hr ago", "1day ago", "2min ago", "3min") |
| TimeAgo.SecondsExample | src/utils/dateTimeHelper.ts:69-90 | the documented seconds example reads "1min ago" |
| ScreenSize.GetDeviceType | src/hooks/useScreenSize.ts:21-26 | each device class holds exactly on its width range |
| ScreenSize.GetSize | src/hooks/useScreenSize.ts:29-49 | carries the width and height and the device class of the width |
| ScreenSize.OneDeviceFlag | src/hooks/useScreenSize.ts:39-42 | exactly one device flag is set, and it matches `device` |
| ScreenSize.BreakpointsNested | src/hooks/useScreenSize.ts:44-48 | each wider breakpoint flag implies the narrower ones |
| ScreenSize.DeviceMonotone | src/hooks/useScreenSize.ts:21-26 | a wider window never gets a smaller device class |
| ClientFns.Capitalize | src/utils/fns.ts:1-4 | the length is kept and only the first character can change. A leading lower-case letter becomes its capital; anything else is unchanged |
| ClientFns.CapitalizeIdempotent | src/utils/fns.ts:1-4 | capitalising twice is capitalising once |
| Text.LowerTrim | convex/users.ts:65 | the stored form has no capital and no white space at either end, and is no longer than the input |
| Text.LowerTrimIdempotent | convex/category.ts:7 | normalising a stored name again changes nothing |

## Left out

**Outside the model**
- Authentication: `getAuthUser` is replaced by a caller id. Its failure paths ("Unauthenticated", user not found) are not modelled.
- Error texts that come from Convex rather than the source are stand-ins, written as constants:
  - the error `.unique()` raises when several rows match;
  - the error for a patch or delete of a missing document;
  - the argument-validation error.
- Index order: every index lookup returns rows in insertion order. Convex orders a secondary index by its fields first; the model uses the same order for `.first()` on `by_user_code` and `by_user`.
- Time is whole milliseconds, and `similarity` and `RatioFacts` use exact reals. The ranking `accuracy` column (a float rounded with `toFixed(2)`) is not modelled.
- Text is handled as follows:
  - only ASCII letters have case;
  - `stripDiacritics` (NFD plus deleting combining marks) is taken as the identity;
  - `localeCompare` is replaced by character order (`Text.StrCompare`);
  - a `char` is a Unicode scalar value, not a UTF-16 code unit: for characters outside the Basic Multilingual Plane (which JavaScript stores as surrogate pairs) lengths and order differ from JavaScript's;
  - `Number(...)` in `isAnswerCorrect` is a parameter `numericEqual`.
- Not modelled at all:
  - `hashString`;
  - the fallbacks of `getRandomBytes` (random bytes are an input);
  - the Datamuse fetch and `generateDistractors`;
  - `randomChoice`;
  - React state, WebRTC and every UI component.
- Read-only queries that only fetch one document or a joined view are not modelled: `getRoomById`, `getRoom`, `roomSetting`, `getRoomPlayers`, `getPublicRooms`, `isRoomMember`, `getPlaytimeById`, `getPlaytimeRiddlesDetails` and the `users.ts` getters. So are `createRoomSettings` and `getAuthUser` itself.

**Weaker or narrower contracts**
- Rooms.CreateRoom: the model takes a finite list of random draws and requires the last one to give a free code. The source's loop is unbounded and ends only with probability 1.
- Rooms.ToggleReady: the source's two further checks cannot fail, so they are omitted. One compares the found row's user with the caller; the other compares the flag with `undefined`.
- Rooms.RejectRoomRequest: the host check reuses the accept message ("Only host can accept join requests"), as the source does.
- RoomPlaytimeEngine.AdvanceRoomPlaytimeCall: the corrected call, with "timedOut" admitted by the validator; the call as written is `RoomPlaytimeEngine.AdvanceRoomPlaytimeCallAsWritten`.
- SoloPlaytime.AdvancePlaytime: the argument validator (`convex/playtime.ts:54-58`) is not modelled. An outcome outside correct, incorrect and skipped takes the source's `else` branch and is filed as skipped.
- RoomFilters.FilterRooms: follows the code for "not_playing" (`playing !== true`, so a session with no flag counts). The doc comment says `=== false`.
- RoomFilters.SortByCreationTime: the result is proved sorted and a permutation. That equal times keep their input order is not stated.
- RoomFilters.SortByCreationTime, RoomFilters.FilterAndSortRooms and TimeAgo.TimeAgo: the source's default arguments (`order = "desc"` at `src/utils/filtersAndSorts.ts:52,67`; `short = false` and `allowFuture = true` at `src/utils/dateTimeHelper.ts:19`) are not modelled; every parameter is mandatory and supplying the default is the caller's job.
- Ranking.BuildRankingTable: the sort is proved for the corrected comparator; the as-written comparator is covered under Findings. The AntD column definitions are not modelled.
- RiddleFns.IsAnswerCorrect: the fuzzy and numeric paths are stated only as "may accept". The guarantees are the exact match, `exactOnly`, and an empty answer list.
- RiddleFns.Shuffle: proved to be a permutation. The uniformity of Fisher-Yates is a property of the random source and is not stated.
- The room page calls `api.roomPlaytime.advancePlaytime` (`src/pages/Room/playtime.tsx:106`), which `convex/roomPlaytime.ts` does not export (it exports `advanceRoomPlaytime`). The model takes the call to mean `advanceRoomPlaytime`.

## Findings

| source | as written | input that shows it | evidently intended | confidence | as-written member | corrected member |
|---|---|---|---|---|---|---|
| src/utils/ranking.tsx:168 | the "corrects" tie-break `(a.incorrect - b.incorrect) * -1` sorts the row with MORE incorrect answers first | two rows with 3 correct each and 1 vs 2 incorrect: the row with 2 incorrect is listed first | fewer incorrect answers first, as the comment on the line says | not executed | Ranking.AsWrittenPutsMoreIncorrectFirst | Ranking.CorrectedPutsFewerIncorrectFirst |
| convex/users.ts:188-194 | `requestRoom` inserts the "request" notification without `roomRequestId`, and `acceptRoomRequest`/`rejectRoomRequest` throw "Notification does not have a roomRequestId" on such a notification | any successful `requestRoom`, then the host accepting the notification it created | the notification records the id of the request it announces, so the host can accept or reject it | not executed | Users.UnlinkedRequestRefused | Users.RequestRoom |
| convex/roomPlaytime.ts:110-119 | the `result` validator accepts only "correct", "incorrect" and "skipped" | the room page's timer sends `result: "timedOut"` (`src/pages/Room/playtime.tsx:171-178`, `251`), which fails validation, so the turn never advances | "timedOut" accepted, as the play log's outcome type and the ranking's `timeout` column expect | not executed | RoomPlaytimeEngine.AsWrittenRefusesTimedOut | RoomPlaytimeEngine.ParseResult |
