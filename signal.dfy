/**
 * The WebRTC signalling mailbox (`convex/signal.ts`): peers in a room post
 * offers, answers and ICE candidates to each other through the
 * `webrtcSignals` table; a recipient polls for recent messages, deletes
 * the ones it has handled, and a sweep drops messages older than the TTL.
 */
module Signals {
  import opened Wrappers
  import opened Store
  import opened Sorting

  /** How long a signal stays visible, in milliseconds. */
  const SIGNAL_TTL_MS: int := 60 * 1000

  /** The wire name of a signal type. */
  function TypeName(t: SignalType): string
  {
    match t
    case Offer => "offer"
    case Answer => "answer"
    case Ice => "ice"
  }

  /** The argument validator and the handler's own check: only the three names are accepted. */
  function ParseSignalType(s: string): (r: Option<SignalType>)
    ensures r.Some? <==> s == "offer" || s == "answer" || s == "ice"
    ensures r.Some? ==> TypeName(r.value) == s
  {
    if s == "offer" then Some(Offer)
    else if s == "answer" then Some(Answer)
    else if s == "ice" then Some(Ice)
    else None
  }

  /** Every signal type's name parses back to it. */
  lemma ParseTypeName(t: SignalType)
    ensures ParseSignalType(TypeName(t)) == Some(t)
  {
    match t
    case Offer =>
    case Answer => assert TypeName(t) != "offer";
    case Ice => assert TypeName(t) != "offer" && TypeName(t) != "answer";
  }

  /** The user has a presence row for the room (whether or not it is online). */
  predicate PresentIn(presence: map<Id, Presence>, userId: Id, roomId: Id)
  {
    exists k :: k in presence && presence[k].userId == userId && presence[k].roomId == roomId
  }

  /** The `by_user` lookup of `sendSignal`: the first presence row of the user in the room. */
  function PresenceRow(presence: map<Id, Presence>, hi: nat, userId: Id, roomId: Id): (r: Option<Id>)
    requires KeysBelow(presence, hi)
    ensures r.Some? <==> PresentIn(presence, userId, roomId)
    ensures r.Some? ==> r.value in presence && presence[r.value].userId == userId && presence[r.value].roomId == roomId
  {
    var r := First(presence, hi, (p: Presence) => p.userId == userId && p.roomId == roomId);
    if r.None? then
      assert !PresentIn(presence, userId, roomId) by {
        forall k | k in presence ensures !(presence[k].userId == userId && presence[k].roomId == roomId) {
          assert !((p: Presence) => p.userId == userId && p.roomId == roomId)(presence[k]);
        }
      }
      r
    else r
  }

  /**
   * `sendSignal`: a type outside the three names is refused by the
   * argument validator before the handler runs (so the handler's own
   * "Invalid signal type" check never fires); then a presence row is
   * required for the sender and the recipient in the room, and the signal
   * is stored stamped with `now`.
   */
  method SendSignal(db: Db, roomId: Id, fromUserId: Id, toUserId: Id, kind: string, payload: string, now: int)
    returns (r: Result<Unit>)
    requires db.Valid()
    modifies db`signals, db`nextId
    ensures db.Valid()
    ensures ParseSignalType(kind).None? ==> r == Err(ARG_INVALID)
    ensures ParseSignalType(kind).Some? && !PresentIn(db.presence, fromUserId, roomId) ==>
              r == Err("Sender not present in room")
    ensures ParseSignalType(kind).Some? && PresentIn(db.presence, fromUserId, roomId)
            && !PresentIn(db.presence, toUserId, roomId) ==>
              r == Err("Recipient not present in room")
    ensures r.Ok? <==>
              ParseSignalType(kind).Some? && PresentIn(db.presence, fromUserId, roomId) && PresentIn(db.presence, toUserId, roomId)
    ensures r.Err? ==> db.signals == old(db.signals) && db.nextId == old(db.nextId)
    ensures r.Ok? ==>
              && db.nextId == old(db.nextId) + 1
              && db.signals == old(db.signals)[old(db.nextId) :=
                   Signal(roomId, fromUserId, toUserId, ParseSignalType(kind).value, payload, now)]
  {
    var t := ParseSignalType(kind);
    if t.None? {
      return Err(ARG_INVALID);
    }
    var fromPres := PresenceRow(db.presence, db.nextId, fromUserId, roomId);
    var toPres := PresenceRow(db.presence, db.nextId, toUserId, roomId);
    if fromPres.None? {
      return Err("Sender not present in room");
    }
    if toPres.None? {
      return Err("Recipient not present in room");
    }
    var id := db.InsertSignal(Signal(roomId, fromUserId, toUserId, t.value, payload, now));
    r := Ok(Unit);
  }

  /** The sort key of `listForUser`. */
  function CreatedAt(s: Signal): int
  {
    s.createdAt
  }

  /** The row filter of `listForUser`: addressed to the user in the room, not before `since`, within the TTL. */
  predicate Listed(s: Signal, roomId: Id, toUserId: Id, since: int, now: int)
  {
    s.toUserId == toUserId && s.roomId == roomId && s.createdAt >= since && now - s.createdAt <= SIGNAL_TTL_MS
  }

  /** `Listed` as the filter function handed to the query. */
  function ListedBy(roomId: Id, toUserId: Id, since: int, now: int): Signal -> bool
  {
    (s: Signal) => Listed(s, roomId, toUserId, since, now)
  }

  /**
   * `listForUser`: the signals addressed to the user in the room, not older
   * than `since` (default 0) nor than the TTL, ascending by creation time
   * (a stable sort of the insertion order). The table is only read.
   */
  function ListForUser(signals: map<Id, Signal>, hi: nat, roomId: Id, toUserId: Id, since: Option<int>, now: int)
    : (r: seq<Signal>)
    requires KeysBelow(signals, hi)
    ensures forall s :: s in r ==>
              s in signals.Values && Listed(s, roomId, toUserId, if since.Some? then since.value else 0, now)
    ensures forall k :: k in signals && Listed(signals[k], roomId, toUserId, if since.Some? then since.value else 0, now)
              ==> signals[k] in r
    ensures SortedBy(r, CreatedAt)
    ensures forall x :: multiset(r)[x] == Copies(signals, ListedBy(roomId, toUserId, if since.Some? then since.value else 0, now), x)
  {
    var cusSince := if since.Some? then since.value else 0;
    var rows := Select(signals, hi, ListedBy(roomId, toUserId, cusSince, now));
    var sorted := SortByKey(rows, CreatedAt);
    assert forall x :: x in rows <==> x in sorted by {
      assert multiset(rows) == multiset(sorted);
      forall x ensures x in rows <==> x in sorted {
        assert x in rows <==> x in multiset(rows);
        assert x in sorted <==> x in multiset(sorted);
      }
    }
    assert forall x :: multiset(sorted)[x] == multiset(rows)[x];
    sorted
  }

  /** The signal is older than the TTL at time `now`. */
  predicate Expired(s: Signal, now: int)
  {
    s.createdAt < now - SIGNAL_TTL_MS
  }

  /**
   * The table after a sweep at `now`: exactly the rows the TTL filter of
   * `listForUser` at the same `now` would still show.
   */
  function Swept(signals: map<Id, Signal>, now: int): (r: map<Id, Signal>)
    ensures forall k :: k in r <==> k in signals && now - signals[k].createdAt <= SIGNAL_TTL_MS
    ensures forall k :: k in r ==> r[k] == signals[k]
  {
    map k | k in signals && !Expired(signals[k], now) :: signals[k]
  }

  /** Sweeping at `now` changes no listing taken at the same `now`. */
  lemma SweepKeepsListing(signals: map<Id, Signal>, hi: nat, roomId: Id, toUserId: Id, since: Option<int>, now: int)
    requires KeysBelow(signals, hi)
    ensures KeysBelow(Swept(signals, now), hi)
    ensures ListForUser(Swept(signals, now), hi, roomId, toUserId, since, now) == ListForUser(signals, hi, roomId, toUserId, since, now)
  {
    var swept := Swept(signals, now);
    var p := ListedBy(roomId, toUserId, if since.Some? then since.value else 0, now);
    QuerySubmap(signals, swept, hi, p);
    var ks := Query(signals, hi, p);
    assert Rows(swept, ks) == Rows(signals, ks);
    assert Select(swept, hi, p) == Select(signals, hi, p);
  }

  /** `deleteSignal`: removes the named row; deleting a missing document fails. */
  method DeleteSignal(db: Db, signalId: Id) returns (r: Result<Unit>)
    requires db.Valid()
    modifies db`signals
    ensures db.Valid()
    ensures signalId !in old(db.signals) ==> r == Err(MISSING_DOCUMENT) && db.signals == old(db.signals)
    ensures signalId in old(db.signals) ==> r == Ok(Unit) && db.signals == old(db.signals) - {signalId}
  {
    if signalId !in db.signals {
      return Err(MISSING_DOCUMENT);
    }
    db.signals := db.signals - {signalId};
    r := Ok(Unit);
  }

  /**
   * `cleanupOldSignals`: collects the ids of the rows created before
   * `now - TTL` and deletes them one by one; returns how many it deleted.
   */
  method CleanupOldSignals(db: Db, now: int) returns (deleted: nat)
    requires db.Valid()
    modifies db`signals
    ensures db.Valid()
    ensures db.signals == Swept(old(db.signals), now)
    ensures deleted == |old(db.signals)| - |db.signals|
  {
    var kept;
    kept, deleted := DeleteExpired(db.signals, db.nextId, now);
    db.signals := kept;
  }

  /** The query and the `for` loop of `cleanupOldSignals`, on the table's rows. */
  method DeleteExpired(signals: map<Id, Signal>, hi: nat, now: int) returns (kept: map<Id, Signal>, deleted: nat)
    requires KeysBelow(signals, hi)
    ensures kept == Swept(signals, now)
    ensures deleted == |signals| - |kept|
  {
    var staleIds := Query(signals, hi, (s: Signal) => Expired(s, now));
    kept := DeleteRows(signals, staleIds);
    KeptIsSwept(signals, staleIds, kept, now);
    deleted := |staleIds|;
  }

  /** Deleting exactly the expired rows leaves the swept table. */
  lemma KeptIsSwept(signals: map<Id, Signal>, staleIds: seq<Id>, kept: map<Id, Signal>, now: int)
    requires forall k :: k in staleIds <==> k in signals && Expired(signals[k], now)
    requires forall k :: k in kept <==> k in signals && k !in staleIds
    requires forall k :: k in kept ==> kept[k] == signals[k]
    ensures kept == Swept(signals, now)
  {
    assert kept.Keys == Swept(signals, now).Keys;
  }

  /** The presence rows of room `roomId`. */
  function AtRoom(roomId: Id): Presence -> bool
  {
    (p: Presence) => p.roomId == roomId
  }

  /** `listPresenceInRoom`: the room's presence rows in insertion order. */
  function ListPresenceInRoom(presence: map<Id, Presence>, hi: nat, roomId: Id): (r: seq<Presence>)
    requires KeysBelow(presence, hi)
    ensures forall p :: p in r ==> p in presence.Values && p.roomId == roomId
    ensures forall k :: k in presence && presence[k].roomId == roomId ==> presence[k] in r
    ensures forall p :: multiset(r)[p] == Copies(presence, AtRoom(roomId), p)
  {
    var r := Select(presence, hi, AtRoom(roomId));
    r
  }
}
