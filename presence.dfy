/**
 * Voice presence (`convex/presence.ts`): one row per user and room saying
 * whether the user is online, speaking, and has microphone and speaker
 * on. The caller's row is looked up with `.unique()`, so two rows for the
 * same user and room make every mutation here fail.
 */
module Presences {
  import opened Wrappers
  import opened Store
  import opened Signals

  /** The `by_room` index lookup narrowed to one user. */
  function PresenceOf(roomId: Id, userId: Id): Presence -> bool
  {
    (p: Presence) => p.roomId == roomId && p.userId == userId
  }

  /** `k` is the user's one and only row in the room. */
  ghost predicate SoleRow(presence: map<Id, Presence>, roomId: Id, userId: Id, k: Id)
  {
    && k in presence && presence[k].roomId == roomId && presence[k].userId == userId
    && forall j :: j in presence && presence[j].roomId == roomId && presence[j].userId == userId ==> j == k
  }

  /** The caller's presence row in the room, as `.unique()` finds it. */
  function PresenceRow(presence: map<Id, Presence>, hi: nat, roomId: Id, userId: Id): (r: Lookup)
    requires KeysBelow(presence, hi)
    ensures r.NoRow? <==> !PresentIn(presence, userId, roomId)
    ensures r.OneRow? ==> SoleRow(presence, roomId, userId, r.id)
  {
    var r := Unique(presence, hi, PresenceOf(roomId, userId));
    if r.NoRow? then
      assert !PresentIn(presence, userId, roomId) by {
        forall k | k in presence ensures !(presence[k].userId == userId && presence[k].roomId == roomId) {
          assert !PresenceOf(roomId, userId)(presence[k]);
        }
      }
      r
    else if r.OneRow? then
      assert SoleRow(presence, roomId, userId, r.id) by {
        assert PresenceOf(roomId, userId)(presence[r.id]);
        forall j | j in presence && presence[j].roomId == roomId && presence[j].userId == userId ensures j == r.id {
          assert PresenceOf(roomId, userId)(presence[j]);
        }
      }
      r
    else
      assert PresentIn(presence, userId, roomId) by {
        var a, b :| a in presence && b in presence && a != b
                    && PresenceOf(roomId, userId)(presence[a]) && PresenceOf(roomId, userId)(presence[b]);
        assert presence[a].userId == userId && presence[a].roomId == roomId;
      }
      r
  }

  /** The optional fields of `updatePresence`; `None` is an argument left out. */
  datatype PresenceArgs = PresenceArgs(
    isOnline: Option<bool>,
    isSpeaking: Option<bool>,
    micEnabled: Option<bool>,
    speakerEnabled: Option<bool>)

  /** The supplied value, or `dflt` when the argument was left out (`??`). */
  function OrElse(o: Option<bool>, dflt: bool): (r: bool)
    ensures o.Some? ==> r == o.value
    ensures o.None? ==> r == dflt
  {
    if o.Some? then o.value else dflt
  }

  /** The row after the patch of `updatePresence`: `lastSeen` and the supplied fields. */
  function Updated(p: Presence, args: PresenceArgs, now: int): (r: Presence)
    ensures r.roomId == p.roomId && r.userId == p.userId && r.lastSeen == now
    ensures r.isOnline == OrElse(args.isOnline, p.isOnline)
    ensures r.isSpeaking == OrElse(args.isSpeaking, p.isSpeaking)
    ensures r.micEnabled == OrElse(args.micEnabled, p.micEnabled)
    ensures r.speakerEnabled == OrElse(args.speakerEnabled, p.speakerEnabled)
  {
    Presence(p.roomId, p.userId, OrElse(args.isOnline, p.isOnline), OrElse(args.isSpeaking, p.isSpeaking),
             OrElse(args.micEnabled, p.micEnabled), OrElse(args.speakerEnabled, p.speakerEnabled), now)
  }

  /** The row `updatePresence` inserts: online, silent, microphone off, speaker on, unless supplied. */
  function Fresh(roomId: Id, userId: Id, args: PresenceArgs, now: int): (r: Presence)
    ensures r.roomId == roomId && r.userId == userId && r.lastSeen == now
    ensures r.isOnline == OrElse(args.isOnline, true)
    ensures r.isSpeaking == OrElse(args.isSpeaking, false)
    ensures r.micEnabled == OrElse(args.micEnabled, false)
    ensures r.speakerEnabled == OrElse(args.speakerEnabled, true)
  {
    Presence(roomId, userId, OrElse(args.isOnline, true), OrElse(args.isSpeaking, false),
             OrElse(args.micEnabled, false), OrElse(args.speakerEnabled, true), now)
  }

  /**
   * `updatePresence`: patches the caller's row in the room with `lastSeen`
   * and the supplied fields, or inserts a row with defaults when there is
   * none. Afterwards the caller has exactly one row there, stamped `now`,
   * carrying every supplied value.
   */
  method UpdatePresence(db: Db, caller: Id, roomId: Id, args: PresenceArgs, now: int) returns (r: Result<Unit>)
    requires db.Valid()
    modifies db`presence, db`nextId
    ensures db.Valid()
    ensures var row := PresenceRow(old(db.presence), old(db.nextId), roomId, caller);
            && (row.ManyRows? ==>
                  r == Err(NOT_UNIQUE) && db.presence == old(db.presence) && db.nextId == old(db.nextId))
            && (row.OneRow? ==>
                  && r == Ok(Unit)
                  && db.presence == old(db.presence)[row.id := Updated(old(db.presence)[row.id], args, now)]
                  && db.nextId == old(db.nextId)
                  && SoleRow(db.presence, roomId, caller, row.id))
            && (row.NoRow? ==>
                  && r == Ok(Unit)
                  && db.presence == old(db.presence)[old(db.nextId) := Fresh(roomId, caller, args, now)]
                  && db.nextId == old(db.nextId) + 1
                  && SoleRow(db.presence, roomId, caller, old(db.nextId)))
  {
    var row := PresenceRow(db.presence, db.nextId, roomId, caller);
    match row
    case ManyRows =>
      r := Err(NOT_UNIQUE);
    case OneRow(k) =>
      var updated := Updated(db.presence[k], args, now);
      SoleRowKept(db.presence, roomId, caller, k, updated);
      db.SetPresence(db.presence[k := updated]);
      r := Ok(Unit);
    case NoRow =>
      var created := Fresh(roomId, caller, args, now);
      SoleRowAdded(db.presence, db.nextId, roomId, caller, created);
      var id := db.InsertPresence(created);
      r := Ok(Unit);
  }

  /** Replacing the user's only row by another row of the same user and room keeps it the only one. */
  lemma SoleRowKept(presence: map<Id, Presence>, roomId: Id, userId: Id, k: Id, p: Presence)
    requires SoleRow(presence, roomId, userId, k)
    requires p.roomId == roomId && p.userId == userId
    ensures SoleRow(presence[k := p], roomId, userId, k)
  {
  }

  /** Inserting a row for a user with none in the room makes it the only one. */
  lemma SoleRowAdded(presence: map<Id, Presence>, hi: nat, roomId: Id, userId: Id, p: Presence)
    requires KeysBelow(presence, hi)
    requires !PresentIn(presence, userId, roomId)
    requires p.roomId == roomId && p.userId == userId
    ensures SoleRow(presence[hi := p], roomId, userId, hi)
  {
  }

  /** What `getRoomPresence` shows of a user. */
  datatype UserSummary = UserSummary(name: string, email: Option<string>, id: Id)

  /** A presence row joined with its user. */
  datatype PresenceView = PresenceView(presence: Presence, user: UserSummary)

  /** `user.username || user.email || "Unknown"`: an empty string counts as missing. */
  function DisplayName(u: User): (r: string)
    ensures u.username != "" ==> r == u.username
    ensures u.username == "" && u.email.Some? && u.email.value != "" ==> r == u.email.value
    ensures u.username == "" && (u.email.None? || u.email.value == "") ==> r == "Unknown"
    ensures r != ""
  {
    if u.username != "" then u.username
    else if u.email.Some? && u.email.value != "" then u.email.value
    else "Unknown"
  }

  /** A row `getRoomPresence` keeps: online, and its user still exists. */
  predicate Shown(users: map<Id, User>, p: Presence)
  {
    p.isOnline && p.userId in users
  }

  /** A shown row joined with its user. */
  function ViewOf(users: map<Id, User>, p: Presence): PresenceView
    requires p.userId in users
  {
    PresenceView(p, UserSummary(DisplayName(users[p.userId]), users[p.userId].email, p.userId))
  }

  /** The views of the rows `ks` that `Shown` keeps, in the same order. */
  function Views(presence: map<Id, Presence>, users: map<Id, User>, ks: seq<Id>): (r: seq<PresenceView>)
    requires forall i :: 0 <= i < |ks| ==> ks[i] in presence
    ensures |r| <= |ks|
    ensures forall v :: v in r ==>
              && Shown(users, v.presence)
              && (exists k :: k in ks && presence[k] == v.presence)
              && v == ViewOf(users, v.presence)
    ensures forall k :: k in ks && Shown(users, presence[k]) ==>
              exists v :: v in r && v.presence == presence[k]
  {
    if ks == [] then []
    else
      var p := presence[ks[0]];
      var rest := Views(presence, users, ks[1..]);
      assert forall k :: k in ks[1..] ==> k in ks;
      if Shown(users, p) then
        assert forall k :: k in ks && Shown(users, presence[k]) ==> k == ks[0] || k in ks[1..];
        [ViewOf(users, p)] + rest
      else
        assert forall k :: k in ks && Shown(users, presence[k]) ==> k in ks[1..];
        rest
  }

  /** The keys among `ks` whose rows are shown as `v`. */
  ghost function ShownAs(presence: map<Id, Presence>, users: map<Id, User>, ks: seq<Id>, v: PresenceView): set<Id>
  {
    set k | k in ks && k in presence && Shown(users, presence[k]) && ViewOf(users, presence[k]) == v
  }

  /** With distinct keys, a view is listed once per row shown as it. */
  lemma {:induction false} ViewsCount(presence: map<Id, Presence>, users: map<Id, User>, ks: seq<Id>, v: PresenceView)
    requires Increasing(ks)
    requires forall i :: 0 <= i < |ks| ==> ks[i] in presence
    ensures multiset(Views(presence, users, ks))[v] == |ShownAs(presence, users, ks, v)|
    decreases |ks|
  {
    if ks == [] {
      assert ShownAs(presence, users, ks, v) == {};
    } else {
      TailMembers(ks);
      ViewsCount(presence, users, ks[1..], v);
      var p := presence[ks[0]];
      var rest := Views(presence, users, ks[1..]);
      if Shown(users, p) {
        assert Views(presence, users, ks) == [ViewOf(users, p)] + rest;
        assert multiset(Views(presence, users, ks)) == multiset{ViewOf(users, p)} + multiset(rest);
      } else {
        assert Views(presence, users, ks) == rest;
      }
      ShownAsCons(presence, users, ks, v);
    }
  }

  /** The keys shown as `v` among a list are those of its tail, plus its head when that is shown as `v`. */
  lemma ShownAsCons(presence: map<Id, Presence>, users: map<Id, User>, ks: seq<Id>, v: PresenceView)
    requires Increasing(ks) && ks != [] && ks[0] in presence
    requires forall k :: k in ks[1..] <==> k in ks && k != ks[0]
    ensures |ShownAs(presence, users, ks, v)| == |ShownAs(presence, users, ks[1..], v)|
              + (if Shown(users, presence[ks[0]]) && ViewOf(users, presence[ks[0]]) == v then 1 else 0)
  {
    var tail := ShownAs(presence, users, ks[1..], v);
    var p := presence[ks[0]];
    if Shown(users, p) && ViewOf(users, p) == v {
      assert ShownAs(presence, users, ks, v) == tail + {ks[0]};
      assert ks[0] !in tail;
    } else {
      assert ShownAs(presence, users, ks, v) == tail;
    }
  }

  /**
   * `getRoomPresence`: the room's presence rows joined with their users,
   * keeping only the rows that are online and whose user exists; each
   * such row is listed once.
   */
  function GetRoomPresence(presence: map<Id, Presence>, users: map<Id, User>, hi: nat, roomId: Id)
    : (r: seq<PresenceView>)
    requires KeysBelow(presence, hi)
    ensures forall v :: v in r ==> v.presence in presence.Values && v.presence.roomId == roomId
                                   && v.presence.isOnline && v.presence.userId in users
    ensures forall k :: k in presence && presence[k].roomId == roomId && presence[k].isOnline
                        && presence[k].userId in users ==>
              exists v :: v in r && v.presence == presence[k]
    ensures forall v :: multiset(r)[v] ==
              |set k | k in presence && presence[k].roomId == roomId && Shown(users, presence[k])
                       && ViewOf(users, presence[k]) == v|
  {
    var ks := Query(presence, hi, AtRoom(roomId));
    var r := Views(presence, users, ks);
    assert forall v :: multiset(r)[v] ==
             |set k | k in presence && presence[k].roomId == roomId && Shown(users, presence[k])
                      && ViewOf(users, presence[k]) == v| by {
      forall v ensures multiset(r)[v] ==
                 |set k | k in presence && presence[k].roomId == roomId && Shown(users, presence[k])
                          && ViewOf(users, presence[k]) == v| {
        ViewsCount(presence, users, ks, v);
        RoomShownAs(presence, users, ks, roomId, v);
      }
    }
    r
  }

  /** Over the room's keys, the rows shown as `v` are the room's rows shown as `v`. */
  lemma RoomShownAs(presence: map<Id, Presence>, users: map<Id, User>, ks: seq<Id>, roomId: Id, v: PresenceView)
    requires forall k :: k in ks <==> k in presence && AtRoom(roomId)(presence[k])
    ensures ShownAs(presence, users, ks, v)
            == set k | k in presence && presence[k].roomId == roomId && Shown(users, presence[k])
                       && ViewOf(users, presence[k]) == v
  {
  }

  /** The row after `toggleMicrophone`: microphone flipped, speaking cleared, stamped `now`. */
  function MicToggled(p: Presence, now: int): (r: Presence)
    ensures r.micEnabled == !p.micEnabled && !r.isSpeaking && r.lastSeen == now
    ensures r.(micEnabled := p.micEnabled, isSpeaking := p.isSpeaking, lastSeen := p.lastSeen) == p
  {
    p.(micEnabled := !p.micEnabled, isSpeaking := false, lastSeen := now)
  }

  /**
   * `toggleMicrophone`: flips the caller's microphone, stops it speaking
   * and returns the new setting; with no row it returns false and writes
   * nothing.
   */
  method ToggleMicrophone(db: Db, caller: Id, roomId: Id, now: int) returns (r: Result<bool>)
    requires db.Valid()
    modifies db`presence
    ensures db.Valid()
    ensures var row := PresenceRow(old(db.presence), db.nextId, roomId, caller);
            && (row.ManyRows? ==> r == Err(NOT_UNIQUE) && db.presence == old(db.presence))
            && (row.NoRow? ==> r == Ok(false) && db.presence == old(db.presence))
            && (row.OneRow? ==>
                  && r == Ok(!old(db.presence)[row.id].micEnabled)
                  && db.presence == old(db.presence)[row.id := MicToggled(old(db.presence)[row.id], now)])
  {
    var row := PresenceRow(db.presence, db.nextId, roomId, caller);
    match row
    case ManyRows =>
      r := Err(NOT_UNIQUE);
    case NoRow =>
      r := Ok(false);
    case OneRow(k) =>
      var p := db.presence[k];
      db.SetPresence(db.presence[k := MicToggled(p, now)]);
      r := Ok(!p.micEnabled);
  }

  /** Two microphone toggles restore the setting; speaking stays off. */
  lemma MicToggleTwice(p: Presence, t1: int, t2: int)
    ensures MicToggled(MicToggled(p, t1), t2) == p.(isSpeaking := false, lastSeen := t2)
  {
  }

  /** The row after `toggleSpeaker`: speaker flipped, stamped `now`. */
  function SpeakerToggled(p: Presence, now: int): (r: Presence)
    ensures r.speakerEnabled == !p.speakerEnabled && r.lastSeen == now
    ensures r.(speakerEnabled := p.speakerEnabled, lastSeen := p.lastSeen) == p
  {
    p.(speakerEnabled := !p.speakerEnabled, lastSeen := now)
  }

  /**
   * `toggleSpeaker`: flips the caller's speaker and returns the new
   * setting; with no row it returns true and writes nothing.
   */
  method ToggleSpeaker(db: Db, caller: Id, roomId: Id, now: int) returns (r: Result<bool>)
    requires db.Valid()
    modifies db`presence
    ensures db.Valid()
    ensures var row := PresenceRow(old(db.presence), db.nextId, roomId, caller);
            && (row.ManyRows? ==> r == Err(NOT_UNIQUE) && db.presence == old(db.presence))
            && (row.NoRow? ==> r == Ok(true) && db.presence == old(db.presence))
            && (row.OneRow? ==>
                  && r == Ok(!old(db.presence)[row.id].speakerEnabled)
                  && db.presence == old(db.presence)[row.id := SpeakerToggled(old(db.presence)[row.id], now)])
  {
    var row := PresenceRow(db.presence, db.nextId, roomId, caller);
    match row
    case ManyRows =>
      r := Err(NOT_UNIQUE);
    case NoRow =>
      r := Ok(true);
    case OneRow(k) =>
      var p := db.presence[k];
      db.SetPresence(db.presence[k := SpeakerToggled(p, now)]);
      r := Ok(!p.speakerEnabled);
  }

  /** Two speaker toggles restore the setting. */
  lemma SpeakerToggleTwice(p: Presence, t1: int, t2: int)
    ensures SpeakerToggled(SpeakerToggled(p, t1), t2) == p.(lastSeen := t2)
  {
  }
}
