/**
 * The Convex document store: one map from id to record per table, and the
 * record shapes the mutations read and write. Ids come from one counter,
 * so a table query returns its rows in ascending id order, which is the
 * order in which they were inserted (Convex's default `_creationTime` order).
 */
module Store {
  import opened Wrappers

  type Id = nat

  datatype User = User(
    username: string,
    email: Option<string>,
    clerkId: Option<string>,
    image: Option<string>,
    fullname: Option<string>)

  datatype RoomStatus = Public | Private

  datatype Room = Room(
    name: Option<string>,
    code: string,
    hostId: Id,
    status: RoomStatus,
    maxPlayers: int,
    playing: bool,
    playtimeId: Option<Id>,
    startUser: Option<Id>,
    creationTime: int)

  /** A member of a room; `joinIndex` is absent on rows written by older code. */
  datatype RoomPlayer = RoomPlayer(roomId: Id, userId: Id, ready: bool, joinIndex: Option<int>)

  /** `"pending" | "accepted" | "removed"` */
  datatype RequestStatus = Pending | Accepted | Removed

  datatype RoomRequest = RoomRequest(roomId: Id, userId: Id, status: RequestStatus)

  /** `"request" | "accepted" | "reject" | "quit" | "removed" | "ownership_transfer"` */
  datatype NotificationType = JoinRequest | JoinAccepted | JoinRejected | PlayerQuit | PlayerRemoved | OwnershipTransfer

  /** `reciever` keeps the source's spelling of the field. */
  datatype Notification = Notification(
    creator: Id,
    reciever: Id,
    kind: NotificationType,
    read: bool,
    roomId: Option<Id>,
    roomRequestId: Option<Id>,
    creationTime: int)

  datatype Presence = Presence(
    roomId: Id,
    userId: Id,
    isOnline: bool,
    isSpeaking: bool,
    micEnabled: bool,
    speakerEnabled: bool,
    lastSeen: int)

  /** `"offer" | "answer" | "ice"` */
  datatype SignalType = Offer | Answer | Ice

  /** A WebRTC handshake message; the payload is opaque to the server. */
  datatype Signal = Signal(
    roomId: Id,
    fromUserId: Id,
    toUserId: Id,
    kind: SignalType,
    payload: string,
    createdAt: int)

  datatype Category = Category(name: string)

  /** A riddle of a playtime, by id, with its progress flag. */
  datatype RiddleRef = RiddleRef(id: Id, done: bool)

  /**
   * A solo session. The three outcome buckets are `undefined` when the row
   * is created and are read with `|| []`; the model stores them as `[]`.
   */
  datatype Playtime = Playtime(
    userId: Id,
    riddles: seq<RiddleRef>,
    corrects: seq<Id>,
    incorrects: seq<Id>,
    skipped: seq<Id>,
    playing: bool,
    secondsPerRiddle: int,
    current: Option<Id>,
    previous: Option<Id>,
    next: Option<Id>)

  /** `"correct" | "incorrect" | "skipped" | "timedOut"` */
  datatype Outcome = Correct | Incorrect | Skipped | TimedOut

  /** One entry of a room's append-only play log. */
  datatype PlayEntry = PlayEntry(riddleId: Id, done: bool, playedBy: Id, turnIndex: nat, result: Outcome)

  /** A group session; `play` stays `undefined` until the first entry is logged. */
  datatype RoomPlaytime = RoomPlaytime(
    roomId: Id,
    riddles: seq<RiddleRef>,
    play: Option<seq<PlayEntry>>,
    playing: bool,
    completed: bool,
    currentRiddle: Option<Id>,
    previousRiddle: Option<Id>,
    nextRiddle: Option<Id>,
    currentUser: Option<Id>,
    previousUser: Option<Id>,
    nextUser: Option<Id>)

  /** The text of the error Convex raises when `db.patch` or `db.delete` names a missing document. */
  const MISSING_DOCUMENT := "Document not found"

  /** The error Convex raises when an argument does not match its validator. */
  const ARG_INVALID := "ArgumentValidationError: Value does not match validator."

  /** Every key of `m` is below `bound`. */
  ghost predicate KeysBelow<T>(m: map<Id, T>, bound: nat)
  {
    forall k :: k in m ==> k < bound
  }

  /** The database handle `ctx.db` shared by every mutation. */
  class Db {
    var users: map<Id, User>
    var rooms: map<Id, Room>
    var roomPlayers: map<Id, RoomPlayer>
    var roomRequests: map<Id, RoomRequest>
    var notifications: map<Id, Notification>
    var presence: map<Id, Presence>
    var signals: map<Id, Signal>
    var categories: map<Id, Category>
    var playtimes: map<Id, Playtime>
    var roomPlaytimes: map<Id, RoomPlaytime>
    /** The id the next insert receives. */
    var nextId: Id

    /** Every stored id was handed out before `nextId`. */
    ghost predicate Valid()
      reads this
    {
      && KeysBelow(users, nextId)
      && KeysBelow(rooms, nextId)
      && KeysBelow(roomPlayers, nextId)
      && KeysBelow(roomRequests, nextId)
      && KeysBelow(notifications, nextId)
      && KeysBelow(presence, nextId)
      && KeysBelow(signals, nextId)
      && KeysBelow(categories, nextId)
      && KeysBelow(playtimes, nextId)
      && KeysBelow(roomPlaytimes, nextId)
    }

    constructor ()
      ensures Valid()
      ensures users == map[] && rooms == map[] && roomPlayers == map[] && roomRequests == map[]
      ensures notifications == map[] && presence == map[] && signals == map[]
      ensures categories == map[] && playtimes == map[] && roomPlaytimes == map[]
      ensures nextId == 0
    {
      users, rooms, roomPlayers, roomRequests := map[], map[], map[], map[];
      notifications, presence, signals := map[], map[], map[];
      categories, playtimes, roomPlaytimes := map[], map[], map[];
      nextId := 0;
    }

    /** Hands out a fresh document id, used by no table. */
    method NewId() returns (id: Id)
      requires Valid()
      modifies this`nextId
      ensures Valid()
      ensures id == old(nextId) && nextId == id + 1
      ensures id !in users && id !in rooms && id !in roomPlayers && id !in roomRequests
      ensures id !in notifications && id !in presence && id !in signals
      ensures id !in categories && id !in playtimes && id !in roomPlaytimes
    {
      id := nextId;
      nextId := nextId + 1;
    }

    /** Replaces the `users` table by `m`, whose ids were all handed out. */
    method SetUsers(m: map<Id, User>)
      requires Valid() && KeysBelow(m, nextId)
      modifies this`users
      ensures Valid() && users == m
    {
      users := m;
    }

    /** Replaces the `rooms` table by `m`, whose ids were all handed out. */
    method SetRooms(m: map<Id, Room>)
      requires Valid() && KeysBelow(m, nextId)
      modifies this`rooms
      ensures Valid() && rooms == m
    {
      rooms := m;
    }

    /** Replaces the `roomPlayers` table by `m`, whose ids were all handed out. */
    method SetPlayers(m: map<Id, RoomPlayer>)
      requires Valid() && KeysBelow(m, nextId)
      modifies this`roomPlayers
      ensures Valid() && roomPlayers == m
    {
      roomPlayers := m;
    }

    /** Replaces the `roomRequests` table by `m`, whose ids were all handed out. */
    method SetRequests(m: map<Id, RoomRequest>)
      requires Valid() && KeysBelow(m, nextId)
      modifies this`roomRequests
      ensures Valid() && roomRequests == m
    {
      roomRequests := m;
    }

    /** Replaces the `notifications` table by `m`, whose ids were all handed out. */
    method SetNotifications(m: map<Id, Notification>)
      requires Valid() && KeysBelow(m, nextId)
      modifies this`notifications
      ensures Valid() && notifications == m
    {
      notifications := m;
    }

    /** Replaces the `presence` table by `m`, whose ids were all handed out. */
    method SetPresence(m: map<Id, Presence>)
      requires Valid() && KeysBelow(m, nextId)
      modifies this`presence
      ensures Valid() && presence == m
    {
      presence := m;
    }

    /** Replaces the `categories` table by `m`, whose ids were all handed out. */
    method SetCategories(m: map<Id, Category>)
      requires Valid() && KeysBelow(m, nextId)
      modifies this`categories
      ensures Valid() && categories == m
    {
      categories := m;
    }

    /** `ctx.db.insert("users", u)`. */
    method InsertUser(u: User) returns (id: Id)
      requires Valid()
      modifies this`users, this`nextId
      ensures Valid()
      ensures id == old(nextId) && nextId == id + 1
      ensures users == old(users)[id := u]
    {
      id := NewId();
      users := users[id := u];
    }

    /** `ctx.db.insert("rooms", r)`. */
    method InsertRoom(r: Room) returns (id: Id)
      requires Valid()
      modifies this`rooms, this`nextId
      ensures Valid()
      ensures id == old(nextId) && nextId == id + 1
      ensures rooms == old(rooms)[id := r]
    {
      id := NewId();
      rooms := rooms[id := r];
    }

    /** `ctx.db.insert("roomPlayers", p)`. */
    method InsertPlayer(p: RoomPlayer) returns (id: Id)
      requires Valid()
      modifies this`roomPlayers, this`nextId
      ensures Valid()
      ensures id == old(nextId) && nextId == id + 1
      ensures roomPlayers == old(roomPlayers)[id := p]
    {
      id := NewId();
      roomPlayers := roomPlayers[id := p];
    }

    /** `ctx.db.insert("roomRequests", q)`. */
    method InsertRequest(q: RoomRequest) returns (id: Id)
      requires Valid()
      modifies this`roomRequests, this`nextId
      ensures Valid()
      ensures id == old(nextId) && nextId == id + 1
      ensures roomRequests == old(roomRequests)[id := q]
    {
      id := NewId();
      roomRequests := roomRequests[id := q];
    }

    /** `ctx.db.insert("notification", n)`. */
    method InsertNotification(n: Notification) returns (id: Id)
      requires Valid()
      modifies this`notifications, this`nextId
      ensures Valid()
      ensures id == old(nextId) && nextId == id + 1
      ensures notifications == old(notifications)[id := n]
    {
      id := NewId();
      notifications := notifications[id := n];
    }

    /** `ctx.db.insert("presence", p)`. */
    method InsertPresence(p: Presence) returns (id: Id)
      requires Valid()
      modifies this`presence, this`nextId
      ensures Valid()
      ensures id == old(nextId) && nextId == id + 1
      ensures presence == old(presence)[id := p]
    {
      id := NewId();
      presence := presence[id := p];
    }

    /** `ctx.db.insert("webrtcSignals", s)`. */
    method InsertSignal(s: Signal) returns (id: Id)
      requires Valid()
      modifies this`signals, this`nextId
      ensures Valid()
      ensures id == old(nextId) && nextId == id + 1
      ensures signals == old(signals)[id := s]
    {
      id := NewId();
      signals := signals[id := s];
    }

    /** `ctx.db.insert("categories", c)`. */
    method InsertCategory(c: Category) returns (id: Id)
      requires Valid()
      modifies this`categories, this`nextId
      ensures Valid()
      ensures id == old(nextId) && nextId == id + 1
      ensures categories == old(categories)[id := c]
    {
      id := NewId();
      categories := categories[id := c];
    }
  }

  /**
   * `ids.map(id => ctx.db.delete(id))`: the table without the listed rows,
   * every other row as it was.
   */
  method DeleteRows<T>(m: map<Id, T>, ids: seq<Id>) returns (r: map<Id, T>)
    requires Increasing(ids)
    requires forall j :: 0 <= j < |ids| ==> ids[j] in m
    ensures forall k :: k in r <==> k in m && k !in ids
    ensures forall k :: k in r ==> r[k] == m[k]
    ensures |r| == |m| - |ids|
  {
    r := m;
    var i := 0;
    while i < |ids|
      invariant 0 <= i <= |ids|
      invariant forall k :: k in r ==> k in m && r[k] == m[k]
      invariant forall k :: k in m && k !in ids ==> k in r
      invariant forall j :: i <= j < |ids| ==> ids[j] in r
      invariant forall j :: 0 <= j < i ==> ids[j] !in r
      invariant |r| == |m| - i
    {
      var id := ids[i];
      forall j | i < j < |ids| ensures ids[j] != id {
        assert ids[i] < ids[j];
      }
      r := r - {id};
      i := i + 1;
    }
  }

  /** The table without the rows that satisfy `p`. */
  function Without<T>(m: map<Id, T>, p: T -> bool): (r: map<Id, T>)
    ensures forall k :: k in r <==> k in m && !p(m[k])
    ensures forall k :: k in r ==> r[k] == m[k]
  {
    map k | k in m && !p(m[k]) :: m[k]
  }

  /** The table with every row that satisfies `p` replaced by `f` of itself. */
  function Patched<T>(m: map<Id, T>, p: T -> bool, f: T -> T): (r: map<Id, T>)
    ensures r.Keys == m.Keys
    ensures forall k :: k in r ==> r[k] == (if p(m[k]) then f(m[k]) else m[k])
  {
    map k | k in m :: if p(m[k]) then f(m[k]) else m[k]
  }

  /**
   * A query for the rows that satisfy `p` followed by a delete of each:
   * every matching row goes, every other row stays as it was.
   */
  method DeleteWhere<T>(m: map<Id, T>, hi: nat, p: T -> bool) returns (r: map<Id, T>)
    requires KeysBelow(m, hi)
    ensures r == Without(m, p)
    ensures KeysBelow(r, hi)
  {
    var ids := Query(m, hi, p);
    r := DeleteRows(m, ids);
    DeletedIsWithout(m, ids, p, r);
  }

  /** Deleting exactly the ids of the rows that satisfy `p` leaves `Without(m, p)`. */
  lemma DeletedIsWithout<T>(m: map<Id, T>, ids: seq<Id>, p: T -> bool, r: map<Id, T>)
    requires forall k :: k in ids <==> k in m && p(m[k])
    requires forall k :: k in r <==> k in m && k !in ids
    requires forall k :: k in r ==> r[k] == m[k]
    ensures r == Without(m, p)
  {
    var w := Without(m, p);
    assert r.Keys == w.Keys;
  }

  /**
   * A query for the rows that satisfy `p` followed by a patch of each with
   * `f`: every matching row is replaced, every other row stays as it was.
   */
  method PatchWhere<T>(m: map<Id, T>, hi: nat, p: T -> bool, f: T -> T) returns (r: map<Id, T>)
    requires KeysBelow(m, hi)
    ensures r == Patched(m, p, f)
    ensures KeysBelow(r, hi)
  {
    var ids := Query(m, hi, p);
    r := PatchRows(m, ids, f);
  }

  /**
   * `ids.map(id => ctx.db.patch(id, ...))`: each listed row replaced by
   * `f` of itself, every other row as it was.
   */
  method PatchRows<T>(m: map<Id, T>, ids: seq<Id>, f: T -> T) returns (r: map<Id, T>)
    requires Increasing(ids)
    requires forall j :: 0 <= j < |ids| ==> ids[j] in m
    ensures r.Keys == m.Keys
    ensures forall k :: k in r ==> r[k] == (if k in ids then f(m[k]) else m[k])
  {
    r := m;
    var i := 0;
    while i < |ids|
      invariant 0 <= i <= |ids|
      invariant r.Keys == m.Keys
      invariant forall k :: k in r ==> r[k] == (if k in ids[..i] then f(m[k]) else m[k])
    {
      var id := ids[i];
      assert id !in ids[..i] by {
        forall j | 0 <= j < i ensures ids[j] != id {
          assert ids[j] < ids[i];
        }
      }
      r := r[id := f(m[id])];
      assert ids[..i + 1] == ids[..i] + [id];
      i := i + 1;
    }
    assert ids[..i] == ids;
  }

  /** The keys of `m` below `hi`, ascending: a full-table scan in insertion order. */
  function Scan<T>(m: map<Id, T>, hi: nat): (ks: seq<Id>)
    ensures forall k :: k in ks <==> k in m && k < hi
    ensures forall i, j :: 0 <= i < j < |ks| ==> ks[i] < ks[j]
    ensures forall i :: 0 <= i < |ks| ==> ks[i] in m && ks[i] < hi
    decreases hi
  {
    if hi == 0 then []
    else Scan(m, hi - 1) + (if hi - 1 in m then [hi - 1] else [])
  }

  /** Strictly increasing ids. */
  ghost predicate Increasing(ks: seq<Id>)
  {
    forall i, j :: 0 <= i < j < |ks| ==> ks[i] < ks[j]
  }

  /** The keys of `ks` whose rows satisfy `p`, in the same order (a `.filter(...)`). */
  function Where<T>(m: map<Id, T>, ks: seq<Id>, p: T -> bool): (r: seq<Id>)
    requires forall i :: 0 <= i < |ks| ==> ks[i] in m
    ensures |r| <= |ks|
    ensures forall k :: k in r <==> k in ks && p(m[k])
    ensures forall i :: 0 <= i < |r| ==> r[i] in m && p(m[r[i]])
  {
    if ks == [] then []
    else
      var rest := Where(m, ks[1..], p);
      if p(m[ks[0]]) then [ks[0]] + rest else rest
  }

  /** Filtering keeps an increasing key list increasing. */
  lemma {:induction false} WhereIncreasing<T>(m: map<Id, T>, ks: seq<Id>, p: T -> bool)
    requires forall i :: 0 <= i < |ks| ==> ks[i] in m
    requires Increasing(ks)
    ensures Increasing(Where(m, ks, p))
  {
    if ks != [] {
      var rest := Where(m, ks[1..], p);
      WhereIncreasing(m, ks[1..], p);
      forall k | k in rest ensures ks[0] < k {
        var i :| 0 <= i < |ks[1..]| && ks[1..][i] == k;
        assert ks[i + 1] == k;
      }
    }
  }

  /** The ids of the rows of `m` that satisfy `p`, in insertion order. */
  function Query<T>(m: map<Id, T>, hi: nat, p: T -> bool): (r: seq<Id>)
    requires KeysBelow(m, hi)
    ensures forall k :: k in r <==> k in m && p(m[k])
    ensures forall i :: 0 <= i < |r| ==> r[i] in m && p(m[r[i]])
    ensures forall i, j :: 0 <= i < j < |r| ==> r[i] < r[j]
  {
    WhereIncreasing(m, Scan(m, hi), p);
    Where(m, Scan(m, hi), p)
  }

  /** `.first()`: the earliest matching row, if any. */
  function First<T>(m: map<Id, T>, hi: nat, p: T -> bool): (r: Option<Id>)
    requires KeysBelow(m, hi)
    ensures r.None? <==> forall k :: k in m ==> !p(m[k])
    ensures r.Some? ==> r.value in m && p(m[r.value]) && forall k :: k in m && p(m[k]) ==> r.value <= k
  {
    var q := Query(m, hi, p);
    if q == [] then None
    else
      assert forall k :: k in m && p(m[k]) ==> k in q;
      assert forall i :: 0 <= i < |q| ==> q[0] <= q[i];
      Some(q[0])
  }

  /** The text of the error `.unique()` raises when several rows match. */
  const NOT_UNIQUE := "unique() query returned more than one document"

  /** What `.unique()` yields: no row, exactly one row, or an error when several match. */
  datatype Lookup = NoRow | OneRow(id: Id) | ManyRows

  /** `.unique()`: Convex throws when more than one row matches. */
  function Unique<T>(m: map<Id, T>, hi: nat, p: T -> bool): (r: Lookup)
    requires KeysBelow(m, hi)
    ensures r.NoRow? <==> forall k :: k in m ==> !p(m[k])
    ensures r.OneRow? ==> r.id in m && p(m[r.id]) && forall k :: k in m && p(m[k]) ==> k == r.id
    ensures r.ManyRows? ==> exists a, b :: a in m && b in m && a != b && p(m[a]) && p(m[b])
  {
    var q := Query(m, hi, p);
    if q == [] then
      assert forall k :: k in m ==> !p(m[k]) by {
        forall k | k in m ensures !p(m[k]) {
          assert p(m[k]) ==> k in q;
        }
      }
      NoRow
    else if |q| == 1 then
      assert forall k :: k in m && p(m[k]) ==> k == q[0] by {
        forall k | k in m && p(m[k]) ensures k == q[0] {
          assert k in q;
        }
      }
      OneRow(q[0])
    else
      var a, b := q[0], q[1];
      assert a in m && p(m[a]) && b in m && p(m[b]) && a < b;
      ManyRows
  }

  /** The rows stored under `ks`, in the same order. */
  function Rows<T>(m: map<Id, T>, ks: seq<Id>): (r: seq<T>)
    requires forall i :: 0 <= i < |ks| ==> ks[i] in m
    ensures |r| == |ks|
    ensures forall i :: 0 <= i < |ks| ==> r[i] == m[ks[i]]
  {
    seq(|ks|, i requires 0 <= i < |ks| => m[ks[i]])
  }

  /** Two increasing key lists with the same members are the same list. */
  lemma {:induction false} IncreasingEqual(a: seq<Id>, b: seq<Id>)
    requires Increasing(a) && Increasing(b)
    requires forall k :: k in a <==> k in b
    ensures a == b
    decreases |a|
  {
    if a == [] {
      if b != [] {
        HeadIsMember(b);
        assert false;
      }
    } else {
      assert b != [] by { assert a[0] in b; }
      assert a[0] == b[0] by {
        assert a[0] in b && b[0] in a;
        var i :| 0 <= i < |b| && b[i] == a[0];
        var j :| 0 <= j < |a| && a[j] == b[0];
        assert b[0] <= b[i] && a[0] <= a[j];
      }
      var ta, tb := a[1..], b[1..];
      TailMembers(a);
      TailMembers(b);
      IncreasingEqual(ta, tb);
      assert a == [a[0]] + ta && b == [b[0]] + tb;
    }
  }

  /** The tail of an increasing list is increasing and holds every member but the head. */
  lemma TailMembers(ks: seq<Id>)
    requires Increasing(ks) && ks != []
    ensures Increasing(ks[1..])
    ensures forall k :: k in ks[1..] <==> k in ks && k != ks[0]
  {
    forall k | k in ks[1..] ensures k != ks[0] {
      var i :| 0 <= i < |ks[1..]| && ks[1..][i] == k;
      assert ks[i + 1] == k;
    }
  }

  /** The first entry of a non-empty list is one of its members. */
  lemma HeadIsMember(ks: seq<Id>)
    requires ks != []
    ensures ks[0] in ks
  {
  }

  /**
   * Dropping rows that fail `p` (and changing no other row) does not
   * change what a query with `p` returns.
   */
  lemma QuerySubmap<T>(m: map<Id, T>, sub: map<Id, T>, hi: nat, p: T -> bool)
    requires KeysBelow(m, hi)
    requires forall k :: k in sub ==> k in m && sub[k] == m[k]
    requires forall k :: k in m && k !in sub ==> !p(m[k])
    ensures KeysBelow(sub, hi)
    ensures Query(sub, hi, p) == Query(m, hi, p)
  {
    IncreasingEqual(Query(sub, hi, p), Query(m, hi, p));
  }

  /** A table whose keys all come from a table below `hi` is below `hi` too. */
  lemma SubmapBelow<T>(m: map<Id, T>, sub: map<Id, T>, hi: nat)
    requires KeysBelow(m, hi)
    requires forall k :: k in sub ==> k in m
    ensures KeysBelow(sub, hi)
  {
  }

  /** A query sees the same rows in two tables with the same keys whose rows agree on `p`. */
  lemma QueryAgree<T>(m: map<Id, T>, t: map<Id, T>, hi: nat, p: T -> bool)
    requires KeysBelow(m, hi) && t.Keys == m.Keys
    requires forall k :: k in m ==> (p(t[k]) <==> p(m[k]))
    ensures KeysBelow(t, hi)
    ensures Query(t, hi, p) == Query(m, hi, p)
  {
    IncreasingEqual(Query(t, hi, p), Query(m, hi, p));
  }

  /** A row inserted under the next id comes last in every query it matches. */
  lemma QueryInsert<T>(m: map<Id, T>, hi: nat, x: T, p: T -> bool)
    requires KeysBelow(m, hi)
    ensures KeysBelow(m[hi := x], hi + 1)
    ensures Query(m[hi := x], hi + 1, p) == Query(m, hi, p) + (if p(x) then [hi] else [])
  {
    var before := Query(m, hi, p);
    var expected := before + (if p(x) then [hi] else []);
    assert Increasing(expected);
    IncreasingEqual(Query(m[hi := x], hi + 1, p), expected);
  }

  /** The members of a key list. */
  function KeySet(ks: seq<Id>): (r: set<Id>)
    ensures forall k :: k in r <==> k in ks
  {
    set k | k in ks
  }

  /** An increasing list has as many members as entries. */
  lemma {:induction false} IncreasingCard(ks: seq<Id>)
    requires Increasing(ks)
    ensures |KeySet(ks)| == |ks|
  {
    if ks == [] {
      assert KeySet(ks) == {};
    } else {
      TailMembers(ks);
      IncreasingCard(ks[1..]);
      assert KeySet(ks) == KeySet(ks[1..]) + {ks[0]};
    }
  }

  /**
   * With distinct keys `ks`, a list holding `f(k)` for each key in turn
   * holds `u` once for every key that `f` maps to `u`.
   */
  lemma {:induction false} ImageCount<U>(ks: seq<Id>, r: seq<U>, f: Id --> U, u: U)
    requires Increasing(ks) && |r| == |ks|
    requires forall i :: 0 <= i < |ks| ==> f.requires(ks[i]) && r[i] == f(ks[i])
    ensures multiset(r)[u] == |Preimage(ks, f, u)|
    decreases |ks|
  {
    if ks == [] {
      assert Preimage(ks, f, u) == {};
    } else {
      TailMembers(ks);
      var rest := r[1..];
      ImageCount(ks[1..], rest, f, u);
      assert r == [r[0]] + rest;
      assert multiset(r) == multiset{r[0]} + multiset(rest);
      PreimageCons(ks, f, u);
    }
  }

  /** The keys among `ks` that `f` maps to `u`. */
  ghost function Preimage<U>(ks: seq<Id>, f: Id --> U, u: U): set<Id>
  {
    set k | k in ks && f.requires(k) && f(k) == u
  }

  /** The preimage over a list is the preimage over its tail, plus the head when it maps to `u`. */
  lemma PreimageCons<U>(ks: seq<Id>, f: Id --> U, u: U)
    requires Increasing(ks) && ks != [] && f.requires(ks[0])
    requires forall k :: k in ks[1..] <==> k in ks && k != ks[0]
    ensures |Preimage(ks, f, u)| == |Preimage(ks[1..], f, u)| + (if f(ks[0]) == u then 1 else 0)
  {
    var tail := Preimage(ks[1..], f, u);
    if f(ks[0]) == u {
      assert Preimage(ks, f, u) == tail + {ks[0]};
      assert ks[0] !in tail;
    } else {
      assert Preimage(ks, f, u) == tail;
    }
  }

  /** The number of rows of `m` that satisfy `p` and equal `x`. */
  ghost function Copies<T>(m: map<Id, T>, p: T -> bool, x: T): nat
  {
    |set k | k in m && p(m[k]) && m[k] == x|
  }

  /** The rows under increasing keys `ks` hold a value once per key of `ks` holding it. */
  lemma RowsCount<T>(m: map<Id, T>, ks: seq<Id>, p: T -> bool, x: T)
    requires Increasing(ks)
    requires forall k :: k in ks <==> k in m && p(m[k])
    ensures forall i :: 0 <= i < |ks| ==> ks[i] in m
    ensures multiset(Rows(m, ks))[x] == Copies(m, p, x)
  {
    assert forall i :: 0 <= i < |ks| ==> ks[i] in ks;
    var at := k requires k in m => m[k];
    ImageCount(ks, Rows(m, ks), at, x);
    assert Preimage(ks, at, x) == set k | k in m && p(m[k]) && m[k] == x;
  }

  /** The rows of `m` that satisfy `p`, in insertion order (`.filter(...).collect()`), each once. */
  function Select<T(==,!new)>(m: map<Id, T>, hi: nat, p: T -> bool): (r: seq<T>)
    requires KeysBelow(m, hi)
    ensures forall x :: x in r ==> x in m.Values && p(x)
    ensures forall k :: k in m && p(m[k]) ==> m[k] in r
    ensures forall x :: multiset(r)[x] == Copies(m, p, x)
  {
    var ks := Query(m, hi, p);
    var rows := Rows(m, ks);
    assert forall x :: multiset(rows)[x] == Copies(m, p, x) by {
      forall x ensures multiset(rows)[x] == Copies(m, p, x) {
        RowsCount(m, ks, p, x);
      }
    }
    assert forall k :: k in m && p(m[k]) ==> m[k] in rows by {
      forall k | k in m && p(m[k]) ensures m[k] in rows {
        var i :| 0 <= i < |ks| && ks[i] == k;
        assert rows[i] == m[k];
      }
    }
    rows
  }
}
