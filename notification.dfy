/**
 * The notification inbox (`convex/notification.ts`): the caller's unread
 * notifications, newest first; the same set joined with the sender and
 * the room; and marking one notification read.
 */
module Notifications {
  import opened Wrappers
  import opened Store
  import opened Sorting

  /** A stored notification together with its id, as a query returns it. */
  datatype NoticeDoc = NoticeDoc(id: Id, notice: Notification)

  /** A notification the inbox shows to `caller`: addressed to it and not yet read. */
  predicate UnreadFor(n: Notification, caller: Id)
  {
    n.reciever == caller && !n.read
  }

  /** The documents stored under `ks`, in the same order. */
  function Docs(notifications: map<Id, Notification>, ks: seq<Id>): (r: seq<NoticeDoc>)
    requires forall i :: 0 <= i < |ks| ==> ks[i] in notifications
    ensures |r| == |ks|
    ensures forall i :: 0 <= i < |ks| ==> r[i] == NoticeDoc(ks[i], notifications[ks[i]])
  {
    seq(|ks|, i requires 0 <= i < |ks| => NoticeDoc(ks[i], notifications[ks[i]]))
  }

  /** The caller's unread notifications. */
  function UnreadBy(caller: Id): Notification -> bool
  {
    (n: Notification) => UnreadFor(n, caller)
  }

  /** The caller's unread notifications in insertion order (the index scan and the filter), each once. */
  function UnreadDocs(notifications: map<Id, Notification>, hi: nat, caller: Id): (r: seq<NoticeDoc>)
    requires KeysBelow(notifications, hi)
    ensures forall d :: d in r <==>
              d.id in notifications && d.notice == notifications[d.id] && UnreadFor(d.notice, caller)
    ensures forall d :: multiset(r)[d] <= 1
  {
    var ks := Query(notifications, hi, UnreadBy(caller));
    var r := Docs(notifications, ks);
    assert forall d :: multiset(r)[d] <= 1 by {
      forall d ensures multiset(r)[d] <= 1 {
        DocsOnce(notifications, ks, d);
      }
    }
    assert forall d :: d in r <==>
             d.id in notifications && d.notice == notifications[d.id] && UnreadFor(d.notice, caller) by {
      forall d ensures d in r <==>
                 d.id in notifications && d.notice == notifications[d.id] && UnreadFor(d.notice, caller)
      {
        if d in r {
          var i :| 0 <= i < |r| && r[i] == d;
          assert ks[i] in ks;
        }
        if d.id in notifications && d.notice == notifications[d.id] && UnreadFor(d.notice, caller) {
          assert UnreadBy(caller)(notifications[d.id]);
          var i :| 0 <= i < |ks| && ks[i] == d.id;
          assert r[i] == d;
        }
      }
    }
    r
  }

  /** With distinct keys, a document is listed at most once. */
  lemma DocsOnce(notifications: map<Id, Notification>, ks: seq<Id>, d: NoticeDoc)
    requires Increasing(ks)
    requires forall i :: 0 <= i < |ks| ==> ks[i] in notifications
    ensures multiset(Docs(notifications, ks))[d] <= 1
  {
    var docAt := k requires k in notifications => NoticeDoc(k, notifications[k]);
    ImageCount(ks, Docs(notifications, ks), docAt, d);
    assert Preimage(ks, docAt, d) <= {d.id};
    CardSubset(Preimage(ks, docAt, d), {d.id});
  }

  /** A subset is no larger than its superset. */
  lemma CardSubset(a: set<Id>, b: set<Id>)
    requires a <= b
    ensures |a| <= |b|
  {
    assert b == a + (b - a);
  }

  /** The sort key of `b._creationTime - a._creationTime`. */
  function NewestFirst(d: NoticeDoc): int
  {
    -d.notice.creationTime
  }

  /** `getMyUnreadNotifications`: the caller's unread notifications, the newest first. */
  function GetMyUnreadNotifications(notifications: map<Id, Notification>, hi: nat, caller: Id): (r: seq<NoticeDoc>)
    requires KeysBelow(notifications, hi)
    ensures forall d :: d in r <==>
              d.id in notifications && d.notice == notifications[d.id] && UnreadFor(d.notice, caller)
    ensures forall i, j :: 0 <= i < j < |r| ==> r[i].notice.creationTime >= r[j].notice.creationTime
    ensures forall d :: multiset(r)[d] <= 1
  {
    var unread := UnreadDocs(notifications, hi, caller);
    var sorted := SortByKey(unread, NewestFirst);
    SortedByNegated(sorted, (d: NoticeDoc) => d.notice.creationTime);
    assert forall d :: d in sorted <==> d in unread by {
      forall d ensures d in sorted <==> d in unread {
        assert d in sorted <==> d in multiset(sorted);
        assert d in unread <==> d in multiset(unread);
      }
    }
    assert forall d :: multiset(sorted)[d] == multiset(unread)[d];
    sorted
  }

  /** The sender as `notificationsAndDetails` shows it: `sender?.username`, `sender?.image`. */
  datatype SenderDetails = SenderDetails(username: Option<string>, image: Option<string>)

  /** A notification joined with its sender and room. */
  datatype NoticeDetails = NoticeDetails(
    doc: NoticeDoc,
    creatorDetails: SenderDetails,
    roomName: Option<string>,
    roomCode: Option<string>)

  /** The join of one notification: a missing sender or room leaves its fields undefined. */
  function Detail(users: map<Id, User>, rooms: map<Id, Room>, d: NoticeDoc): (r: NoticeDetails)
    ensures r.doc == d
    ensures d.notice.creator in users ==>
              r.creatorDetails == SenderDetails(Some(users[d.notice.creator].username), users[d.notice.creator].image)
    ensures d.notice.creator !in users ==> r.creatorDetails == SenderDetails(None, None)
    ensures (d.notice.roomId.None? || d.notice.roomId.value !in rooms) ==> r.roomName.None? && r.roomCode.None?
    ensures d.notice.roomId.Some? && d.notice.roomId.value in rooms ==>
              r.roomName == rooms[d.notice.roomId.value].name && r.roomCode == Some(rooms[d.notice.roomId.value].code)
  {
    var sender := if d.notice.creator in users
                  then SenderDetails(Some(users[d.notice.creator].username), users[d.notice.creator].image)
                  else SenderDetails(None, None);
    var room := if d.notice.roomId.Some? && d.notice.roomId.value in rooms then Some(rooms[d.notice.roomId.value]) else None;
    NoticeDetails(d, sender, if room.Some? then room.value.name else None, if room.Some? then Some(room.value.code) else None)
  }

  /** The joins of the documents `ds`, in the same order. */
  function Details(users: map<Id, User>, rooms: map<Id, Room>, ds: seq<NoticeDoc>): (r: seq<NoticeDetails>)
    ensures |r| == |ds|
    ensures forall i :: 0 <= i < |ds| ==> r[i] == Detail(users, rooms, ds[i])
  {
    seq(|ds|, i requires 0 <= i < |ds| => Detail(users, rooms, ds[i]))
  }

  /**
   * `notificationsAndDetails`: the caller's unread notifications in
   * insertion order, each joined with its sender and its room.
   */
  function NotificationsAndDetails(notifications: map<Id, Notification>, users: map<Id, User>,
                                   rooms: map<Id, Room>, hi: nat, caller: Id): (r: seq<NoticeDetails>)
    requires KeysBelow(notifications, hi)
    ensures forall e :: e in r ==> e == Detail(users, rooms, e.doc)
  {
    Details(users, rooms, UnreadDocs(notifications, hi, caller))
  }

  /** The detailed inbox and the plain inbox list the same notifications. */
  lemma DetailsCoverUnread(notifications: map<Id, Notification>, users: map<Id, User>,
                           rooms: map<Id, Room>, hi: nat, caller: Id, d: NoticeDoc)
    requires KeysBelow(notifications, hi)
    ensures (exists e :: e in NotificationsAndDetails(notifications, users, rooms, hi, caller) && e.doc == d)
            <==> d in GetMyUnreadNotifications(notifications, hi, caller)
  {
    DetailsDocs(users, rooms, UnreadDocs(notifications, hi, caller), d);
  }

  /** A document has a join among the joins of `ds` exactly when it is one of `ds`. */
  lemma DetailsDocs(users: map<Id, User>, rooms: map<Id, Room>, ds: seq<NoticeDoc>, d: NoticeDoc)
    ensures (exists e :: e in Details(users, rooms, ds) && e.doc == d) <==> d in ds
  {
    var r := Details(users, rooms, ds);
    if d in ds {
      var i :| 0 <= i < |ds| && ds[i] == d;
      assert r[i] in r && r[i].doc == d;
    }
    if exists e :: e in r && e.doc == d {
      var e :| e in r && e.doc == d;
      var i :| 0 <= i < |r| && r[i] == e;
      assert ds[i] == d;
    }
  }

  /** The table with notification `id` marked read. */
  function MarkRead(notifications: map<Id, Notification>, id: Id): (r: map<Id, Notification>)
    requires id in notifications
    ensures r.Keys == notifications.Keys
    ensures r[id].read
    ensures forall k :: k in r && k != id ==> r[k] == notifications[k]
  {
    notifications[id := notifications[id].(read := true)]
  }

  /**
   * `readNotification`: marks the notification read; a missing id fails
   * like any patch of a missing document.
   */
  method ReadNotification(db: Db, id: Id) returns (r: Result<Unit>)
    requires db.Valid()
    modifies db`notifications
    ensures db.Valid()
    ensures id !in old(db.notifications) ==> r == Err(MISSING_DOCUMENT) && db.notifications == old(db.notifications)
    ensures id in old(db.notifications) ==> r == Ok(Unit) && db.notifications == MarkRead(old(db.notifications), id)
  {
    if id !in db.notifications {
      return Err(MISSING_DOCUMENT);
    }
    db.SetNotifications(MarkRead(db.notifications, id));
    r := Ok(Unit);
  }

  /** Reading a notification twice is the same as reading it once. */
  lemma ReadIdempotent(notifications: map<Id, Notification>, id: Id)
    requires id in notifications
    ensures MarkRead(MarkRead(notifications, id), id) == MarkRead(notifications, id)
  {
    assert MarkRead(MarkRead(notifications, id), id)[id] == MarkRead(notifications, id)[id];
  }

  /**
   * Once read, a notification leaves both inbox queries of every user,
   * and every other unread notification stays.
   */
  lemma ReadLeavesInbox(notifications: map<Id, Notification>, users: map<Id, User>, rooms: map<Id, Room>,
                        hi: nat, id: Id, caller: Id)
    requires KeysBelow(notifications, hi) && id in notifications
    ensures KeysBelow(MarkRead(notifications, id), hi)
    ensures forall d :: d in GetMyUnreadNotifications(MarkRead(notifications, id), hi, caller) ==> d.id != id
    ensures forall e :: e in NotificationsAndDetails(MarkRead(notifications, id), users, rooms, hi, caller) ==>
              e.doc.id != id
    ensures forall d :: d in GetMyUnreadNotifications(notifications, hi, caller) && d.id != id ==>
              d in GetMyUnreadNotifications(MarkRead(notifications, id), hi, caller)
  {
    var m := MarkRead(notifications, id);
    forall e | e in NotificationsAndDetails(m, users, rooms, hi, caller) ensures e.doc.id != id {
      DetailsCoverUnread(m, users, rooms, hi, caller, e.doc);
    }
  }
}
