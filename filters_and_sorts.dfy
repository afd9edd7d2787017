/**
 * The lobby's room list helpers (`src/utils/filtersAndSorts.ts`): keep
 * the rooms whose game is running (or not), and order rooms by creation
 * time. Inputs are values, so the copy the source sorts leaves the
 * caller's list as it was.
 */
module RoomFilters {
  import opened Wrappers
  import opened Sorting
  import opened TimeAgo

  /** The part of a group session the list looks at. */
  datatype ClientPlaytime = ClientPlaytime(playing: Option<bool>)

  /** A room as the lobby receives it; `playtime` is `null` or absent before a game is set up. */
  datatype RoomWithPlaytime = RoomWithPlaytime(id: string, creationTime: Option<int>, playtime: Option<ClientPlaytime>)

  /** `"all" | "playing" | "not_playing"` */
  datatype FilterMode = All | Playing | NotPlaying

  /** `"desc" | "asc"` */
  datatype SortOrder = Desc | Asc

  /** `normalizeTimestampMs`: a missing time is 0; a seconds timestamp is scaled to milliseconds. */
  function NormalizeTimestampMs(ts: Option<int>): (r: int)
    ensures ts.None? ==> r == 0
    ensures ts.Some? && ts.value < SECONDS_CUTOFF ==> r == ts.value * 1000
    ensures ts.Some? && ts.value >= SECONDS_CUTOFF ==> r == ts.value
  {
    if ts.None? then 0 else ToMillis(ts.value)
  }

  /** The elements of `s` that satisfy `p`, in order (`s.filter(p)`). */
  function Keep<T(!new)>(s: seq<T>, p: T -> bool): (r: seq<T>)
    ensures |r| <= |s|
    ensures forall x :: x in r <==> x in s && p(x)
  {
    if s == [] then []
    else (if p(s[0]) then [s[0]] else []) + Keep(s[1..], p)
  }

  /** Filtering keeps every copy of an element that satisfies `p` and none of the others. */
  lemma {:induction false} KeepCount<T(!new)>(s: seq<T>, p: T -> bool, x: T)
    ensures multiset(Keep(s, p))[x] == if p(x) then multiset(s)[x] else 0
  {
    if s != [] {
      assert s == [s[0]] + s[1..];
      KeepCount(s[1..], p, x);
    }
  }

  /** Filtering a concatenation filters each part: the kept elements stay in their order. */
  lemma {:induction false} KeepAppend<T(!new)>(a: seq<T>, b: seq<T>, p: T -> bool)
    ensures Keep(a + b, p) == Keep(a, p) + Keep(b, p)
  {
    if a == [] {
      assert a + b == b;
    } else {
      var head := if p(a[0]) then [a[0]] else [];
      assert (a + b)[1..] == a[1..] + b;
      calc {
        Keep(a + b, p);
        head + Keep(a[1..] + b, p);
        { KeepAppend(a[1..], b, p); }
        head + (Keep(a[1..], p) + Keep(b, p));
        (head + Keep(a[1..], p)) + Keep(b, p);
        Keep(a, p) + Keep(b, p);
      }
    }
  }

  /** `!!r.playtime && r.playtime.playing === true` */
  predicate IsPlaying(r: RoomWithPlaytime)
  {
    r.playtime.Some? && r.playtime.value.playing == Some(true)
  }

  /** `!!r.playtime && r.playtime.playing !== true`: a missing flag counts as not playing. */
  predicate IsNotPlaying(r: RoomWithPlaytime)
  {
    r.playtime.Some? && r.playtime.value.playing != Some(true)
  }

  /** `filterRooms`: no list gives none; "all" returns the list itself; the two others filter it. */
  function FilterRooms(rooms: Option<seq<RoomWithPlaytime>>, mode: FilterMode): (r: seq<RoomWithPlaytime>)
    ensures rooms.None? ==> r == []
    ensures rooms.Some? && mode == All ==> r == rooms.value
    ensures rooms.Some? && mode == Playing ==> r == Keep(rooms.value, IsPlaying)
    ensures rooms.Some? && mode == NotPlaying ==> r == Keep(rooms.value, IsNotPlaying)
    ensures forall x :: x in r ==> x in rooms.value
  {
    if rooms.None? then []
    else
      match mode
      case All => rooms.value
      case Playing => Keep(rooms.value, IsPlaying)
      case NotPlaying => Keep(rooms.value, IsNotPlaying)
  }

  /**
   * "playing" and "not_playing" split the rooms that have a session
   * between them, each exactly once; a room without a session is in
   * neither.
   */
  lemma FilterModesPartition(rooms: seq<RoomWithPlaytime>, x: RoomWithPlaytime)
    ensures multiset(FilterRooms(Some(rooms), Playing))[x] + multiset(FilterRooms(Some(rooms), NotPlaying))[x]
            == (if x.playtime.Some? then multiset(rooms)[x] else 0)
    ensures x.playtime.None? ==> x !in FilterRooms(Some(rooms), Playing) && x !in FilterRooms(Some(rooms), NotPlaying)
  {
    KeepCount(rooms, IsPlaying, x);
    KeepCount(rooms, IsNotPlaying, x);
  }

  /** The comparator of `sortByCreationTime`: 0 for equal times, else the signed difference. */
  function Compare(a: RoomWithPlaytime, b: RoomWithPlaytime, order: SortOrder): int
  {
    var aMs := NormalizeTimestampMs(a.creationTime);
    var bMs := NormalizeTimestampMs(b.creationTime);
    if aMs == bMs then 0
    else if order == Desc then bMs - aMs
    else aMs - bMs
  }

  /** The key the comparator orders by: the time, negated for newest first. */
  function SortKey(order: SortOrder): RoomWithPlaytime -> int
  {
    (x: RoomWithPlaytime) => if order == Desc then -NormalizeTimestampMs(x.creationTime) else NormalizeTimestampMs(x.creationTime)
  }

  /** The comparator puts `a` no later than `b` exactly when `a`'s key is no greater. */
  lemma CompareIsKeyOrder(a: RoomWithPlaytime, b: RoomWithPlaytime, order: SortOrder)
    ensures Compare(a, b, order) <= 0 <==> SortKey(order)(a) <= SortKey(order)(b)
    ensures Compare(a, b, order) == 0 <==> SortKey(order)(a) == SortKey(order)(b)
  {
  }

  /**
   * `sortByCreationTime`: a sorted copy; "desc" puts the newest first,
   * "asc" the oldest. No list gives none.
   */
  function SortByCreationTime(rooms: Option<seq<RoomWithPlaytime>>, order: SortOrder): (r: seq<RoomWithPlaytime>)
    ensures rooms.None? ==> r == []
    ensures rooms.Some? ==> multiset(r) == multiset(rooms.value)
    ensures order == Desc ==> forall i, j :: 0 <= i < j < |r| ==>
              NormalizeTimestampMs(r[i].creationTime) >= NormalizeTimestampMs(r[j].creationTime)
    ensures order == Asc ==> forall i, j :: 0 <= i < j < |r| ==>
              NormalizeTimestampMs(r[i].creationTime) <= NormalizeTimestampMs(r[j].creationTime)
  {
    if rooms.None? then []
    else
      var r := SortByKey(rooms.value, SortKey(order));
      assert forall i, j :: 0 <= i < j < |r| ==> SortKey(order)(r[i]) <= SortKey(order)(r[j]);
      r
  }

  /** `filterAndSortRooms`: the filtered rooms, sorted. */
  function FilterAndSortRooms(rooms: Option<seq<RoomWithPlaytime>>, mode: FilterMode, order: SortOrder)
    : (r: seq<RoomWithPlaytime>)
    ensures multiset(r) == multiset(FilterRooms(rooms, mode))
    ensures order == Desc ==> forall i, j :: 0 <= i < j < |r| ==>
              NormalizeTimestampMs(r[i].creationTime) >= NormalizeTimestampMs(r[j].creationTime)
    ensures order == Asc ==> forall i, j :: 0 <= i < j < |r| ==>
              NormalizeTimestampMs(r[i].creationTime) <= NormalizeTimestampMs(r[j].creationTime)
  {
    SortByCreationTime(Some(FilterRooms(rooms, mode)), order)
  }
}
