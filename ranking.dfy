/**
 * The end-of-game ranking table (`src/utils/ranking.tsx`): one row per
 * player with the number of correct, incorrect, skipped and timed-out
 * plays, sorted by a lexicographic comparator and ranked with standard
 * competition ranking ("1224": tied rows share a rank, the next distinct
 * row takes its position).
 */
module Ranking {
  import opened Wrappers
  import opened Store
  import opened Text
  import opened Sorting

  /** The joined user document of a room player, as far as the table reads it. */
  datatype UserDoc = UserDoc(id: Id, doc: User)

  /** A room player with its user document (`null` when the user is gone). */
  datatype Player = Player(user: Option<UserDoc>, userId: Id)

  /** A row of the table; `playerId` doubles as the row key. */
  datatype Row = Row(
    playerId: Id,
    name: string,
    avatar: Option<string>,
    corrects: nat,
    incorrect: nat,
    skipped: nat,
    timeout: nat,
    total: nat,
    rank: nat)

  datatype SortBy = ByCorrects | ByTotal | ByName

  datatype Direction = Desc | Asc

  /** The optional settings; an absent field takes its default. */
  datatype Options = Options(sortBy: Option<SortBy>, direction: Option<Direction>, includeNonPlayers: Option<bool>)

  /** The row key of a player: the user document's id, else the player's `userId`. */
  function PlayerKey(p: Player): Id
  {
    if p.user.Some? then p.user.value.id else p.userId
  }

  /** The trimmed full name, else the trimmed user name, else the key written in decimal. */
  function DisplayName(p: Player): (name: string)
    ensures name != []
  {
    var full := if p.user.Some? && p.user.value.doc.fullname.Some? then Trim(p.user.value.doc.fullname.value) else "";
    var user := if p.user.Some? then Trim(p.user.value.doc.username) else "";
    if full != "" then full
    else if user != "" then user
    else NatToString(PlayerKey(p))
  }

  function Avatar(p: Player): Option<string>
  {
    if p.user.Some? then p.user.value.doc.image else None
  }

  /** The zero row a player starts with. */
  function PlayerRow(p: Player): Row
  {
    ZeroRow(PlayerKey(p), PlayerProfile(p))
  }

  /** The zero row `ensure` creates for a user who played but is not a listed player. */
  function GuestRow(u: Id): Row
  {
    Row(u, NatToString(u), None, 0, 0, 0, 0, 0, 0)
  }

  /** Counts one play with result `o`, then recomputes the total. */
  function Bump(row: Row, o: Outcome): (r: Row)
  {
    var counted := match o
      case Correct => row.(corrects := row.corrects + 1)
      case Incorrect => row.(incorrect := row.incorrect + 1)
      case Skipped => row.(skipped := row.skipped + 1)
      case TimedOut => row.(timeout := row.timeout + 1);
    counted.(total := counted.corrects + counted.incorrect + counted.skipped + counted.timeout)
  }

  /** The number of plays by `u` with result `o`. */
  function Tally(plays: seq<PlayEntry>, u: Id, o: Outcome): nat
  {
    if plays == [] then 0
    else
      var last := plays[|plays| - 1];
      Tally(plays[..|plays| - 1], u, o) + (if last.playedBy == u && last.result == o then 1 else 0)
  }

  /** The number of plays by `u`. */
  function PlaysBy(plays: seq<PlayEntry>, u: Id): nat
  {
    if plays == [] then 0
    else PlaysBy(plays[..|plays| - 1], u) + (if plays[|plays| - 1].playedBy == u then 1 else 0)
  }

  /** Every play of `u` falls in exactly one of the four counts. */
  lemma {:induction false} TallyPartition(plays: seq<PlayEntry>, u: Id)
    ensures Tally(plays, u, Correct) + Tally(plays, u, Incorrect) + Tally(plays, u, Skipped)
            + Tally(plays, u, TimedOut) == PlaysBy(plays, u)
    decreases |plays|
  {
    if plays != [] {
      TallyPartition(plays[..|plays| - 1], u);
    }
  }

  /** The row's four counts are the tallies of `plays` for its player and its total is their sum. */
  ghost predicate Tallied(row: Row, plays: seq<PlayEntry>)
  {
    && row.corrects == Tally(plays, row.playerId, Correct)
    && row.incorrect == Tally(plays, row.playerId, Incorrect)
    && row.skipped == Tally(plays, row.playerId, Skipped)
    && row.timeout == Tally(plays, row.playerId, TimedOut)
    && row.total == row.corrects + row.incorrect + row.skipped + row.timeout
  }

  /** `u` is the key of some player. */
  ghost predicate IsPlayer(players: seq<Player>, u: Id)
  {
    exists j :: 0 <= j < |players| && PlayerKey(players[j]) == u
  }

  /** `u` is the key of one of the first `n` players. */
  ghost predicate IsPlayerIn(players: seq<Player>, n: nat, u: Id)
    requires n <= |players|
  {
    exists j :: 0 <= j < n && PlayerKey(players[j]) == u
  }

  /** Player `j` is the last of the first `n` players whose key is `u` (`Map.set` keeps the last value). */
  ghost predicate LastKeyed(players: seq<Player>, n: nat, j: int, u: Id)
    requires n <= |players|
  {
    0 <= j < n && PlayerKey(players[j]) == u && forall j' :: j < j' < n ==> PlayerKey(players[j']) != u
  }

  /** `u` played one of the first `n` plays. */
  ghost predicate PlayedIn(plays: seq<PlayEntry>, n: nat, u: Id)
    requires n <= |plays|
  {
    exists j :: 0 <= j < n && plays[j].playedBy == u
  }

  /**
   * The name and avatar the table shows for `u` after the first `n`
   * players: those of the last of them with key `u`, or the decimal id and
   * no avatar when none has it.
   */
  function Profile(players: seq<Player>, n: nat, u: Id): (string, Option<string>)
    requires n <= |players|
  {
    if n == 0 then (NatToString(u), None)
    else if PlayerKey(players[n - 1]) == u then PlayerProfile(players[n - 1])
    else Profile(players, n - 1, u)
  }

  /** The name and avatar of a player's own row. */
  function PlayerProfile(p: Player): (string, Option<string>)
  {
    (DisplayName(p), Avatar(p))
  }

  /** `Profile` picks the last player with the key. */
  lemma {:induction false} ProfileOfPlayer(players: seq<Player>, n: nat, u: Id)
    requires n <= |players| && IsPlayerIn(players, n, u)
    ensures exists j :: LastKeyed(players, n, j, u) && Profile(players, n, u) == PlayerProfile(players[j])
  {
    if PlayerKey(players[n - 1]) == u {
      assert LastKeyed(players, n, n - 1, u);
    } else {
      var k :| 0 <= k < n && PlayerKey(players[k]) == u;
      assert IsPlayerIn(players, n - 1, u);
      ProfileOfPlayer(players, n - 1, u);
      var j :| LastKeyed(players, n - 1, j, u) && Profile(players, n - 1, u) == PlayerProfile(players[j]);
      assert LastKeyed(players, n, j, u);
    }
  }

  /** A user no player has shows its decimal id and no avatar. */
  lemma {:induction false} ProfileOfGuest(players: seq<Player>, n: nat, u: Id)
    requires n <= |players| && !IsPlayerIn(players, n, u)
    ensures Profile(players, n, u) == (NatToString(u), None)
  {
    if n > 0 {
      assert PlayerKey(players[n - 1]) != u;
      assert !IsPlayerIn(players, n - 1, u);
      ProfileOfGuest(players, n - 1, u);
    }
  }

  /** The row shows the name and avatar `Profile` gives its player. */
  ghost predicate Profiled(row: Row, players: seq<Player>)
  {
    (row.name, row.avatar) == Profile(players, |players|, row.playerId)
  }

  /** The zero row with the given name and avatar. */
  function ZeroRow(u: Id, profile: (string, Option<string>)): Row
  {
    Row(u, profile.0, profile.1, 0, 0, 0, 0, 0, 0)
  }

  /** The pair `order`/`entries` is a JavaScript `Map`: keys in insertion order, each once. */
  ghost predicate IsMap(order: seq<Id>, entries: map<Id, Row>)
  {
    && (forall a, b :: 0 <= a < b < |order| ==> order[a] != order[b])
    && (forall k :: k in entries <==> k in order)
    && (forall k :: k in entries ==> entries[k].playerId == k)
  }

  /** No two rows share a player. */
  ghost predicate DistinctPlayers(rows: seq<Row>)
  {
    forall a, b :: 0 <= a < b < |rows| ==> rows[a].playerId != rows[b].playerId
  }

  /** Some row belongs to `u`. */
  ghost predicate HasRow(rows: seq<Row>, u: Id)
  {
    exists j :: 0 <= j < |rows| && rows[j].playerId == u
  }

  /**
   * The two loops of `buildRankingTable`: a zero row per player key, then
   * one count per play, skipping plays of users without a row unless
   * `includeNonPlayers`, in which case `ensure` adds a zero row first.
   * The rows come out in the map's insertion order.
   */
  method BuildRows(players: seq<Player>, plays: seq<PlayEntry>, includeNonPlayers: bool) returns (rows: seq<Row>)
    ensures DistinctPlayers(rows)
    ensures forall u :: HasRow(rows, u) <==> IsPlayer(players, u) || (includeNonPlayers && PlayedIn(plays, |plays|, u))
    ensures forall r :: r in rows ==> Tallied(r, plays) && Profiled(r, players) && r.rank == 0
  {
    var order, entries := SeedPlayers(players);
    order, entries := CountPlays(players, plays, includeNonPlayers, order, entries);
    rows := seq(|order|, j requires 0 <= j < |order| => entries[order[j]]);
    forall u ensures HasRow(rows, u) <==> u in entries {
      if u in entries {
        var j :| 0 <= j < |order| && order[j] == u;
        assert rows[j].playerId == u;
      }
    }
  }

  /** The map after the first `n` turns of the players loop. */
  ghost predicate Seeded(players: seq<Player>, n: nat, order: seq<Id>, entries: map<Id, Row>)
    requires n <= |players|
  {
    && IsMap(order, entries)
    && (forall u :: u in entries <==> IsPlayerIn(players, n, u))
    && (forall u :: u in entries ==> entries[u] == ZeroRow(u, Profile(players, n, u)))
  }

  /** The players loop: `map.set(key, zeroRow)` for each player in turn. */
  method SeedPlayers(players: seq<Player>) returns (order: seq<Id>, entries: map<Id, Row>)
    ensures IsMap(order, entries)
    ensures forall u :: u in entries <==> IsPlayer(players, u)
    ensures forall u :: u in entries ==> Tallied(entries[u], []) && Profiled(entries[u], players) && entries[u].rank == 0
  {
    order, entries := [], map[];
    var i := 0;
    while i < |players|
      invariant 0 <= i <= |players|
      invariant Seeded(players, i, order, entries)
    {
      order, entries := SeedPlayer(players, i, order, entries);
      i := i + 1;
    }
  }

  /** One turn of the players loop. */
  method SeedPlayer(players: seq<Player>, i: nat, order0: seq<Id>, entries0: map<Id, Row>)
    returns (order: seq<Id>, entries: map<Id, Row>)
    requires i < |players| && Seeded(players, i, order0, entries0)
    ensures Seeded(players, i + 1, order, entries)
  {
    var key := PlayerKey(players[i]);
    order := if key in entries0 then order0 else order0 + [key];
    entries := entries0[key := PlayerRow(players[i])];
    forall u ensures u in entries <==> IsPlayerIn(players, i + 1, u) {
      if IsPlayerIn(players, i + 1, u) && u != key {
        var j :| 0 <= j < i + 1 && PlayerKey(players[j]) == u;
        assert IsPlayerIn(players, i, u);
      }
    }
  }

  /** The plays loop: counts each play into its user's row, `ensure`-ing the row first when allowed. */
  method CountPlays(players: seq<Player>, plays: seq<PlayEntry>, includeNonPlayers: bool, order0: seq<Id>, entries0: map<Id, Row>)
    returns (order: seq<Id>, entries: map<Id, Row>)
    requires IsMap(order0, entries0)
    requires forall u :: u in entries0 <==> IsPlayer(players, u)
    requires forall u :: u in entries0 ==> Tallied(entries0[u], []) && Profiled(entries0[u], players) && entries0[u].rank == 0
    ensures IsMap(order, entries)
    ensures forall u :: u in entries <==> IsPlayer(players, u) || (includeNonPlayers && PlayedIn(plays, |plays|, u))
    ensures forall u :: u in entries ==> Tallied(entries[u], plays) && Profiled(entries[u], players) && entries[u].rank == 0
  {
    order, entries := order0, entries0;
    var i := 0;
    while i < |plays|
      invariant 0 <= i <= |plays|
      invariant IsMap(order, entries)
      invariant forall u :: u in entries <==> IsPlayer(players, u) || (includeNonPlayers && PlayedIn(plays, i, u))
      invariant forall u :: u in entries ==> Tallied(entries[u], plays[..i]) && Profiled(entries[u], players) && entries[u].rank == 0
    {
      order, entries := CountPlay(players, plays[..i], includeNonPlayers, plays[i], order, entries);
      assert plays[..i + 1] == plays[..i] + [plays[i]];
      i := i + 1;
      forall u ensures PlayedIn(plays, i, u) <==> PlayedIn(plays, i - 1, u) || plays[i - 1].playedBy == u {
        if PlayedIn(plays, i, u) && plays[i - 1].playedBy != u {
          var j :| 0 <= j < i && plays[j].playedBy == u;
        }
      }
    }
    assert plays[..|plays|] == plays;
  }

  /** One turn of the plays loop. */
  method CountPlay(players: seq<Player>, seen: seq<PlayEntry>, includeNonPlayers: bool, play: PlayEntry,
                   order0: seq<Id>, entries0: map<Id, Row>)
    returns (order: seq<Id>, entries: map<Id, Row>)
    requires IsMap(order0, entries0)
    requires forall u :: u in entries0 ==> Tallied(entries0[u], seen) && Profiled(entries0[u], players) && entries0[u].rank == 0
    requires play.playedBy !in entries0 ==>
               && !IsPlayer(players, play.playedBy)
               && (includeNonPlayers ==> forall j :: 0 <= j < |seen| ==> seen[j].playedBy != play.playedBy)
    ensures IsMap(order, entries)
    ensures forall u :: u in entries <==> u in entries0 || (includeNonPlayers && u == play.playedBy)
    ensures forall u :: u in entries ==> Tallied(entries[u], seen + [play]) && Profiled(entries[u], players) && entries[u].rank == 0
  {
    var u := play.playedBy;
    if u in entries0 {
      var row := entries0[u];
      TalliedBump(row, seen, play);
      IsMapUpdate(order0, entries0, u, Bump(row, play.result));
      order, entries := order0, entries0[u := Bump(row, play.result)];
    } else if includeNonPlayers {
      GuestRowReady(players, seen, u);
      TalliedBump(GuestRow(u), seen, play);
      IsMapAdd(order0, entries0, u, Bump(GuestRow(u), play.result));
      order, entries := order0 + [u], entries0[u := Bump(GuestRow(u), play.result)];
    } else {
      order, entries := order0, entries0;
    }
    forall w | w in entries && w != u ensures Tallied(entries[w], seen + [play]) {
      TalliedOther(entries[w], seen, play);
    }
  }

  /** The zero row of a user who is no player and has not played yet is tallied and profiled. */
  lemma GuestRowReady(players: seq<Player>, seen: seq<PlayEntry>, u: Id)
    requires !IsPlayer(players, u)
    requires forall j :: 0 <= j < |seen| ==> seen[j].playedBy != u
    ensures Tallied(GuestRow(u), seen) && Profiled(GuestRow(u), players) && GuestRow(u).rank == 0
  {
    ProfileOfGuest(players, |players|, u);
    TallyNone(seen, u, Correct);
    TallyNone(seen, u, Incorrect);
    TallyNone(seen, u, Skipped);
    TallyNone(seen, u, TimedOut);
  }

  /** Replacing the row of a key keeps the order and the rows in step. */
  lemma IsMapUpdate(order: seq<Id>, entries: map<Id, Row>, u: Id, row: Row)
    requires IsMap(order, entries) && u in entries && row.playerId == u
    ensures IsMap(order, entries[u := row])
  {
  }

  /** Adding a row under a new key, at the end of the order, keeps the two in step. */
  lemma IsMapAdd(order: seq<Id>, entries: map<Id, Row>, u: Id, row: Row)
    requires IsMap(order, entries) && u !in entries && row.playerId == u
    ensures IsMap(order + [u], entries[u := row])
  {
  }

  /** Counting a play into its player's row keeps the row tallied. */
  lemma TalliedBump(row: Row, seen: seq<PlayEntry>, play: PlayEntry)
    requires Tallied(row, seen) && row.playerId == play.playedBy
    ensures Tallied(Bump(row, play.result), seen + [play])
  {
    assert (seen + [play])[..|seen|] == seen;
  }

  /** Another user's play changes none of the row's tallies. */
  lemma TalliedOther(row: Row, seen: seq<PlayEntry>, play: PlayEntry)
    requires Tallied(row, seen) && row.playerId != play.playedBy
    ensures Tallied(row, seen + [play])
  {
    assert (seen + [play])[..|seen|] == seen;
  }

  /** A user who made none of the plays has every count zero. */
  lemma {:induction false} TallyNone(plays: seq<PlayEntry>, u: Id, o: Outcome)
    requires forall j :: 0 <= j < |plays| ==> plays[j].playedBy != u
    ensures Tally(plays, u, o) == 0
  {
    if plays != [] {
      TallyNone(plays[..|plays| - 1], u, o);
    }
  }

  /** The comparator's direction factor: `-1` for descending, `1` for ascending. */
  function DirFactor(d: Direction): int
  {
    if d == Desc then -1 else 1
  }

  /**
   * The comparator of `buildRankingTable`: negative when `a` sorts first.
   * `incorrectFactor` multiplies the incorrect-count tie-break of the
   * "corrects" order; the source has `-1` there (see `CompareAsWritten`),
   * the table uses `1`, which puts fewer incorrect answers first.
   */
  function Compare(sortBy: SortBy, dirFactor: int, incorrectFactor: int, a: Row, b: Row): int
  {
    match sortBy
    case ByCorrects =>
      if a.corrects != b.corrects then (a.corrects - b.corrects) * dirFactor
      else if a.incorrect != b.incorrect then (a.incorrect - b.incorrect) * incorrectFactor
      else if a.total != b.total then (a.total - b.total) * dirFactor
      else StrCompare(a.name, b.name)
    case ByTotal =>
      if a.total != b.total then (a.total - b.total) * dirFactor
      else if a.corrects != b.corrects then (a.corrects - b.corrects) * -1
      else StrCompare(a.name, b.name)
    case ByName => StrCompare(a.name, b.name) * dirFactor
  }

  /** The comparator exactly as the source writes it. */
  function CompareAsWritten(sortBy: SortBy, d: Direction, a: Row, b: Row): int
  {
    Compare(sortBy, DirFactor(d), -1, a, b)
  }

  /** The comparator with the intended incorrect-count tie-break. */
  function RowCompare(sortBy: SortBy, d: Direction, a: Row, b: Row): int
  {
    Compare(sortBy, DirFactor(d), 1, a, b)
  }

  /** "`a` may sort before `b`": the comparator is not positive. */
  function RowLe(sortBy: SortBy, dirFactor: int, incorrectFactor: int): (Row, Row) -> bool
  {
    (a: Row, b: Row) => Compare(sortBy, dirFactor, incorrectFactor, a, b) <= 0
  }

  /** One comparator level on integers: `(x - y) * f` for a sign `f`. */
  lemma LevelSign(x: int, y: int, f: int)
    requires f == 1 || f == -1
    ensures (x - y) * f == -((y - x) * f)
    ensures x != y ==> (x - y) * f != 0
  {
  }

  /** Swapping the rows negates the comparison's sign. */
  lemma CompareFlip(sortBy: SortBy, dirFactor: int, incorrectFactor: int, a: Row, b: Row)
    requires dirFactor == 1 || dirFactor == -1
    requires incorrectFactor == 1 || incorrectFactor == -1
    ensures Compare(sortBy, dirFactor, incorrectFactor, a, b) <= 0 || Compare(sortBy, dirFactor, incorrectFactor, b, a) <= 0
  {
    StrCompareFlip(a.name, b.name);
    LevelSign(a.corrects, b.corrects, dirFactor);
    LevelSign(a.incorrect, b.incorrect, incorrectFactor);
    LevelSign(a.total, b.total, dirFactor);
    LevelSign(a.corrects, b.corrects, -1);
  }

  /** The comparison is transitive. */
  lemma CompareTrans(sortBy: SortBy, dirFactor: int, incorrectFactor: int, a: Row, b: Row, c: Row)
    requires dirFactor == 1 || dirFactor == -1
    requires incorrectFactor == 1 || incorrectFactor == -1
    requires Compare(sortBy, dirFactor, incorrectFactor, a, b) <= 0
    requires Compare(sortBy, dirFactor, incorrectFactor, b, c) <= 0
    ensures Compare(sortBy, dirFactor, incorrectFactor, a, c) <= 0
  {
    match sortBy
    case ByName =>
      if dirFactor == 1 {
        StrCompareTrans(a.name, b.name, c.name);
      } else {
        StrCompareFlip(a.name, b.name);
        StrCompareFlip(b.name, c.name);
        StrCompareFlip(a.name, c.name);
        StrCompareTrans(c.name, b.name, a.name);
      }
    case ByTotal =>
      if a.total == b.total == c.total && a.corrects == b.corrects == c.corrects {
        StrCompareTrans(a.name, b.name, c.name);
      } else if dirFactor == 1 {
      } else {
      }
    case ByCorrects =>
      if a.corrects == b.corrects == c.corrects && a.incorrect == b.incorrect == c.incorrect
         && a.total == b.total == c.total {
        StrCompareTrans(a.name, b.name, c.name);
      } else if dirFactor == 1 && incorrectFactor == 1 {
      } else if dirFactor == 1 {
      } else if incorrectFactor == 1 {
      } else {
      }
  }

  /** Both comparators are consistent: the order they induce is total and transitive. */
  lemma RowOrderIsPreorder(sortBy: SortBy, dirFactor: int, incorrectFactor: int)
    requires dirFactor == 1 || dirFactor == -1
    requires incorrectFactor == 1 || incorrectFactor == -1
    ensures TotalPreorder(RowLe(sortBy, dirFactor, incorrectFactor))
  {
    var le := RowLe(sortBy, dirFactor, incorrectFactor);
    forall a, b ensures le(a, b) || le(b, a) {
      CompareFlip(sortBy, dirFactor, incorrectFactor, a, b);
    }
    forall a, b, c | le(a, b) && le(b, c) ensures le(a, c) {
      CompareTrans(sortBy, dirFactor, incorrectFactor, a, b, c);
    }
  }

  /**
   * Rows sorted by the default order ("corrects", descending): more correct
   * answers first, then fewer incorrect, then a larger total, then by name.
   */
  lemma DefaultOrder(rows: seq<Row>, i: nat, j: nat)
    requires SortedWith(rows, RowLe(ByCorrects, DirFactor(Desc), 1))
    requires i < j < |rows|
    ensures rows[i].corrects >= rows[j].corrects
    ensures rows[i].corrects == rows[j].corrects ==> rows[i].incorrect <= rows[j].incorrect
    ensures rows[i].corrects == rows[j].corrects && rows[i].incorrect == rows[j].incorrect
            ==> rows[i].total >= rows[j].total
    ensures (rows[i].corrects == rows[j].corrects && rows[i].incorrect == rows[j].incorrect
             && rows[i].total == rows[j].total) ==> StrCompare(rows[i].name, rows[j].name) <= 0
  {
    assert RowLe(ByCorrects, -1, 1)(rows[i], rows[j]);
  }

  /** Under the comparator as written, two rows with the same correct count put MORE incorrect answers first. */
  lemma AsWrittenPutsMoreIncorrectFirst()
    ensures var better := Row(1, "a", None, 3, 1, 0, 0, 4, 0);
            var worse := Row(2, "b", None, 3, 2, 0, 0, 5, 0);
            && CompareAsWritten(ByCorrects, Desc, worse, better) < 0
            && TotalPreorder(RowLe(ByCorrects, DirFactor(Desc), -1))
            && SortWith([better, worse], RowLe(ByCorrects, DirFactor(Desc), -1)) == [worse, better]
  {
    var better := Row(1, "a", None, 3, 1, 0, 0, 4, 0);
    var worse := Row(2, "b", None, 3, 2, 0, 0, 5, 0);
    var le := RowLe(ByCorrects, -1, -1);
    RowOrderIsPreorder(ByCorrects, -1, -1);
    assert [better, worse][..1] == [better];
    assert SortWith([better], le) == [better] by {
      assert [better][..0] == [];
    }
    assert !le(better, worse);
  }

  /** With the intended tie-break the same two rows come out with fewer incorrect answers first. */
  lemma CorrectedPutsFewerIncorrectFirst()
    ensures var better := Row(1, "a", None, 3, 1, 0, 0, 4, 0);
            var worse := Row(2, "b", None, 3, 2, 0, 0, 5, 0);
            && RowCompare(ByCorrects, Desc, better, worse) < 0
            && TotalPreorder(RowLe(ByCorrects, DirFactor(Desc), 1))
            && SortWith([worse, better], RowLe(ByCorrects, DirFactor(Desc), 1)) == [better, worse]
  {
    var better := Row(1, "a", None, 3, 1, 0, 0, 4, 0);
    var worse := Row(2, "b", None, 3, 2, 0, 0, 5, 0);
    var le := RowLe(ByCorrects, -1, 1);
    RowOrderIsPreorder(ByCorrects, -1, 1);
    assert [worse, better][..1] == [worse];
    assert SortWith([worse], le) == [worse] by {
      assert [worse][..0] == [];
    }
    assert !le(worse, better);
  }

  /** The values the ranking loop compares: corrects, incorrect and total (not the name). */
  function Score(r: Row): (nat, nat, nat)
  {
    (r.corrects, r.incorrect, r.total)
  }

  /**
   * The competition rank of row `i`: 1 for the first row, the previous
   * row's rank when the scores tie, its own position (1-based) otherwise.
   */
  function RankAt(rows: seq<Row>, i: nat): (r: nat)
    requires i < |rows|
    ensures 1 <= r <= i + 1
  {
    if i == 0 then 1
    else if Score(rows[i]) == Score(rows[i - 1]) then RankAt(rows, i - 1)
    else i + 1
  }

  /** Ranks never decrease down the table. */
  lemma {:induction false} RanksNonDecreasing(rows: seq<Row>, i: nat, j: nat)
    requires i <= j < |rows|
    ensures RankAt(rows, i) <= RankAt(rows, j)
    decreases j - i
  {
    if i < j {
      RanksNonDecreasing(rows, i, j - 1);
    }
  }

  /**
   * "1224": row `i` is ranked at the start of its run of tied rows; every
   * row from there to `i` has its score and the row before the run does not.
   */
  lemma {:induction false} RankIsRunStart(rows: seq<Row>, i: nat)
    requires i < |rows|
    ensures forall k :: RankAt(rows, i) - 1 <= k <= i ==> Score(rows[k]) == Score(rows[i])
    ensures RankAt(rows, i) >= 2 ==> Score(rows[RankAt(rows, i) - 2]) != Score(rows[i])
  {
    if i > 0 && Score(rows[i]) == Score(rows[i - 1]) {
      RankIsRunStart(rows, i - 1);
    }
  }

  /** Ranks depend only on the scores, so writing the ranks into the rows does not change them. */
  lemma {:induction false} RankAtScores(rows: seq<Row>, other: seq<Row>, i: nat)
    requires |rows| == |other| && i < |rows|
    requires forall k :: 0 <= k < |rows| ==> Score(rows[k]) == Score(other[k])
    ensures RankAt(rows, i) == RankAt(other, i)
  {
    if i > 0 {
      RankAtScores(rows, other, i - 1);
    }
  }

  /**
   * The ranking loop: `lastValues` holds the scores of the row that started
   * the current run and `currentRank` its position.
   */
  method AssignRanks(rows: seq<Row>) returns (ranked: seq<Row>)
    ensures |ranked| == |rows|
    ensures forall i :: 0 <= i < |rows| ==> ranked[i] == rows[i].(rank := RankAt(rows, i))
  {
    ranked := rows;
    var currentRank := 0;
    var lastValues: Option<(nat, nat, nat)> := None;
    for i := 0 to |rows|
      invariant |ranked| == |rows|
      invariant forall j :: 0 <= j < i ==> ranked[j] == rows[j].(rank := RankAt(rows, j))
      invariant forall j :: i <= j < |rows| ==> ranked[j] == rows[j]
      invariant i == 0 <==> lastValues.None?
      invariant i > 0 ==> lastValues == Some(Score(rows[i - 1])) && currentRank == RankAt(rows, i - 1)
    {
      var r := ranked[i];
      var compKey := Score(r);
      if lastValues.None? || compKey != lastValues.value {
        currentRank := i + 1;
        lastValues := Some(compKey);
      }
      ranked := ranked[i := r.(rank := currentRank)];
    }
  }

  /**
   * `buildRankingTable` (the data source, not the AntD columns): the rows
   * of `BuildRows`, stably sorted by the comparator (with the intended
   * incorrect-count tie-break), then ranked.
   */
  method BuildRankingTable(players: seq<Player>, plays: seq<PlayEntry>, options: Options) returns (table: seq<Row>)
    ensures DistinctPlayers(table)
    ensures forall u :: HasRow(table, u) <==>
              IsPlayer(players, u) || (options.includeNonPlayers == Some(true) && PlayedIn(plays, |plays|, u))
    ensures forall r :: r in table ==> Tallied(r, plays) && Profiled(r, players)
    ensures SortedWith(table, RowLe(if options.sortBy.Some? then options.sortBy.value else ByCorrects,
                                    DirFactor(if options.direction.Some? then options.direction.value else Desc), 1))
    ensures forall i :: 0 <= i < |table| ==> table[i].rank == RankAt(table, i)
  {
    var sortBy := if options.sortBy.Some? then options.sortBy.value else ByCorrects;
    var direction := if options.direction.Some? then options.direction.value else Desc;
    var includeNonPlayers := if options.includeNonPlayers.Some? then options.includeNonPlayers.value else false;
    var rows := BuildRows(players, plays, includeNonPlayers);
    RowOrderIsPreorder(sortBy, DirFactor(direction), 1);
    var sorted := SortWith(rows, RowLe(sortBy, DirFactor(direction), 1));
    SortedRows(rows, sorted, players, plays);
    table := AssignRanks(sorted);
    RankedSorted(sorted, table, sortBy, DirFactor(direction));
    RankedRanks(sorted, table);
    RankedRows(sorted, table, players, plays);
  }

  /** A reordering of the built rows has the same players, counts and profiles. */
  lemma SortedRows(rows: seq<Row>, sorted: seq<Row>, players: seq<Player>, plays: seq<PlayEntry>)
    requires multiset(sorted) == multiset(rows)
    requires DistinctPlayers(rows)
    requires forall r :: r in rows ==> Tallied(r, plays) && Profiled(r, players) && r.rank == 0
    ensures DistinctPlayers(sorted)
    ensures forall u :: HasRow(sorted, u) <==> HasRow(rows, u)
    ensures forall r :: r in sorted ==> Tallied(r, plays) && Profiled(r, players) && r.rank == 0
  {
    assert forall r :: r in sorted <==> r in rows by {
      forall r ensures r in sorted <==> r in rows {
        assert r in sorted <==> r in multiset(sorted);
        assert r in rows <==> r in multiset(rows);
      }
    }
    PermutationDistinct(rows, sorted);
    forall u ensures HasRow(sorted, u) <==> HasRow(rows, u) {
      if HasRow(sorted, u) {
        var j :| 0 <= j < |sorted| && sorted[j].playerId == u;
        assert sorted[j] in rows;
      }
      if HasRow(rows, u) {
        var j :| 0 <= j < |rows| && rows[j].playerId == u;
        assert rows[j] in sorted;
      }
    }
  }

  /** A reordering of rows with distinct players has distinct players. */
  lemma PermutationDistinct(rows: seq<Row>, sorted: seq<Row>)
    requires multiset(sorted) == multiset(rows)
    requires DistinctPlayers(rows)
    ensures DistinctPlayers(sorted)
  {
    forall a, b | 0 <= a < b < |sorted| ensures sorted[a].playerId != sorted[b].playerId {
      if sorted[a].playerId == sorted[b].playerId {
        assert sorted[a] in multiset(rows) && sorted[b] in multiset(rows);
        var i :| 0 <= i < |rows| && rows[i] == sorted[a];
        var j :| 0 <= j < |rows| && rows[j] == sorted[b];
        SameRowTwice(sorted, a, b);
        NoDuplicateRow(rows, i);
        assert false;
      }
    }
  }

  /** A row found at two positions occurs at least twice. */
  lemma SameRowTwice(s: seq<Row>, a: nat, b: nat)
    requires a < b < |s| && s[a] == s[b]
    ensures multiset(s)[s[a]] >= 2
  {
    assert s == s[..a] + [s[a]] + s[a + 1..];
    assert s[b] in s[a + 1..];
  }

  /** Rows with distinct players are each stored once. */
  lemma {:induction false} NoDuplicateRow(rows: seq<Row>, i: nat)
    requires DistinctPlayers(rows) && i < |rows|
    ensures multiset(rows)[rows[i]] == 1
  {
    if |rows| > 0 {
      var last := |rows| - 1;
      var init := rows[..last];
      assert rows == init + [rows[last]];
      if i < last {
        NoDuplicateRow(init, i);
        assert rows[last] != rows[i];
      } else {
        assert rows[i] !in init;
      }
    }
  }

  /** Writing the ranks keeps the table sorted: the comparator does not read the rank. */
  lemma RankedSorted(sorted: seq<Row>, table: seq<Row>, sortBy: SortBy, dirFactor: int)
    requires |table| == |sorted|
    requires forall i :: 0 <= i < |sorted| ==> table[i] == sorted[i].(rank := RankAt(sorted, i))
    requires SortedWith(sorted, RowLe(sortBy, dirFactor, 1))
    ensures SortedWith(table, RowLe(sortBy, dirFactor, 1))
  {
    forall i, j | 0 <= i < j < |table| ensures RowLe(sortBy, dirFactor, 1)(table[i], table[j]) {
      assert RowLe(sortBy, dirFactor, 1)(sorted[i], sorted[j]);
      CompareIgnoresRank(sortBy, dirFactor, sorted[i], sorted[j], RankAt(sorted, i), RankAt(sorted, j));
    }
  }

  /** The comparator does not read the rank. */
  lemma CompareIgnoresRank(sortBy: SortBy, dirFactor: int, a: Row, b: Row, ra: nat, rb: nat)
    ensures Compare(sortBy, dirFactor, 1, a.(rank := ra), b.(rank := rb)) == Compare(sortBy, dirFactor, 1, a, b)
  {
  }

  /** The written ranks are the competition ranks of the table itself. */
  lemma RankedRanks(sorted: seq<Row>, table: seq<Row>)
    requires |table| == |sorted|
    requires forall i :: 0 <= i < |sorted| ==> table[i] == sorted[i].(rank := RankAt(sorted, i))
    ensures forall i :: 0 <= i < |table| ==> table[i].rank == RankAt(table, i)
  {
    forall i | 0 <= i < |table| ensures table[i].rank == RankAt(table, i) {
      RankAtScores(sorted, table, i);
    }
  }

  /** Writing the ranks keeps every row's player, counts and profile. */
  lemma RankedRows(sorted: seq<Row>, table: seq<Row>, players: seq<Player>, plays: seq<PlayEntry>)
    requires |table| == |sorted|
    requires forall i :: 0 <= i < |sorted| ==> table[i] == sorted[i].(rank := RankAt(sorted, i))
    requires DistinctPlayers(sorted)
    requires forall r :: r in sorted ==> Tallied(r, plays) && Profiled(r, players)
    ensures DistinctPlayers(table)
    ensures forall u :: HasRow(table, u) <==> HasRow(sorted, u)
    ensures forall r :: r in table ==> Tallied(r, plays) && Profiled(r, players)
  {
    forall r | r in table ensures Tallied(r, plays) && Profiled(r, players) {
      var j :| 0 <= j < |table| && table[j] == r;
      assert sorted[j] in sorted;
    }
    forall u ensures HasRow(table, u) <==> HasRow(sorted, u) {
      if HasRow(sorted, u) {
        var j :| 0 <= j < |sorted| && sorted[j].playerId == u;
        assert table[j].playerId == u;
      }
    }
  }
}
