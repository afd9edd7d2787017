/**
 * convex/playtime.ts: the solo progression engine over the `playtimes`
 * table. A session walks its riddles in array order; each advance files
 * the current riddle under one outcome bucket and moves the pointer to the
 * next riddle that is not done.
 */
module SoloPlaytime {
  import opened Wrappers
  import opened Store
  import opened Pointers
  import opened RiddleList

  /** The row `savePlaytime` inserts for a new session. */
  function NewPlaytime(userId: Id, ids: seq<Id>, secondsPerRiddle: int): (p: Playtime)
    ensures p.userId == userId && p.secondsPerRiddle == secondsPerRiddle
    ensures RiddleIds(p.riddles) == ids
    ensures forall i :: 0 <= i < |p.riddles| ==> !p.riddles[i].done
    ensures p.current == (if |ids| > 0 then Some(ids[0]) else None)
    ensures p.previous == None
    ensures p.next == (if |ids| > 1 then Some(ids[1]) else None)
    ensures p.playing
    ensures p.corrects == [] && p.incorrects == [] && p.skipped == []
  {
    var riddles := AllUndone(ids);
    var firstIdx := FindFirstUndone(riddles);
    var ptr := ComputePointersFromIndex(riddles, if firstIdx == -1 then None else Some(firstIdx));
    Playtime(userId, riddles, [], [], [], true, secondsPerRiddle, ptr.current, ptr.previous, ptr.next)
  }

  /** `savePlaytime`: inserts one new session row and returns its id. */
  method SavePlaytime(db: Db, userId: Id, riddleIds: seq<Id>, secondsPerRiddle: int) returns (id: Id)
    requires db.Valid()
    modifies db`playtimes, db`nextId
    ensures db.Valid()
    ensures id !in old(db.playtimes)
    ensures db.playtimes == old(db.playtimes)[id := NewPlaytime(userId, riddleIds, secondsPerRiddle)]
  {
    var row := NewPlaytime(userId, riddleIds, secondsPerRiddle);
    id := db.NewId();
    db.playtimes := db.playtimes[id := row];
  }

  /**
   * The riddle an advance resolves: `current` looked up by id, else the
   * first riddle not done; `-1` when neither exists.
   */
  function ResolveIndex(p: Playtime): (i: int)
    ensures -1 <= i < |p.riddles|
    ensures p.current.Some? && FindIndexById(p.riddles, p.current.value) >= 0 ==>
              i == FindIndexById(p.riddles, p.current.value)
    ensures (p.current.None? || FindIndexById(p.riddles, p.current.value) == -1) ==>
              i == FindFirstUndone(p.riddles)
  {
    var byId := if p.current.Some? then FindIndexById(p.riddles, p.current.value) else -1;
    if byId == -1 then FindFirstUndone(p.riddles) else byId
  }

  /** The bucket an outcome is filed under: anything but correct or incorrect counts as skipped. */
  function BucketOf(result: Outcome): (b: Outcome)
    ensures b != TimedOut
    ensures result != TimedOut ==> b == result
  {
    match result
    case Correct => Correct
    case Incorrect => Incorrect
    case _ => Skipped
  }

  /** The ids filed under bucket `b`. */
  function BucketIds(p: Playtime, b: Outcome): seq<Id>
  {
    match b
    case Correct => p.corrects
    case Incorrect => p.incorrects
    case _ => p.skipped
  }

  /** Sum of the three bucket lengths: what the client compares to the riddle count. */
  function BucketTotal(p: Playtime): nat
  {
    |p.corrects| + |p.incorrects| + |p.skipped|
  }

  /**
   * The row after resolving riddle `i` with `result` when the scan for the
   * next riddle stopped at `next` (`|riddles|` when it found none).
   */
  function Moved(p: Playtime, i: nat, next: nat, result: Outcome): Playtime
    requires i < |p.riddles|
  {
    var riddles := MarkDone(p.riddles, i);
    var id := p.riddles[i].id;
    var ptr := ComputePointersFromIndex(riddles, if next < |riddles| then Some(next) else None);
    p.(riddles := riddles,
       corrects := if BucketOf(result) == Correct then p.corrects + [id] else p.corrects,
       incorrects := if BucketOf(result) == Incorrect then p.incorrects + [id] else p.incorrects,
       skipped := if BucketOf(result) == Skipped then p.skipped + [id] else p.skipped,
       previous := ptr.previous,
       current := ptr.current,
       next := ptr.next,
       playing := next < |riddles|)
  }

  /** The new row after one advance with `result` (the whole patch of `advancePlaytime`). */
  function Advance(p: Playtime, result: Outcome): Playtime
  {
    var i := ResolveIndex(p);
    if i == -1 then p.(playing := false)
    else Moved(p, i, NextUndoneFrom(MarkDone(p.riddles, i), i + 1), result)
  }

  /** Unfolds `Advance` once a riddle resolves. */
  lemma AdvanceResolved(p: Playtime, result: Outcome)
    requires ResolveIndex(p) >= 0
    ensures var i := ResolveIndex(p);
            Advance(p, result) == Moved(p, i, NextUndoneFrom(MarkDone(p.riddles, i), i + 1), result)
  {
  }

  /** The computation of `advancePlaytime` between its read and its patch. */
  method AdvanceRow(p: Playtime, result: Outcome) returns (q: Playtime)
    ensures q == Advance(p, result)
  {
    var currentIndex := -1;
    if p.current.Some? {
      currentIndex := FindIndexById(p.riddles, p.current.value);
    }
    if currentIndex == -1 {
      currentIndex := FindFirstUndone(p.riddles);
      if currentIndex == -1 {
        return p.(playing := false);
      }
    }
    assert currentIndex == ResolveIndex(p);
    var updatedRiddles := MarkDone(p.riddles, currentIndex);
    var nextIndex := ScanNextUndone(updatedRiddles, currentIndex + 1);
    assert updatedRiddles == MarkDone(p.riddles, ResolveIndex(p));
    assert nextIndex == NextUndoneFrom(MarkDone(p.riddles, ResolveIndex(p)), ResolveIndex(p) + 1);
    AdvanceResolved(p, result);
    q := Moved(p, currentIndex, nextIndex, result);
  }

  /** `advancePlaytime`: fails on a missing row, otherwise patches it with `Advance`. */
  method AdvancePlaytime(db: Db, playtimeId: Id, result: Outcome) returns (r: Result<Unit>)
    requires db.Valid()
    modifies db`playtimes
    ensures db.Valid()
    ensures playtimeId !in old(db.playtimes) ==> r == Err("Playtime not found") && db.playtimes == old(db.playtimes)
    ensures playtimeId in old(db.playtimes) ==>
              && r == Ok(Unit)
              && db.playtimes == old(db.playtimes)[playtimeId := Advance(old(db.playtimes[playtimeId]), result)]
  {
    if playtimeId !in db.playtimes {
      return Err("Playtime not found");
    }
    var row := AdvanceRow(db.playtimes[playtimeId], result);
    db.playtimes := db.playtimes[playtimeId := row];
    r := Ok(Unit);
  }

  // ------------------------------------------------------------ one advance

  /** With no riddle to resolve, the only change is `playing := false`. */
  lemma AdvanceWhenNothingLeft(p: Playtime, result: Outcome)
    requires p.current.None? || FindIndexById(p.riddles, p.current.value) == -1
    requires forall k :: 0 <= k < |p.riddles| ==> p.riddles[k].done
    ensures Advance(p, result) == p.(playing := false)
  {
  }

  /** Exactly the resolved riddle becomes done; the list keeps its length and ids. */
  lemma AdvanceMarksOne(p: Playtime, result: Outcome)
    requires ResolveIndex(p) >= 0
    ensures var q, i := Advance(p, result), ResolveIndex(p);
            && |q.riddles| == |p.riddles|
            && RiddleIds(q.riddles) == RiddleIds(p.riddles)
            && q.riddles[i].done
            && forall k :: 0 <= k < |p.riddles| && k != i ==> q.riddles[k] == p.riddles[k]
  {
  }

  /** The resolved id is appended to exactly one bucket, chosen by the outcome; the others are untouched. */
  lemma AdvanceFilesOnce(p: Playtime, result: Outcome)
    requires ResolveIndex(p) >= 0
    ensures var q, id := Advance(p, result), p.riddles[ResolveIndex(p)].id;
            && BucketIds(q, BucketOf(result)) == BucketIds(p, BucketOf(result)) + [id]
            && (forall b :: b != TimedOut && b != BucketOf(result) ==> BucketIds(q, b) == BucketIds(p, b))
            && BucketTotal(q) == BucketTotal(p) + 1
  {
  }

  /**
   * The new current riddle is the first not-done riddle strictly after the
   * resolved one (no wrap-around); `playing` says whether there is one.
   */
  lemma AdvanceMovesForward(p: Playtime, result: Outcome)
    requires ResolveIndex(p) >= 0
    ensures MovesForward(Advance(p, result), ResolveIndex(p))
  {
    var i := ResolveIndex(p);
    var j := NextUndoneFrom(MarkDone(p.riddles, i), i + 1);
    var q := Moved(p, i, j, result);
    MovedPointers(p, i, j, result);
    assert MovesForward(q, i);
    AdvanceResolved(p, result);
    assert Advance(p, result) == q;
  }

  /**
   * After resolving riddle `i`: `playing` says whether a riddle is current;
   * none is exactly when every riddle after `i` is done, and then there are
   * no neighbours either; otherwise the current riddle is the first not
   * done after `i`.
   */
  ghost predicate MovesForward(q: Playtime, i: nat)
  {
    && (q.playing <==> q.current.Some?)
    && (q.current.None? <==> forall k :: i < k < |q.riddles| ==> q.riddles[k].done)
    && (q.current.None? ==> q.previous.None? && q.next.None?)
    && (q.current.Some? ==> (exists j :: i < j < |q.riddles| && NextAfter(q, i, j)))
  }

  /** `AdvanceMovesForward` for a known resolved index `i` and scan stop `j`. */
  lemma MovedPointers(p: Playtime, i: nat, j: nat, result: Outcome)
    requires i < |p.riddles| && j == NextUndoneFrom(MarkDone(p.riddles, i), i + 1)
    ensures MovesForward(Moved(p, i, j, result), i)
  {
    var rs := MarkDone(p.riddles, i);
    var q := Moved(p, i, j, result);
    assert q.riddles == rs;
    if j < |rs| {
      assert q.current == Some(rs[j].id) && q.playing;
      assert NextAfter(q, i, j);
    } else {
      assert q.current.None? && q.previous.None? && q.next.None? && !q.playing;
    }
  }

  /** Riddle `j` is the first not done after `i`, and the pointers name it and its neighbours. */
  ghost predicate NextAfter(q: Playtime, i: nat, j: nat)
    requires j < |q.riddles|
  {
    && !q.riddles[j].done
    && (forall k :: i < k < j ==> q.riddles[k].done)
    && q.current == Some(q.riddles[j].id)
    && (j > 0 ==> q.previous == Some(q.riddles[j - 1].id))
    && q.next == (if j + 1 < |q.riddles| then Some(q.riddles[j + 1].id) else None)
  }

  /**
   * Score conservation: when the resolved riddle was not done, one advance
   * adds one to both the bucket total and the done count, so
   * "bucket total = number done" is preserved.
   */
  lemma AdvanceConserves(p: Playtime, result: Outcome)
    requires ResolveIndex(p) >= 0 && !p.riddles[ResolveIndex(p)].done
    ensures BucketTotal(Advance(p, result)) == BucketTotal(p) + 1
    ensures DoneCount(Advance(p, result).riddles) == DoneCount(p.riddles) + 1
    ensures BucketTotal(p) == DoneCount(p.riddles) ==>
              BucketTotal(Advance(p, result)) == DoneCount(Advance(p, result).riddles)
  {
    DoneCountMarkDone(p.riddles, ResolveIndex(p));
  }

  // ------------------------------------------------------- a whole session

  /** The ids of the first `|rs|` riddles whose outcome is filed under bucket `b`, in array order. */
  function Filed(ids: seq<Id>, rs: seq<Outcome>, b: Outcome): (f: seq<Id>)
    requires |rs| <= |ids|
    ensures |f| <= |rs|
    decreases |rs|
  {
    if rs == [] then []
    else Filed(ids, rs[..|rs| - 1], b) + (if BucketOf(rs[|rs| - 1]) == b then [ids[|rs| - 1]] else [])
  }

  /**
   * Reference definition of a session: the row after answering the first
   * `|rs|` riddles in array order with outcomes `rs`.
   */
  function SessionAfter(userId: Id, ids: seq<Id>, secondsPerRiddle: int, rs: seq<Outcome>): (p: Playtime)
    requires |rs| <= |ids|
  {
    var k := |rs|;
    var ptr := PointersAt(ids, if k < |ids| then Some(k) else None);
    Playtime(userId,
             seq(|ids|, i requires 0 <= i < |ids| => RiddleRef(ids[i], i < k)),
             Filed(ids, rs, Correct), Filed(ids, rs, Incorrect), Filed(ids, rs, Skipped),
             k < |ids|, secondsPerRiddle, ptr.current, ptr.previous, ptr.next)
  }

  /** `n` advances in a row. */
  function AdvanceAll(p: Playtime, rs: seq<Outcome>): Playtime
    decreases |rs|
  {
    if rs == [] then p else AdvanceAll(Advance(p, rs[0]), rs[1..])
  }

  /** A fresh non-empty session is the reference session before any answer. */
  lemma SessionStart(userId: Id, ids: seq<Id>, secondsPerRiddle: int)
    requires |ids| > 0
    ensures NewPlaytime(userId, ids, secondsPerRiddle) == SessionAfter(userId, ids, secondsPerRiddle, [])
  {
    var p := NewPlaytime(userId, ids, secondsPerRiddle);
    var s := SessionAfter(userId, ids, secondsPerRiddle, []);
    assert p.riddles == s.riddles;
  }

  /** One advance moves the reference session from `rs` to `rs + [o]`. */
  lemma SessionStep(userId: Id, ids: seq<Id>, secondsPerRiddle: int, rs: seq<Outcome>, o: Outcome)
    requires Distinct(ids) && |rs| < |ids|
    ensures Advance(SessionAfter(userId, ids, secondsPerRiddle, rs), o)
            == SessionAfter(userId, ids, secondsPerRiddle, rs + [o])
  {
    var k := |rs|;
    var p := SessionAfter(userId, ids, secondsPerRiddle, rs);
    var s := SessionAfter(userId, ids, secondsPerRiddle, rs + [o]);
    assert RiddleIds(p.riddles) == ids;
    FindIndexOfDistinct(p.riddles, k);
    assert ResolveIndex(p) == k;
    var riddles := MarkDone(p.riddles, k);
    assert riddles == s.riddles;
    NextUndoneFromUnique(riddles, k + 1, k + 1);
    assert (rs + [o])[..|rs + [o]| - 1] == rs;
    assert RiddleIds(riddles) == ids;
  }

  /** Answering in order from the fresh session always yields the reference session. */
  lemma {:induction false} SessionRun(userId: Id, ids: seq<Id>, secondsPerRiddle: int, rs: seq<Outcome>)
    requires Distinct(ids) && |ids| > 0 && |rs| <= |ids|
    ensures AdvanceAll(NewPlaytime(userId, ids, secondsPerRiddle), rs) == SessionAfter(userId, ids, secondsPerRiddle, rs)
  {
    SessionStart(userId, ids, secondsPerRiddle);
    SessionRunFrom(userId, ids, secondsPerRiddle, [], rs);
    assert [] + rs == rs;
  }

  /** From any point of the reference session, further in-order answers stay on it. */
  lemma {:induction false} SessionRunFrom(userId: Id, ids: seq<Id>, secondsPerRiddle: int, done: seq<Outcome>, rs: seq<Outcome>)
    requires Distinct(ids) && |done| + |rs| <= |ids|
    ensures AdvanceAll(SessionAfter(userId, ids, secondsPerRiddle, done), rs)
            == SessionAfter(userId, ids, secondsPerRiddle, done + rs)
    decreases |rs|
  {
    if rs == [] {
      assert done + rs == done;
    } else {
      var here := SessionAfter(userId, ids, secondsPerRiddle, done);
      var there := SessionAfter(userId, ids, secondsPerRiddle, done + [rs[0]]);
      SessionStep(userId, ids, secondsPerRiddle, done, rs[0]);
      var done' := done + [rs[0]];
      assert done' + rs[1..] == done + rs;
      SessionRunFrom(userId, ids, secondsPerRiddle, done', rs[1..]);
      calc {
        AdvanceAll(here, rs);
        AdvanceAll(Advance(here, rs[0]), rs[1..]);
        AdvanceAll(there, rs[1..]);
        SessionAfter(userId, ids, secondsPerRiddle, done' + rs[1..]);
      }
    }
  }

  /** Every answered riddle is filed exactly once. */
  lemma {:induction false} FiledTotal(ids: seq<Id>, rs: seq<Outcome>)
    requires |rs| <= |ids|
    ensures |Filed(ids, rs, Correct)| + |Filed(ids, rs, Incorrect)| + |Filed(ids, rs, Skipped)| == |rs|
    decreases |rs|
  {
    if rs != [] {
      FiledTotal(ids, rs[..|rs| - 1]);
    }
  }

  /** The client's completion test: the three bucket lengths add up to the riddle count. */
  predicate ClientFinished(p: Playtime)
  {
    BucketTotal(p) == |p.riddles|
  }

  /**
   * After `n` in-order answers of a session with `n` distinct riddles, the
   * pointer is cleared, `playing` is false, the client sees the session as
   * finished, and each bucket lists its riddles in array order. Before that,
   * the session is still playing and the client does not see it finished.
   */
  lemma SessionEnds(userId: Id, ids: seq<Id>, secondsPerRiddle: int, rs: seq<Outcome>)
    requires Distinct(ids) && |ids| > 0 && |rs| <= |ids|
    ensures var p := AdvanceAll(NewPlaytime(userId, ids, secondsPerRiddle), rs);
            && (ClientFinished(p) <==> |rs| == |ids|)
            && (p.playing <==> |rs| < |ids|)
            && (p.current.None? <==> |rs| == |ids|)
            && (|rs| < |ids| ==> p.current == Some(ids[|rs|]))
            && p.corrects == Filed(ids, rs, Correct)
            && p.incorrects == Filed(ids, rs, Incorrect)
            && p.skipped == Filed(ids, rs, Skipped)
            && BucketTotal(p) == DoneCount(p.riddles)
  {
    SessionRun(userId, ids, secondsPerRiddle, rs);
    FiledTotal(ids, rs);
    var p := SessionAfter(userId, ids, secondsPerRiddle, rs);
    DoneCountPrefix(p.riddles, |rs|);
  }
}
