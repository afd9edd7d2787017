/**
 * The riddle list of a playtime (`{_id, done}[]`) and the `findIndex` scans
 * and single-slot update that both engines run over it.
 */
module RiddleList {
  import opened Store
  import opened Pointers

  /** No riddle id occurs twice. */
  predicate Distinct(ids: seq<Id>)
  {
    forall i, j :: 0 <= i < j < |ids| ==> ids[i] != ids[j]
  }

  /** `ids.map(r => ({ _id: r, done: false }))`: the list a new playtime starts with. */
  function AllUndone(ids: seq<Id>): (rs: seq<RiddleRef>)
    ensures |rs| == |ids|
    ensures RiddleIds(rs) == ids
    ensures forall i :: 0 <= i < |rs| ==> rs[i] == RiddleRef(ids[i], false)
  {
    seq(|ids|, i requires 0 <= i < |ids| => RiddleRef(ids[i], false))
  }

  /** `riddles.findIndex(r => r._id === id)`, `-1` when absent. */
  function FindIndexById(rs: seq<RiddleRef>, id: Id): (r: int)
    ensures -1 <= r < |rs|
    ensures r == -1 <==> forall i :: 0 <= i < |rs| ==> rs[i].id != id
    ensures r >= 0 ==> rs[r].id == id && forall i :: 0 <= i < r ==> rs[i].id != id
  {
    if rs == [] then -1
    else if rs[0].id == id then 0
    else
      var k := FindIndexById(rs[1..], id);
      if k == -1 then -1 else k + 1
  }

  /** `riddles.findIndex(r => !r.done)`, `-1` when every riddle is done. */
  function FindFirstUndone(rs: seq<RiddleRef>): (r: int)
    ensures -1 <= r < |rs|
    ensures r == -1 <==> forall i :: 0 <= i < |rs| ==> rs[i].done
    ensures r >= 0 ==> !rs[r].done && forall i :: 0 <= i < r ==> rs[i].done
  {
    if rs == [] then -1
    else if !rs[0].done then 0
    else
      var k := FindFirstUndone(rs[1..]);
      if k == -1 then -1 else k + 1
  }

  /**
   * The first position at or after `from` whose riddle is not done, or
   * `|rs|` when there is none (the forward scans of both engines).
   */
  function NextUndoneFrom(rs: seq<RiddleRef>, from: nat): (r: nat)
    requires from <= |rs|
    ensures from <= r <= |rs|
    ensures r < |rs| ==> !rs[r].done
    ensures forall i :: from <= i < r ==> rs[i].done
    decreases |rs| - from
  {
    if from == |rs| || !rs[from].done then from else NextUndoneFrom(rs, from + 1)
  }

  /** `{ ...rs[i], done: true }` written back into slot `i` of a copy. */
  function MarkDone(rs: seq<RiddleRef>, i: nat): (r: seq<RiddleRef>)
    requires i < |rs|
    ensures |r| == |rs|
    ensures r[i] == RiddleRef(rs[i].id, true)
    ensures forall k :: 0 <= k < |rs| && k != i ==> r[k] == rs[k]
    ensures RiddleIds(r) == RiddleIds(rs)
  {
    rs[i := rs[i].(done := true)]
  }

  /** How many riddles are marked done. */
  function DoneCount(rs: seq<RiddleRef>): (n: nat)
    ensures n <= |rs|
  {
    if rs == [] then 0 else (if rs[0].done then 1 else 0) + DoneCount(rs[1..])
  }

  /** Marking a riddle done adds one to the done count exactly when it was not done. */
  lemma {:induction false} DoneCountMarkDone(rs: seq<RiddleRef>, i: nat)
    requires i < |rs|
    ensures DoneCount(MarkDone(rs, i)) == DoneCount(rs) + (if rs[i].done then 0 else 1)
  {
    var r := MarkDone(rs, i);
    if i == 0 {
      assert r[1..] == rs[1..];
    } else {
      assert r[1..] == MarkDone(rs[1..], i - 1);
      DoneCountMarkDone(rs[1..], i - 1);
    }
  }

  /** When the first `k` riddles are done and the rest are not, the done count is `k`. */
  lemma {:induction false} DoneCountPrefix(rs: seq<RiddleRef>, k: nat)
    requires k <= |rs|
    requires forall i :: 0 <= i < |rs| ==> (rs[i].done <==> i < k)
    ensures DoneCount(rs) == k
  {
    if rs != [] {
      DoneCountPrefix(rs[1..], if k == 0 then 0 else k - 1);
    }
  }

  /** The id of a riddle occurs at its own position first when the ids are distinct. */
  lemma FindIndexOfDistinct(rs: seq<RiddleRef>, k: nat)
    requires k < |rs| && Distinct(RiddleIds(rs))
    ensures FindIndexById(rs, rs[k].id) == k
  {
    var r := FindIndexById(rs, rs[k].id);
    assert RiddleIds(rs)[r] == RiddleIds(rs)[k];
  }

  /** A position that is undone (or the end) with only done riddles before it from `from` is the scan's answer. */
  lemma NextUndoneFromUnique(rs: seq<RiddleRef>, from: nat, j: nat)
    requires from <= j <= |rs|
    requires j < |rs| ==> !rs[j].done
    requires forall k :: from <= k < j ==> rs[k].done
    ensures NextUndoneFrom(rs, from) == j
  {
  }

  /** The forward scan both engines run for the next riddle not done (`while` in the solo engine, `for` in the room engine). */
  method ScanNextUndone(rs: seq<RiddleRef>, from: nat) returns (j: nat)
    requires from <= |rs|
    ensures j == NextUndoneFrom(rs, from)
  {
    j := from;
    while j < |rs| && rs[j].done
      invariant from <= j <= |rs|
      invariant forall k :: from <= k < j ==> rs[k].done
    {
      j := j + 1;
    }
    NextUndoneFromUnique(rs, from, j);
  }
}
