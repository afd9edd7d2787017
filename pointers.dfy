/**
 * convex/utils/fns.ts: the pointer calculator shared by both game engines
 * and the room-code generator. Random bytes are an input.
 */
module Pointers {
  import opened Wrappers
  import opened Store
  import opened Text

  /** `{previous, current, next, currentIndex}` around one position of a list. */
  datatype Triple<T> = Triple(previous: Option<T>, current: Option<T>, next: Option<T>, currentIndex: Option<nat>)

  /**
   * The pointer triple for position `idx` of `ids` (`idx` is `null` when
   * `None`). Total, and it does not wrap around at either end.
   */
  function PointersAt<T>(ids: seq<T>, idx: Option<int>): (p: Triple<T>)
    ensures (idx.None? || idx.value < 0 || idx.value >= |ids|) <==> p == Triple(None, None, None, None)
    ensures idx.Some? && 0 <= idx.value < |ids| ==>
      && p.current == Some(ids[idx.value])
      && p.currentIndex == Some(idx.value)
      && (p.previous.Some? <==> idx.value > 0)
      && (p.previous.Some? ==> p.previous.value == ids[idx.value - 1])
      && (p.next.Some? <==> idx.value < |ids| - 1)
      && (p.next.Some? ==> p.next.value == ids[idx.value + 1])
  {
    if idx.None? || idx.value < 0 || idx.value >= |ids| then Triple(None, None, None, None)
    else
      var i := idx.value;
      Triple(if i - 1 >= 0 then Some(ids[i - 1]) else None,
             Some(ids[i]),
             if i + 1 < |ids| then Some(ids[i + 1]) else None,
             Some(i))
  }

  /** The ids of a riddle list, position by position (the `_id` field). */
  function RiddleIds(arr: seq<RiddleRef>): (ids: seq<Id>)
    ensures |ids| == |arr|
    ensures forall i :: 0 <= i < |arr| ==> ids[i] == arr[i].id
  {
    seq(|arr|, i requires 0 <= i < |arr| => arr[i].id)
  }

  /** `computePointersFromIndex`: the pointer triple over a riddle list's ids. */
  function ComputePointersFromIndex(arr: seq<RiddleRef>, idx: Option<int>): (p: Triple<Id>)
    ensures p == PointersAt(RiddleIds(arr), idx)
  {
    if idx.None? || idx.value < 0 || idx.value >= |arr| then Triple(None, None, None, None)
    else
      var i := idx.value;
      Triple(if i - 1 >= 0 then Some(arr[i - 1].id) else None,
             Some(arr[i].id),
             if i + 1 < |arr| then Some(arr[i + 1].id) else None,
             Some(i))
  }

  /** `computeRiddlePointersFromIndex`: the same triple, with riddle-named fields. */
  function ComputeRiddlePointersFromIndex(arr: seq<RiddleRef>, idx: Option<int>): (p: Triple<Id>)
    ensures p == PointersAt(RiddleIds(arr), idx)
  {
    if idx.None? || idx.value < 0 || idx.value >= |arr| then Triple(None, None, None, None)
    else
      var i := idx.value;
      Triple(if i - 1 >= 0 then Some(arr[i - 1].id) else None,
             Some(arr[i].id),
             if i + 1 < |arr| then Some(arr[i + 1].id) else None,
             Some(i))
  }

  /** `computeUserPointersFromIndex`: the triple over a roster of user ids. */
  function ComputeUserPointersFromIndex(userIds: seq<Id>, idx: Option<int>): (p: Triple<Id>)
    ensures p == PointersAt(userIds, idx)
  {
    if idx.None? || idx.value < 0 || idx.value >= |userIds| then Triple(None, None, None, None)
    else
      var i := idx.value;
      Triple(if i - 1 >= 0 then Some(userIds[i - 1]) else None,
             Some(userIds[i]),
             if i + 1 < |userIds| then Some(userIds[i + 1]) else None,
             Some(i))
  }

  /** The three variants agree field for field on the same ids and index. */
  lemma VariantsAgree(arr: seq<RiddleRef>, idx: Option<int>)
    ensures ComputePointersFromIndex(arr, idx) == ComputeRiddlePointersFromIndex(arr, idx)
    ensures ComputeRiddlePointersFromIndex(arr, idx) == ComputeUserPointersFromIndex(RiddleIds(arr), idx)
  {
  }

  /** The triple depends on the ids by position only, never on the `done` flags. */
  lemma DoneFlagsIrrelevant(a: seq<RiddleRef>, b: seq<RiddleRef>, idx: Option<int>)
    requires |a| == |b| && forall i :: 0 <= i < |a| ==> a[i].id == b[i].id
    ensures ComputePointersFromIndex(a, idx) == ComputePointersFromIndex(b, idx)
    ensures ComputeRiddlePointersFromIndex(a, idx) == ComputeRiddlePointersFromIndex(b, idx)
  {
    assert RiddleIds(a) == RiddleIds(b);
  }

  // ---------------------------------------------------------------- room codes

  /** A random byte (`Uint8Array` element). */
  type Byte = b: int | 0 <= b < 256

  /** The alphabet of room codes; 0, O, 1, I and L are left out as easy to confuse. */
  const SAFE_CHARS: string := "ABCDEFGHJKMNPQRSTUVWXYZ23456789"

  predicate Confusable(c: char)
  {
    c == '0' || c == 'O' || c == '1' || c == 'I' || c == 'L'
  }

  /** No character of the alphabet is confusable, and it has 31 characters. */
  lemma SafeCharsAreSafe()
    ensures |SAFE_CHARS| == 31
    ensures forall i :: 0 <= i < |SAFE_CHARS| ==> !Confusable(SAFE_CHARS[i])
  {
  }

  /** The code that a buffer of random bytes spells: byte `b` picks `SAFE_CHARS[b % 31]`. */
  function CodeOf(bytes: seq<Byte>): (code: string)
    ensures |code| == |bytes|
    ensures forall i :: 0 <= i < |code| ==> code[i] in SAFE_CHARS && !Confusable(code[i])
  {
    SafeCharsAreSafe();
    seq(|bytes|, i requires 0 <= i < |bytes| => SAFE_CHARS[bytes[i] % |SAFE_CHARS|])
  }

  /** `makeCode(length)`, with the `length` random bytes it draws given as `bytes`. */
  method MakeCode(length: nat, bytes: seq<Byte>) returns (out: string)
    requires |bytes| == length
    ensures |out| == length
    ensures forall i :: 0 <= i < length ==> out[i] == SAFE_CHARS[bytes[i] % 31]
    ensures forall i :: 0 <= i < length ==> !Confusable(out[i])
    ensures out == CodeOf(bytes)
  {
    SafeCharsAreSafe();
    var chars := SAFE_CHARS;
    var n := |chars|;
    out := "";
    for i := 0 to length
      invariant |out| == i
      invariant forall k :: 0 <= k < i ==> out[k] == chars[bytes[k] % n]
    {
      out := out + [chars[bytes[i] % n]];
    }
  }

  /** The `existing` option: a `Set`, an array (turned into a set), or absent. */
  datatype Existing = NoExisting | ExistingSet(s: set<string>) | ExistingArray(a: seq<string>)

  function ExistingCodes(e: Existing): (r: Option<set<string>>)
    ensures e.NoExisting? <==> r.None?
    ensures e.ExistingArray? ==> r == Some(set x | x in e.a)
    ensures e.ExistingSet? ==> r == Some(e.s)
  {
    match e
    case NoExisting => None
    case ExistingSet(s) => Some(s)
    case ExistingArray(a) => Some(set x | x in a)
  }

  /** A candidate is accepted when no existing set is given or the set lacks it. */
  predicate Free(existing: Option<set<string>>, full: string)
  {
    existing.None? || full !in existing.value
  }

  /**
   * `generateRoomCode`: up to `maxAttempts` attempts, attempt `k` drawing the
   * bytes `draws[k]`; returns `prefix + code` for the first attempt that is not
   * in `existing`, and throws when every attempt collides.
   */
  method GenerateRoomCode(length: nat, maxAttempts: nat, existing: Existing, prefix: string, draws: seq<seq<Byte>>)
    returns (r: Result<string>)
    requires maxAttempts <= |draws|
    requires forall k :: 0 <= k < |draws| ==> |draws[k]| == length
    ensures r.Ok? <==> exists k :: 0 <= k < maxAttempts && Free(ExistingCodes(existing), prefix + CodeOf(draws[k]))
    ensures r.Ok? ==> (exists k :: 0 <= k < maxAttempts
                         && r.value == prefix + CodeOf(draws[k])
                         && Free(ExistingCodes(existing), r.value)
                         && forall j :: 0 <= j < k ==> !Free(ExistingCodes(existing), prefix + CodeOf(draws[j])))
    ensures r.Ok? ==> |r.value| == |prefix| + length
    ensures r.Err? ==> r.msg == ExhaustedMessage(maxAttempts)
  {
    var existingSet := ExistingCodes(existing);
    var attempt := 0;
    while attempt < maxAttempts
      invariant 0 <= attempt <= maxAttempts
      invariant forall j :: 0 <= j < attempt ==> !Free(existingSet, prefix + CodeOf(draws[j]))
    {
      var code := MakeCode(length, draws[attempt]);
      var full := prefix + code;
      if existingSet.None? || full !in existingSet.value {
        return Ok(full);
      }
      attempt := attempt + 1;
    }
    return Err(ExhaustedMessage(maxAttempts));
  }

  /** The error thrown after `maxAttempts` colliding attempts. */
  function ExhaustedMessage(maxAttempts: nat): string
  {
    "Unable to generate a unique room code after " + NatToString(maxAttempts) + " attempts. "
    + "Consider increasing length or maxAttempts, or check your existing set."
  }
}
