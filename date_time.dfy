/**
 * Relative ages for the client (`src/utils/dateTimeHelper.ts`): "just
 * now", "3min ago", "in 2hr". Timestamps below 10^12 are read as seconds.
 * Time is modelled in whole milliseconds, so `Math.round` of a quotient of
 * non-negative integers is written out as round-half-up integer division.
 */
module TimeAgo {
  import opened Text

  const SECOND: nat := 1000
  const MINUTE: nat := 60 * SECOND
  const HOUR: nat := 60 * MINUTE
  const DAY: nat := 24 * HOUR
  const WEEK: nat := 7 * DAY
  /** An approximate month of 30 days. */
  const MONTH: nat := 30 * DAY
  /** An approximate year of 365 days. */
  const YEAR: nat := 365 * DAY

  /** Timestamps below this are taken to be in seconds. */
  const SECONDS_CUTOFF: int := 1_000_000_000_000

  /** The timestamp in milliseconds: a value below 10^12 is scaled from seconds. */
  function ToMillis(t: int): (r: int)
    ensures t < SECONDS_CUTOFF ==> r == t * 1000
    ensures t >= SECONDS_CUTOFF ==> r == t
  {
    if t < SECONDS_CUTOFF then t * 1000 else t
  }

  /** A seconds timestamp and the same instant in milliseconds give the same time. */
  lemma SecondsAndMillisAgree(s: int)
    requires SECONDS_CUTOFF / 1000 <= s < SECONDS_CUTOFF
    ensures ToMillis(s) == ToMillis(s * 1000)
  {
  }

  /** `Math.round(n / d)` for `n >= 0`: the nearest integer, a half rounded up. */
  function RoundDiv(n: nat, d: nat): (r: nat)
    requires d > 0
    ensures 2 * d * r <= 2 * n + d < 2 * d * (r + 1)
  {
    var q := (2 * n + d) / (2 * d);
    assert 2 * n + d == 2 * d * q + (2 * n + d) % (2 * d);
    q
  }

  /** An age: under 45 seconds, or a rounded count of one unit. */
  datatype Span = JustNow | Units(count: nat, unit: string)

  /** The unit labels, smallest first. */
  const LABELS: seq<string> := ["s", "min", "hr", "day", "wk", "mo", "yr"]

  /** The length of a unit in milliseconds. */
  function UnitMs(unit: string): (r: nat)
    ensures r > 0
  {
    if unit == "s" then SECOND
    else if unit == "min" then MINUTE
    else if unit == "hr" then HOUR
    else if unit == "day" then DAY
    else if unit == "wk" then WEEK
    else if unit == "mo" then MONTH
    else YEAR
  }

  /** The shortest age written in a unit. */
  function UnitFloor(unit: string): nat
  {
    if unit == "s" then 45 * SECOND else UnitMs(unit)
  }

  /** The shortest age written in the next unit up ("yr" has none). */
  function UnitCeiling(unit: string): nat
  {
    if unit == "s" then MINUTE
    else if unit == "min" then HOUR
    else if unit == "hr" then DAY
    else if unit == "day" then WEEK
    else if unit == "wk" then MONTH
    else YEAR
  }

  /**
   * The age of a non-negative difference: "just now" under 45 seconds,
   * otherwise the one unit whose range holds the difference, with the
   * difference divided by it and rounded half up.
   */
  function SpanOf(diff: nat): (r: Span)
    ensures r.JustNow? <==> diff < 45 * SECOND
    ensures r.Units? ==>
              && r.unit in LABELS
              && UnitFloor(r.unit) <= diff
              && (r.unit != "yr" ==> diff < UnitCeiling(r.unit))
              && r.count == RoundDiv(diff, UnitMs(r.unit))
              && r.count >= 1
  {
    if diff < 45 * SECOND then JustNow
    else if diff < MINUTE then Units(RoundDiv(diff, SECOND), "s")
    else if diff < HOUR then Units(RoundDiv(diff, MINUTE), "min")
    else if diff < DAY then Units(RoundDiv(diff, HOUR), "hr")
    else if diff < WEEK then Units(RoundDiv(diff, DAY), "day")
    else if diff < MONTH then Units(RoundDiv(diff, WEEK), "wk")
    else if diff < YEAR then Units(RoundDiv(diff, MONTH), "mo")
    else Units(RoundDiv(diff, YEAR), "yr")
  }

  /** The unit ranges do not overlap: a difference fits exactly one unit. */
  lemma UnitRangesDisjoint(diff: nat, a: string, b: string)
    requires a in LABELS && b in LABELS
    requires UnitFloor(a) <= diff && (a != "yr" ==> diff < UnitCeiling(a))
    requires UnitFloor(b) <= diff && (b != "yr" ==> diff < UnitCeiling(b))
    ensures a == b
  {
  }

  /**
   * `timeAgo(creationTime, { nowMs, short, allowFuture })`: "just now"
   * within 45 seconds either way; otherwise the count and unit, prefixed
   * "in " for a future time when `allowFuture`, else followed by " ago"
   * unless `short`.
   */
  function TimeAgo(creationTime: int, nowMs: int, short: bool, allowFuture: bool): (r: string)
    ensures var diff := nowMs - ToMillis(creationTime);
            var span := SpanOf(if diff < 0 then -diff else diff);
            && (span.JustNow? ==> r == "just now")
            && (span.Units? && diff < 0 && allowFuture ==> r == "in " + NatToString(span.count) + span.unit)
            && (span.Units? && !(diff < 0 && allowFuture) && short ==> r == NatToString(span.count) + span.unit)
            && (span.Units? && !(diff < 0 && allowFuture) && !short ==>
                  r == NatToString(span.count) + span.unit + " ago")
  {
    var timeMs := ToMillis(creationTime);
    var diffMs := nowMs - timeMs;
    var inFuture := diffMs < 0;
    var span := SpanOf(if inFuture then -diffMs else diffMs);
    if span.JustNow? then "just now"
    else
      var out := NatToString(span.count) + span.unit;
      if inFuture then
        (if allowFuture then "in " + out else if short then out else out + " ago")
      else if short then out
      else out + " ago"
  }

  /** Within 45 seconds either way the answer is "just now", whatever the options. */
  lemma NearIsJustNow(creationTime: int, nowMs: int, short: bool, allowFuture: bool)
    requires -45 * SECOND < nowMs - ToMillis(creationTime) < 45 * SECOND
    ensures TimeAgo(creationTime, nowMs, short, allowFuture) == "just now"
  {
  }

  /** The worked examples of the helper's documentation, for a millisecond clock. */
  lemma DocumentedExamples(now: int)
    requires now >= SECONDS_CUTOFF + YEAR
    ensures TimeAgo(now - 3 * MINUTE, now, false, true) == "3min ago"
    ensures TimeAgo(now - HOUR, now, false, true) == "1hr ago"
    ensures TimeAgo(now - DAY, now, false, true) == "1day ago"
    ensures TimeAgo(now - 90 * SECOND, now, false, true) == "2min ago"
    ensures TimeAgo(now - 3 * MINUTE, now, true, true) == "3min"
  {
    assert SpanOf(3 * MINUTE) == Units(3, "min");
    assert SpanOf(HOUR) == Units(1, "hr");
    assert SpanOf(DAY) == Units(1, "day");
    assert SpanOf(90 * SECOND) == Units(2, "min");
    assert NatToString(1) == "1" && NatToString(2) == "2" && NatToString(3) == "3";
  }

  /**
   * The documentation's seconds example: a seconds timestamp one minute
   * before the millisecond clock `now` (truncated to whole seconds) reads
   * "1min ago".
   */
  lemma SecondsExample(now: int)
    requires SECONDS_CUTOFF <= now < 1000 * SECONDS_CUTOFF
    ensures TimeAgo(now / 1000 - 60, now, false, true) == "1min ago"
  {
    var t := now / 1000 - 60;
    assert t < SECONDS_CUTOFF;
    var diff := now - t * 1000;
    assert diff == 60 * SECOND + now % 1000;
    assert RoundDiv(diff, MINUTE) == 1;
    assert SpanOf(diff) == Units(1, "min");
    assert NatToString(1) == "1";
  }
}
