/**
 * Answer checking and distractor helpers (`convex/utils/riddleFns.ts`):
 * text normalisation, Levenshtein edit distance and the similarity built
 * on it, answer acceptance, and the random word mutations.
 */
module RiddleFns {
  import opened Wrappers
  import opened Text
  import opened Modular

  // ------------------------------------------------------------ normalizeText

  /** The characters the punctuation pass of `normalizeText` deletes. */
  predicate IsStripped(c: char)
  {
    c in ".,/#!$%^&*;:{}=-_`~()?\"'\\[]" || c == '\U{201C}' || c == '\U{201D}'
  }

  /** Deletes every stripped punctuation character (the global replace with ""). */
  function StripPunctuation(s: string): (r: string)
    ensures forall i :: 0 <= i < |r| ==> !IsStripped(r[i])
    ensures forall c :: c in r <==> c in s && !IsStripped(c)
  {
    if s == [] then []
    else
      var rest := StripPunctuation(s[1..]);
      assert forall c :: c in s <==> c == s[0] || c in s[1..] by {
        assert s == [s[0]] + s[1..];
      }
      if IsStripped(s[0]) then rest else [s[0]] + rest
  }

  /** Drops one leading `"a "`, `"an "` or `"the "`, tried in that order. */
  function DropArticle(s: string): (r: string)
    ensures |r| <= |s| && r == s[|s| - |r|..]
    ensures forall c :: c in r ==> c in s
  {
    var r := if |s| >= 2 && s[..2] == "a " then s[2..]
      else if |s| >= 3 && s[..3] == "an " then s[3..]
      else if |s| >= 4 && s[..4] == "the " then s[4..]
      else s;
    SuffixMembers(s, |s| - |r|);
    r
  }

  /** Every character of a suffix occurs in the whole string. */
  lemma SuffixMembers(s: string, k: nat)
    requires k <= |s|
    ensures forall c :: c in s[k..] ==> c in s
  {
    forall c | c in s[k..] ensures c in s {
      var i :| 0 <= i < |s[k..]| && s[k..][i] == c;
      assert s[k + i] == c;
    }
  }

  /** Replaces every run of white space by one space (`replace(/\s+/g, " ")`). */
  function CollapseWhitespace(s: string): (r: string)
    ensures forall c :: c in r ==> c == ' ' || (c in s && !IsWhitespace(c))
    ensures forall i :: 0 <= i < |r| - 1 ==> !(IsWhitespace(r[i]) && IsWhitespace(r[i + 1]))
    ensures r != [] && IsWhitespace(r[0]) ==> s != [] && IsWhitespace(s[0])
    decreases |s|
  {
    if s == [] then []
    else if IsWhitespace(s[0]) then
      var t := TrimStart(s);
      var rest := CollapseWhitespace(t);
      assert forall c :: c in t ==> c in s by {
        forall c | c in t ensures c in s {
          var k :| 0 <= k < |t| && t[k] == c;
          assert s[|s| - |t| + k] == c;
        }
      }
      [' '] + rest
    else
      var rest := CollapseWhitespace(s[1..]);
      assert forall c :: c in s[1..] ==> c in s;
      [s[0]] + rest
  }

  /** What `normalizeText` may output: no ASCII capital and no stripped punctuation. */
  predicate Clean(c: char)
  {
    !IsUpper(c) && !IsStripped(c)
  }

  /**
   * `normalizeText`: empty stays empty; otherwise lower-case, trim, delete
   * punctuation, drop a leading article and collapse white space. The
   * diacritic stripping (`NFD` then deleting combining marks) is the
   * identity on the characters modelled here.
   */
  function NormalizeText(s: string): (r: string)
    ensures s == [] ==> r == []
    ensures forall i :: 0 <= i < |r| ==> !IsUpper(r[i]) && !IsStripped(r[i])
    ensures forall i :: 0 <= i < |r| - 1 ==> !(IsWhitespace(r[i]) && IsWhitespace(r[i + 1]))
  {
    if s == [] then []
    else
      var lowered := Trim(ToLower(s));
      TrimmedLowerHasNoUpper(s);
      var stripped := StripPunctuation(lowered);
      var bare := DropArticle(stripped);
      assert forall c :: c in bare ==> Clean(c);
      var r := CollapseWhitespace(bare);
      CleanChars(bare, r);
      r
  }

  /** Lower-casing leaves no capital, and trimming only takes a slice. */
  lemma TrimmedLowerHasNoUpper(s: string)
    ensures forall c :: c in Trim(ToLower(s)) ==> !IsUpper(c)
  {
    var t := LowerTrim(s);
    forall c | c in t ensures !IsUpper(c) {
      var k :| 0 <= k < |t| && t[k] == c;
    }
  }

  /** Collapsing white space keeps clean text clean (the space it inserts is clean). */
  lemma CleanChars(bare: string, r: string)
    requires forall c :: c in bare ==> Clean(c)
    requires forall c :: c in r ==> c == ' ' || (c in bare && !IsWhitespace(c))
    ensures forall i :: 0 <= i < |r| ==> Clean(r[i])
  {
    forall i | 0 <= i < |r| ensures Clean(r[i]) {
      assert r[i] in r;
    }
  }

  // ------------------------------------------------------------- levenshtein

  function Min3(x: nat, y: nat, z: nat): (m: nat)
    ensures m <= x && m <= y && m <= z
    ensures m == x || m == y || m == z
  {
    if x <= y && x <= z then x else if y <= z then y else z
  }

  function Max(x: nat, y: nat): nat
  {
    if x >= y then x else y
  }

  /**
   * The edit distance: the fewest single-character insertions, deletions
   * and substitutions turning `a` into `b` (the recurrence the DP table of
   * `levenshtein` fills, on prefixes).
   */
  function Lev(a: string, b: string): nat
    decreases |a| + |b|
  {
    if |a| == 0 then |b|
    else if |b| == 0 then |a|
    else
      Min3(Lev(a[..|a| - 1], b) + 1,
           Lev(a, b[..|b| - 1]) + 1,
           Lev(a[..|a| - 1], b[..|b| - 1]) + (if a[|a| - 1] == b[|b| - 1] then 0 else 1))
  }

  /** One cell of the DP table: the recurrence on the prefixes of length `i` and `j`. */
  lemma LevCell(a: string, b: string, i: nat, j: nat)
    requires 1 <= i <= |a| && 1 <= j <= |b|
    ensures Lev(a[..i], b[..j]) ==
              Min3(Lev(a[..i - 1], b[..j]) + 1,
                   Lev(a[..i], b[..j - 1]) + 1,
                   Lev(a[..i - 1], b[..j - 1]) + (if a[i - 1] == b[j - 1] then 0 else 1))
  {
    assert a[..i][..i - 1] == a[..i - 1] && b[..j][..j - 1] == b[..j - 1];
  }

  /**
   * `levenshtein`: the DP over two rows; before row `i`, `prevRow[j]` holds
   * the distance from the first `i - 1` characters of `a` to the first `j`
   * of `b`.
   */
  method Levenshtein(a: string, b: string) returns (d: nat)
    ensures d == Lev(a, b)
  {
    var la, lb := |a|, |b|;
    if la == 0 {
      return lb;
    }
    if lb == 0 {
      return la;
    }
    var prevRow := new nat[lb + 1];
    for j := 0 to lb + 1
      invariant forall k :: 0 <= k < j ==> prevRow[k] == Lev(a[..0], b[..k])
    {
      prevRow[j] := j;
    }
    for i := 1 to la + 1
      invariant prevRow.Length == lb + 1
      invariant forall k :: 0 <= k <= lb ==> prevRow[k] == Lev(a[..i - 1], b[..k])
    {
      prevRow := NextRow(a, b, i, prevRow);
    }
    d := prevRow[lb];
    assert a[..la] == a && b[..lb] == b;
  }

  /** The inner loop of `levenshtein`: row `i` of the DP table from row `i - 1`. */
  method NextRow(a: string, b: string, i: nat, prevRow: array<nat>) returns (curRow: array<nat>)
    requires 1 <= i <= |a| && prevRow.Length == |b| + 1
    requires forall k :: 0 <= k <= |b| ==> prevRow[k] == Lev(a[..i - 1], b[..k])
    ensures fresh(curRow) && curRow.Length == |b| + 1
    ensures forall k :: 0 <= k <= |b| ==> curRow[k] == Lev(a[..i], b[..k])
  {
    curRow := new nat[|b| + 1];
    curRow[0] := i;
    for j := 1 to |b| + 1
      invariant forall k :: 0 <= k < j ==> curRow[k] == Lev(a[..i], b[..k])
    {
      var cost := if a[i - 1] == b[j - 1] then 0 else 1;
      curRow[j] := Min3(prevRow[j] + 1, curRow[j - 1] + 1, prevRow[j - 1] + cost);
      LevCell(a, b, i, j);
    }
  }

  /** The distance does not depend on the order of the arguments. */
  lemma {:induction false} LevSymmetric(a: string, b: string)
    ensures Lev(a, b) == Lev(b, a)
    decreases |a| + |b|
  {
    if |a| > 0 && |b| > 0 {
      LevSymmetric(a[..|a| - 1], b);
      LevSymmetric(a, b[..|b| - 1]);
      LevSymmetric(a[..|a| - 1], b[..|b| - 1]);
    }
  }

  /** The distance is at most the longer length: substitute along the shorter, insert the rest. */
  lemma {:induction false} LevAtMostLonger(a: string, b: string)
    ensures Lev(a, b) <= Max(|a|, |b|)
    decreases |a| + |b|
  {
    if |a| > 0 && |b| > 0 {
      LevAtMostLonger(a[..|a| - 1], b[..|b| - 1]);
    }
  }

  /** The distance is zero exactly for equal strings. */
  lemma {:induction false} LevZeroIffEqual(a: string, b: string)
    ensures Lev(a, b) == 0 <==> a == b
    decreases |a| + |b|
  {
    if |a| > 0 && |b| > 0 {
      var a', b' := a[..|a| - 1], b[..|b| - 1];
      LevZeroIffEqual(a', b');
      assert a == a' + [a[|a| - 1]] && b == b' + [b[|b| - 1]];
      if a == b {
        assert a' == b';
      }
    }
  }

  /**
   * `similarity`: 1 for two empty strings, 0 when exactly one is empty,
   * else one minus the distance over the longer length (in exact
   * arithmetic).
   */
  function Similarity(a: string, b: string): (r: real)
    ensures a == [] && b == [] ==> r == 1.0
    ensures (a == []) != (b == []) ==> r == 0.0
    ensures 0.0 <= r <= 1.0
    ensures r == 1.0 <==> a == b
  {
    if a == [] && b == [] then 1.0
    else if a == [] || b == [] then 0.0
    else
      var dist := Lev(a, b);
      var norm := Max(|a|, |b|);
      LevAtMostLonger(a, b);
      LevZeroIffEqual(a, b);
      if norm == 0 then 1.0
      else
        RatioFacts(dist, norm);
        1.0 - dist as real / norm as real
  }

  /** `1 - d / n` lies in [0, 1] and is 1 only for `d = 0`, when `d <= n`. */
  lemma RatioFacts(d: nat, n: nat)
    requires 0 < n && d <= n
    ensures 0.0 <= 1.0 - d as real / n as real <= 1.0
    ensures 1.0 - d as real / n as real == 1.0 <==> d == 0
  {
    var q := d as real / n as real;
    assert q * n as real == d as real;
  }

  // ---------------------------------------------------------- isAnswerCorrect

  /** `IsAnswerOptions`; an absent field takes its default (0.75, false). */
  datatype AnswerOptions = AnswerOptions(fuzzyThreshold: Option<real>, exactOnly: Option<bool>)

  /** Some accepted answer normalises to the same text as the user's answer. */
  predicate ExactMatch(userAnswer: string, acceptedAnswers: seq<string>)
  {
    exists i :: 0 <= i < |acceptedAnswers| && NormalizeText(acceptedAnswers[i]) == NormalizeText(userAnswer)
  }

  /**
   * `isAnswerCorrect`: an exact match after normalisation; then, unless
   * `exactOnly`, a similarity at or above the threshold; then a numeric
   * match. `numericEqual(u, a)` stands for "`Number(u)` and `Number(a)` are
   * both numbers and equal", which the model does not compute.
   */
  function IsAnswerCorrect(userAnswer: string, acceptedAnswers: seq<string>, options: AnswerOptions,
                           numericEqual: (string, string) -> bool): (r: bool)
    ensures ExactMatch(userAnswer, acceptedAnswers) ==> r
    ensures options.exactOnly == Some(true) ==> (r <==> ExactMatch(userAnswer, acceptedAnswers))
    ensures acceptedAnswers == [] ==> !r
  {
    var fuzzyThreshold := if options.fuzzyThreshold.Some? then options.fuzzyThreshold.value else 0.75;
    var exactOnly := if options.exactOnly.Some? then options.exactOnly.value else false;
    var userNorm := NormalizeText(userAnswer);
    var normalizedAccepted := seq(|acceptedAnswers|, i requires 0 <= i < |acceptedAnswers| => NormalizeText(acceptedAnswers[i]));
    assert ExactMatch(userAnswer, acceptedAnswers) <==> userNorm in normalizedAccepted by {
      if userNorm in normalizedAccepted {
        var i :| 0 <= i < |normalizedAccepted| && normalizedAccepted[i] == userNorm;
        assert NormalizeText(acceptedAnswers[i]) == userNorm;
      }
      if ExactMatch(userAnswer, acceptedAnswers) {
        var i :| 0 <= i < |acceptedAnswers| && NormalizeText(acceptedAnswers[i]) == userNorm;
        assert normalizedAccepted[i] == userNorm;
      }
    }
    if userNorm in normalizedAccepted then true
    else if exactOnly then false
    else if exists a | a in normalizedAccepted :: Similarity(userNorm, a) >= fuzzyThreshold then true
    else if exists a | a in normalizedAccepted :: numericEqual(userNorm, NormalizeText(a)) then true
    else false
  }

  // ---------------------------------------------------- random word mutations

  /**
   * `shuffle`: Fisher-Yates on a copy; the draw `draws[k]` (in [0, 1))
   * picks the partner of position `n - 1 - k`. The input is a value and
   * stays as it was.
   */
  method Shuffle<T>(arr: seq<T>, draws: seq<real>) returns (r: seq<T>)
    requires |draws| >= |arr| - 1
    requires forall k :: 0 <= k < |draws| ==> 0.0 <= draws[k] < 1.0
    ensures |r| == |arr|
    ensures multiset(r) == multiset(arr)
  {
    var a := new T[|arr|](k requires 0 <= k < |arr| => arr[k]);
    assert a[..] == arr;
    var i := a.Length - 1;
    while i > 0
      invariant -1 <= i < a.Length
      invariant i >= 0 ==> a.Length - 1 - i < |draws| || i == 0
      invariant multiset(a[..]) == multiset(arr)
    {
      var j := PickIndex(draws[a.Length - 1 - i], i + 1);
      a[i], a[j] := a[j], a[i];
      i := i - 1;
    }
    r := a[..];
  }

  /** `t` is `s` with the characters at `i` and `i + 1` exchanged. */
  ghost predicate SwappedAt(s: string, t: string, i: int)
  {
    0 <= i < |s| - 1 && t == s[..i] + [s[i + 1], s[i]] + s[i + 2..]
  }

  /** `t` is `s` with the neighbours at `i` and `i + 1` exchanged, then a lower-case letter written at `pos`. */
  ghost predicate TypoAt(s: string, t: string, i: int, pos: int)
  {
    && 0 <= pos < |s| && |t| == |s| && IsLower(t[pos])
    && exists u :: SwappedAt(s, u, i) && t == u[pos := t[pos]]
  }

  /**
   * `makeTypo`: "" unchanged, a single character gets an "x" appended,
   * otherwise two neighbours swap (at the index `r1` picks) and, when the
   * draw `r2` exceeds 0.6, the character at the index `r3` picks becomes
   * the lower-case letter `r4` picks.
   */
  method MakeTypo(s: string, r1: real, r2: real, r3: real, r4: real) returns (t: string)
    requires 0.0 <= r1 < 1.0 && 0.0 <= r2 < 1.0 && 0.0 <= r3 < 1.0 && 0.0 <= r4 < 1.0
    ensures s == [] ==> t == s
    ensures |s| == 1 ==> t == s + "x"
    ensures |s| >= 2 ==> |t| == |s|
    ensures |s| >= 2 && r2 <= 0.6 ==> exists i :: SwappedAt(s, t, i)
    ensures |s| >= 2 && r2 > 0.6 ==> exists i, pos :: TypoAt(s, t, i, pos)
  {
    if s == [] {
      return s;
    }
    if |s| < 2 {
      return s + "x";
    }
    var arr := new char[|s|](k requires 0 <= k < |s| => s[k]);
    var i := PickIndex(r1, |s| - 1);
    arr[i], arr[i + 1] := arr[i + 1], arr[i];
    assert SwappedAt(s, arr[..], i);
    if r2 > 0.6 {
      var pos := PickIndex(r3, |s|);
      ghost var u := arr[..];
      arr[pos] := (97 + PickIndex(r4, 26)) as char;
      assert arr[..] == u[pos := arr[pos]];
      assert TypoAt(s, arr[..], i, pos);
    }
    t := arr[..];
  }

  /** The swap of `makeTypo` keeps the characters, only their order changes. */
  lemma SwapKeepsLetters(s: string, t: string, i: int)
    requires SwappedAt(s, t, i)
    ensures multiset(t) == multiset(s)
  {
    assert s == s[..i] + [s[i], s[i + 1]] + s[i + 2..];
  }

  /**
   * `morphologicalVariant`, cases in order: "" stays; a trailing "s" is
   * dropped; a word under five characters gets "s"; a trailing "y" becomes
   * "ies"; anything else gets "er".
   */
  function MorphologicalVariant(s: string): (r: string)
    ensures s != [] ==> r != s
    ensures s != [] ==> |s| - 1 <= |r| <= |s| + 2
  {
    if s == [] then s
    else if s[|s| - 1] == 's' then s[..|s| - 1]
    else if |s| < 5 then s + "s"
    else if s[|s| - 1] == 'y' then s[..|s| - 1] + "ies"
    else s + "er"
  }

  /** For a short word not ending in "s", taking the variant twice gives the word back. */
  lemma VariantOfShortWordRoundTrips(w: string)
    requires 0 < |w| < 5 && w[|w| - 1] != 's'
    ensures MorphologicalVariant(w) == w + "s"
    ensures MorphologicalVariant(MorphologicalVariant(w)) == w
  {
    assert (w + "s")[..|w|] == w;
  }
}
