/**
 * `capitalize` from `src/utils/fns.ts`: the replacement of `/^[a-z]/` by
 * its upper case, so only a leading ASCII lower-case letter changes.
 */
module ClientFns {
  import opened Text

  /** `str.replace(/^[a-z]/, m => m.toUpperCase())` */
  function Capitalize(s: string): (r: string)
    ensures |r| == |s|
    ensures forall i :: 0 < i < |s| ==> r[i] == s[i]
    ensures |s| > 0 && IsLower(s[0]) ==> IsUpper(r[0]) && LowerChar(r[0]) == s[0]
    ensures s == [] || !IsLower(s[0]) ==> r == s
  {
    if |s| > 0 && IsLower(s[0]) then [UpperChar(s[0])] + s[1..] else s
  }

  /** Capitalising twice is capitalising once. */
  lemma CapitalizeIdempotent(s: string)
    ensures Capitalize(Capitalize(s)) == Capitalize(s)
  {
  }
}
