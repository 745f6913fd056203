/**
 * The few `String.prototype` operations the core relies on, on `seq<char>`.
 */
module Strings {

  /** `p` occurs in `s` starting at index `k`. */
  predicate OccursAt(s: string, p: string, k: nat)
  {
    k + |p| <= |s| && s[k..k + |p|] == p
  }

  /** `s.indexOf(p, from)`: the first occurrence at or after `from`, or -1. */
  function IndexFrom(s: string, p: string, from: nat): (r: int)
    ensures r == -1 || (from <= r && OccursAt(s, p, r))
    ensures r == -1 ==> forall k: nat :: from <= k ==> !OccursAt(s, p, k)
    ensures r != -1 ==> forall k: nat :: from <= k < r ==> !OccursAt(s, p, k)
    decreases |s| - from
  {
    if from + |p| > |s| then -1
    else if s[from..from + |p|] == p then from
    else IndexFrom(s, p, from + 1)
  }

  /** `s.indexOf(p)`. */
  function IndexOf(s: string, p: string): (r: int)
    ensures r == -1 <==> forall k: nat :: !OccursAt(s, p, k)
    ensures r != -1 ==> 0 <= r && OccursAt(s, p, r) && forall k: nat :: k < r ==> !OccursAt(s, p, k)
  {
    IndexFrom(s, p, 0)
  }

  /** `s.replace(p, r)` with a string pattern: only the first occurrence of `p`
      is replaced; without one, `s` comes back unchanged. */
  function ReplaceFirst(s: string, p: string, r: string): (t: string)
    ensures IndexOf(s, p) == -1 ==> t == s
    ensures IndexOf(s, p) != -1 ==>
              var i := IndexOf(s, p);
              i + |p| <= |s| && t == s[..i] + r + s[i + |p|..]
  {
    var i := IndexOf(s, p);
    if i == -1 then s else s[..i] + r + s[i + |p|..]
  }

  predicate IsDigit(c: char)
  {
    '0' <= c <= '9'
  }

  predicate AllDigits(s: string)
  {
    forall k :: 0 <= k < |s| ==> IsDigit(s[k])
  }

  /** The length of the longest run of decimal digits at the start of `s`. */
  function DigitsLen(s: string): (n: nat)
    ensures n <= |s|
    ensures AllDigits(s[..n])
    ensures n < |s| ==> !IsDigit(s[n])
    decreases |s|
  {
    if s == [] || !IsDigit(s[0]) then 0 else 1 + DigitsLen(s[1..])
  }

  /** The number a string of decimal digits denotes (`+digits`). */
  function DecimalValue(d: string): nat
    requires AllDigits(d)
    decreases |d|
  {
    if d == [] then 0 else 10 * DecimalValue(d[..|d| - 1]) + (d[|d| - 1] - '0') as nat
  }
}
