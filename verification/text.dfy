/** Locating a pattern inside a string, as ECMAScript's StringIndexOf does. */
module Text {
  import opened Outcomes

  /** `pat` occurs in `s` starting at index `i`. */
  predicate OccursAt(s: string, pat: string, i: int) {
    0 <= i && i + |pat| <= |s| && s[i..i + |pat|] == pat
  }

  /** No occurrence of `pat` in `s` starts before index `k`. */
  predicate NoneBefore(s: string, pat: string, k: int) {
    forall i :: 0 <= i < k ==> !OccursAt(s, pat, i)
  }

  /** `pat` occurs somewhere in `s`. */
  predicate Contains(s: string, pat: string) {
    exists i :: 0 <= i <= |s| && OccursAt(s, pat, i)
  }

  /** The least index at or after `from` where `pat` occurs in `s`, scanning upwards. */
  function IndexOfFrom(s: string, pat: string, from: nat): (r: Option<nat>)
    ensures r.Some? ==> from <= r.value && OccursAt(s, pat, r.value)
    ensures r.Some? ==> forall i :: from <= i < r.value ==> !OccursAt(s, pat, i)
    ensures r.None? ==> forall i :: from <= i ==> !OccursAt(s, pat, i)
    decreases |s| - from
  {
    if from + |pat| > |s| then None
    else if s[from..from + |pat|] == pat then Some(from)
    else IndexOfFrom(s, pat, from + 1)
  }

  /** The index of the first occurrence of `pat` in `s`, or None when there is none. */
  function IndexOf(s: string, pat: string): (r: Option<nat>)
    ensures r.None? <==> !Contains(s, pat)
    ensures r.Some? ==> OccursAt(s, pat, r.value) && NoneBefore(s, pat, r.value)
  {
    IndexOfFrom(s, pat, 0)
  }

  /** The first occurrence is unique: any occurrence with none before it is the one IndexOf finds. */
  lemma IndexOfIsFirst(s: string, pat: string, p: nat)
    requires OccursAt(s, pat, p) && NoneBefore(s, pat, p)
    ensures IndexOf(s, pat) == Some(p)
  {
  }
}
