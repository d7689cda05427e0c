/**
 Java's `String.indexOf(String, int)` over Dafny strings.

 `String.startsWith` is Dafny's prefix relation `prefix <= s`, and
 `String.substring(b, e)` is the slice `s[b..e]`: Java throws exactly where
 the slice's well-formedness condition `0 <= b <= e <= |s|` fails, so every
 slice the model takes is a proof that the corresponding Java call does not
 throw.
 */
module JavaStrings {

  /** `pat` occurs in `s` starting at index `i`. */
  predicate Occurs(s: string, pat: string, i: int)
  {
    0 <= i && i + |pat| <= |s| && s[i..i + |pat|] == pat
  }

  /** `p` is the first occurrence of `pat` in `s`. */
  predicate FirstOccurrence(s: string, pat: string, p: int)
  {
    Occurs(s, pat, p) && forall i :: 0 <= i < p ==> !Occurs(s, pat, i)
  }

  /** Java clamps a negative start index to 0 and one past the end to the length. */
  function ClampIndex(s: string, from: int): (k: nat)
    ensures k <= |s|
    ensures 0 <= from <= |s| ==> k == from
  {
    if from < 0 then 0 else if from > |s| then |s| else from
  }

  /** `s.indexOf(pat, from)`: the least occurrence of `pat` at or after `from`, or -1. */
  function IndexOf(s: string, pat: string, from: int): (r: int)
    ensures -1 <= r <= |s|
    ensures r >= 0 ==> ClampIndex(s, from) <= r && Occurs(s, pat, r)
    ensures r >= 0 ==> forall i :: ClampIndex(s, from) <= i < r ==> !Occurs(s, pat, i)
    ensures r < 0 ==> forall i :: ClampIndex(s, from) <= i ==> !Occurs(s, pat, i)
  {
    SearchFrom(s, pat, ClampIndex(s, from))
  }

  /** The scanning loop behind `IndexOf`, started at an in-range index. */
  function SearchFrom(s: string, pat: string, start: nat): (r: int)
    requires start <= |s|
    decreases |s| - start
    ensures -1 <= r <= |s|
    ensures r >= 0 ==> start <= r && Occurs(s, pat, r)
    ensures r >= 0 ==> forall i :: start <= i < r ==> !Occurs(s, pat, i)
    ensures r < 0 ==> forall i :: start <= i ==> !Occurs(s, pat, i)
  {
    if start + |pat| > |s| then -1
    else if s[start..start + |pat|] == pat then start
    else SearchFrom(s, pat, start + 1)
  }

  /** `s.indexOf(pat)` is `s.indexOf(pat, 0)`. */
  function IndexOfFirst(s: string, pat: string): (r: int)
    ensures r < 0 <==> forall i :: !Occurs(s, pat, i)
    ensures r >= 0 ==> FirstOccurrence(s, pat, r)
    ensures r >= 0 ==> r + |pat| <= |s|
  {
    IndexOf(s, pat, 0)
  }

  /** A pattern has at most one first occurrence. */
  lemma FirstOccurrenceUnique(s: string, pat: string, p: int, q: int)
    requires FirstOccurrence(s, pat, p) && FirstOccurrence(s, pat, q)
    ensures p == q
  {
    assert Occurs(s, pat, p) && Occurs(s, pat, q);
  }

  /**
   Regrouping a concatenation. Stating it once and calling it keeps the
   solver away from element-wise reasoning about long strings.
   */
  lemma AppendAssoc(x: string, y: string, f: string, t: string)
    ensures ((x + y) + f) + t == x + ((y + f) + t)
  {
  }

  lemma AppendAssoc5(x: string, y: string, z: string, f: string, t: string)
    ensures (((x + y) + z) + f) + t == x + (((y + z) + f) + t)
  {
  }

  lemma AppendAssoc3(x: string, y: string, z: string)
    ensures (x + y) + z == x + (y + z)
  {
  }
}
