/** Byte-string helpers shared by the server and the client: the parts of
    std::string that the chat protocol relies on (find, prefix tests). */
module Text {

  datatype Option<T> = None | Some(value: T)

  /** `p` is a prefix of `s` (the source writes this as `s.find(p) == 0`). */
  predicate IsPrefix(p: string, s: string)
  {
    |p| <= |s| && s[..|p|] == p
  }

  /** `pat` occurs in `s` starting at index `i`. */
  predicate OccursAt(s: string, pat: string, i: int)
  {
    0 <= i && i + |pat| <= |s| && s[i..i + |pat|] == pat
  }

  /** std::string::find(pat, from): the first occurrence of a non-empty
      `pat` at or after `from`, or None for npos. */
  function Find(s: string, pat: string, from: nat): (r: Option<nat>)
    requires |pat| > 0
    ensures r.Some? ==> from <= r.value && OccursAt(s, pat, r.value)
    ensures r.Some? ==> forall j :: from <= j < r.value ==> !OccursAt(s, pat, j)
    ensures r.None? ==> forall j :: from <= j ==> !OccursAt(s, pat, j)
    decreases |s| - from
  {
    if from + |pat| > |s| then None
    else if s[from..from + |pat|] == pat then Some(from)
    else Find(s, pat, from + 1)
  }

  /** std::string::find(c, from) for a single character. */
  function FindChar(s: string, c: char, from: nat): (r: Option<nat>)
    ensures r.Some? ==> from <= r.value < |s| && s[r.value] == c
    ensures r.Some? ==> forall j :: from <= j < r.value ==> s[j] != c
    ensures r.None? ==> forall j :: from <= j < |s| ==> s[j] != c
    decreases |s| - from
  {
    if from >= |s| then None
    else if s[from] == c then Some(from)
    else FindChar(s, c, from + 1)
  }

  /** `s.find(pat) != npos`. */
  predicate Contains(s: string, pat: string)
    requires |pat| > 0
  {
    Find(s, pat, 0).Some?
  }

  /** Contains agrees with the plain definition "occurs somewhere". */
  lemma ContainsIff(s: string, pat: string, i: int)
    requires |pat| > 0
    ensures OccursAt(s, pat, i) ==> Contains(s, pat)
    ensures Contains(s, pat) ==> OccursAt(s, pat, Find(s, pat, 0).value)
  {
  }

  /** An occurrence with nothing earlier is what find returns. */
  lemma FindIs(s: string, pat: string, from: nat, k: nat)
    requires |pat| > 0 && from <= k && OccursAt(s, pat, k)
    requires forall j :: from <= j < k ==> !OccursAt(s, pat, j)
    ensures Find(s, pat, from) == Some(k)
  {
  }

  lemma FindCharIs(s: string, c: char, from: nat, k: nat)
    requires from <= k < |s| && s[k] == c
    requires forall j :: from <= j < k ==> s[j] != c
    ensures FindChar(s, c, from) == Some(k)
  {
  }

  /** A pattern found inside a part of a string is found in the whole. */
  lemma ContainsInConcat(a: string, b: string, c: string, pat: string)
    requires |pat| > 0 && Contains(b, pat)
    ensures Contains(a + b + c, pat)
  {
    var k := Find(b, pat, 0).value;
    var s := a + b + c;
    assert s[|a| + k..|a| + k + |pat|] == b[k..k + |pat|];
    assert OccursAt(s, pat, |a| + k);
  }
}
