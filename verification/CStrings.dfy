/** The C library's string searches, on strings without their terminator. */
module CStrings {

  /** strchr(s, c): the index of the first c, or |s|. */
  function FirstOf(s: string, c: char): (i: nat)
    ensures i <= |s|
    ensures i < |s| ==> s[i] == c
    ensures forall j :: 0 <= j < i ==> s[j] != c
  {
    FirstFrom(s, c, 0)
  }

  function FirstFrom(s: string, c: char, from: nat): (i: nat)
    requires from <= |s|
    ensures from <= i <= |s|
    ensures i < |s| ==> s[i] == c
    ensures forall j :: from <= j < i ==> s[j] != c
    decreases |s| - from
  {
    if from == |s| || s[from] == c then from else FirstFrom(s, c, from + 1)
  }

  /** strrchr(s, c): the index of the last c, or -1. */
  function LastOf(s: string, c: char): (i: int)
    ensures -1 <= i < |s|
    ensures i >= 0 ==> s[i] == c
    ensures forall j :: i < j < |s| ==> s[j] != c
  {
    LastBefore(s, c, |s|)
  }

  function LastBefore(s: string, c: char, n: nat): (i: int)
    requires n <= |s|
    ensures -1 <= i < n
    ensures i >= 0 ==> s[i] == c
    ensures forall j :: i < j < n ==> s[j] != c
    decreases n
  {
    if n == 0 then -1 else if s[n - 1] == c then n - 1 else LastBefore(s, c, n - 1)
  }

  lemma FirstOfIs(s: string, c: char, i: nat)
    requires i < |s| && s[i] == c && forall j :: 0 <= j < i ==> s[j] != c
    ensures FirstOf(s, c) == i
  {
  }

  /** Searching past a part that does not hold the character. */
  lemma FirstOfAppend(a: string, s: string, c: char)
    requires c !in a
    ensures FirstOf(a + s, c) == |a| + FirstOf(s, c)
  {
    var i := |a| + FirstOf(s, c);
    var t := a + s;
    forall j | 0 <= j < i ensures t[j] != c {
      assert t[j] == if j < |a| then a[j] else s[j - |a|];
    }
    if i < |t| {
      FirstOfIs(t, c, i);
    }
  }

  lemma LastOfAppend(a: string, s: string, c: char)
    requires c !in s
    ensures LastOf(a + s, c) == LastOf(a, c)
  {
    var t := a + s;
    var i := LastOf(a, c);
    forall j | i < j < |t| ensures t[j] != c {
      assert t[j] == if j < |a| then a[j] else s[j - |a|];
    }
    if i >= 0 {
      assert t[i] == c;
      LastOfIs(t, c, i);
    }
  }

  lemma LastOfIs(s: string, c: char, i: nat)
    requires i < |s| && s[i] == c && forall j :: i < j < |s| ==> s[j] != c
    ensures LastOf(s, c) == i
  {
  }

  predicate OccursAt(s: string, pat: string, i: nat) {
    i + |pat| <= |s| && s[i..i + |pat|] == pat
  }

  ghost predicate Occurs(s: string, pat: string) {
    exists i: nat :: OccursAt(s, pat, i)
  }

  /** strstr(s + from, pat): the first occurrence, or |s|. */
  function Strstr(s: string, pat: string, from: nat): (i: nat)
    requires from <= |s| && pat != ""
    ensures from <= i <= |s|
    ensures i < |s| ==> OccursAt(s, pat, i)
    ensures forall j: nat :: from <= j < i ==> !OccursAt(s, pat, j)
    ensures i == |s| ==> forall j: nat :: from <= j ==> !OccursAt(s, pat, j)
    decreases |s| - from
  {
    if from == |s| then |s|
    else if OccursAt(s, pat, from) then from
    else Strstr(s, pat, from + 1)
  }

  lemma StrstrIff(s: string, pat: string)
    requires pat != ""
    ensures Strstr(s, pat, 0) < |s| <==> Occurs(s, pat)
  {
  }
}
