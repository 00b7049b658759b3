/** C-string searches on '/'-separated paths, as used by did.c and resource.c. */
module Paths {

  /** strrchr(s, '/'): the index of the last '/', or -1. */
  function LastSlash(s: string): (k: int)
    ensures -1 <= k < |s|
    ensures k >= 0 ==> s[k] == '/'
    ensures forall i :: k < i < |s| ==> s[i] != '/'
  {
    if s == "" then -1
    else if s[|s| - 1] == '/' then |s| - 1
    else LastSlash(s[..|s| - 1])
  }

  /** strchr(s + from, '/'): the index of the first '/' at or after `from`, or |s|. */
  function NextSlash(s: string, from: nat): (k: nat)
    requires from <= |s|
    ensures from <= k <= |s|
    ensures k < |s| ==> s[k] == '/'
    ensures forall i :: from <= i < k ==> s[i] != '/'
    decreases |s| - from
  {
    if from == |s| then |s|
    else if s[from] == '/' then from
    else NextSlash(s, from + 1)
  }

  /** The two searches agree: the slash before the next slash is the one we started from. */
  lemma SlashBefore(s: string, p: nat)
    requires p < |s| && s[p] == '/'
    requires NextSlash(s, p + 1) < |s|
    ensures LastSlash(s[..NextSlash(s, p + 1)]) == p
  {
    assert s[..NextSlash(s, p + 1)][p] == '/';
  }

  /** A path that has a slash is its parent, the last slash and its last component. */
  lemma SplitAtLastSlash(s: string)
    requires LastSlash(s) >= 0
    ensures s == s[..LastSlash(s)] + "/" + s[LastSlash(s) + 1..]
  {
  }

  /** LastSlash finds the only slash that has none after it. */
  lemma LastSlashIs(s: string, k: nat)
    requires k < |s| && s[k] == '/'
    requires forall i :: k < i < |s| ==> s[i] != '/'
    ensures LastSlash(s) == k
  {
  }

  lemma JoinSplits(s: string, dir: string, name: string)
    requires s == dir + "/" + name && '/' !in name
    ensures LastSlash(s) == |dir| && s[..|dir|] == dir && s[|dir| + 1..] == name
  {
    NoSlashAfter(s, dir, name);
    LastSlashIs(s, |dir|);
  }

  lemma NoSlashAfter(s: string, dir: string, name: string)
    requires s == dir + "/" + name && '/' !in name
    ensures s[|dir|] == '/' && forall i :: |dir| < i < |s| ==> s[i] != '/'
  {
    forall i | |dir| < i < |s| ensures s[i] != '/' {
      assert s[i] == name[i - |dir| - 1];
    }
  }
}
