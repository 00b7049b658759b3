/**
  The directory-ID cache of a mounted volume and the server tree it caches
  (did.c), on values: the cache list, its lookup, and the invariant that ties
  every unexpired entry to the server.
 */
module DidCache {
  import opened Paths

  const ROOT_DID: nat := 2
  const TIMEOUT: nat := 10

  // ----- the cache list -----

  datatype Entry = Entry(dirname: string, did: nat, time: nat)

  predicate Fresh(e: Entry, now: nat) {
    now <= e.time + TIMEOUT
  }

  /** Newest first, and nothing stamped after `now`. */
  ghost predicate Ordered(l: seq<Entry>, now: nat) {
    && (forall i, j :: 0 <= i < j < |l| ==> l[i].time >= l[j].time)
    && (forall i :: 0 <= i < |l| ==> l[i].time <= now)
  }

  /** At most one unexpired entry per path. */
  ghost predicate UniqueFresh(l: seq<Entry>, now: nat) {
    forall i, j :: 0 <= i < j < |l| && Fresh(l[i], now) && Fresh(l[j], now) ==> l[i].dirname != l[j].dirname
  }

  ghost predicate NoneFresh(l: seq<Entry>, now: nat, path: string) {
    forall i :: 0 <= i < |l| && Fresh(l[i], now) ==> l[i].dirname != path
  }

  /** `at` picks the entries of `a`, in order, out of `b`. */
  ghost predicate Embeds(a: seq<Entry>, b: seq<Entry>, at: seq<nat>) {
    && |at| == |a|
    && (forall i :: 0 <= i < |a| ==> at[i] < |b| && a[i] == b[at[i]])
    && (forall i, j :: 0 <= i < j < |a| ==> at[i] < at[j])
  }

  ghost predicate IsSubsequence(a: seq<Entry>, b: seq<Entry>) {
    exists at :: Embeds(a, b, at)
  }

  function From(start: nat, n: nat): (at: seq<nat>) {
    seq(n, k requires 0 <= k < n => start + k)
  }

  lemma EmbedsTrans(a: seq<Entry>, b: seq<Entry>, c: seq<Entry>, f: seq<nat>, g: seq<nat>) returns (h: seq<nat>)
    requires Embeds(a, b, f) && Embeds(b, c, g)
    ensures Embeds(a, c, h)
  {
    h := seq(|f|, k requires 0 <= k < |f| => g[f[k]]);
  }

  lemma EmbedsSuffix(l: seq<Entry>, i: nat) returns (at: seq<nat>)
    requires i <= |l|
    ensures Embeds(l[i..], l, at)
  {
    at := From(i, |l| - i);
  }

  lemma EmbedsDrop(l: seq<Entry>, p: nat) returns (at: seq<nat>)
    requires p < |l|
    ensures Embeds(l[..p] + l[p + 1..], l, at)
  {
    at := From(0, p) + From(p + 1, |l| - p - 1);
  }

  lemma EmbedsCons(e: Entry, a: seq<Entry>, b: seq<Entry>, f: seq<nat>) returns (at: seq<nat>)
    requires Embeds(a, b, f)
    ensures Embeds([e] + a, [e] + b, at)
  {
    at := [0] + seq(|f|, k requires 0 <= k < |f| => f[k] + 1);
  }

  /** Every property below passes to the entries a lookup leaves behind. */
  lemma EmbedsKeeps(a: seq<Entry>, b: seq<Entry>, at: seq<nat>, now: nat)
    requires Embeds(a, b, at)
    ensures Ordered(b, now) ==> Ordered(a, now)
    ensures UniqueFresh(b, now) ==> UniqueFresh(a, now)
    ensures forall path :: NoneFresh(b, now, path) ==> NoneFresh(a, now, path)
    ensures forall e :: e in a ==> e in b
  {
  }

  // ----- lookup: the loop that unlinks while it walks -----

  /**
    The search loop of find_dirid_by_fullname with its cursor at index p. The C
    variable prev points at the base exactly when p is 0 or 1: the loop then
    moves the base past p, which at p == 1 also loses the entry before p, and
    skips the new first entry. Result: the did found (0 for none) and the list left.
   */
  function FindFrom(l: seq<Entry>, p: nat, now: nat, path: string): (r: (nat, seq<Entry>))
    requires p <= |l|
    decreases |l| - p
  {
    if p == |l| then (0, l)
    else if !Fresh(l[p], now) then
      if p <= 1 then
        var rest := l[p + 1..];
        if l[p].dirname == path || rest == [] then (0, rest) else FindFrom(rest, 1, now, path)
      else
        var unlinked := l[..p] + l[p + 1..];
        if unlinked[p - 1].dirname == path then (unlinked[p - 1].did, unlinked)
        else FindFrom(unlinked, p, now, path)
    else if l[p].dirname == path then (l[p].did, l)
    else FindFrom(l, p + 1, now, path)
  }

  function Find(l: seq<Entry>, now: nat, path: string): (r: (nat, seq<Entry>)) {
    FindFrom(l, 0, now, path)
  }

  /** Length of the unexpired prefix. */
  function FreshLength(l: seq<Entry>, now: nat): (n: nat)
    ensures n <= |l|
    ensures forall i :: 0 <= i < n ==> Fresh(l[i], now)
    ensures n < |l| ==> !Fresh(l[n], now)
  {
    if l == [] || !Fresh(l[0], now) then 0 else 1 + FreshLength(l[1..], now)
  }

  /** The did of the first entry for `path`, or 0. */
  function FirstMatch(l: seq<Entry>, path: string): (did: nat) {
    if l == [] then 0
    else if l[0].dirname == path then l[0].did
    else FirstMatch(l[1..], path)
  }

  lemma {:induction false} FirstMatchSkips(l: seq<Entry>, path: string, p: nat)
    requires p <= |l|
    requires forall i :: 0 <= i < p ==> l[i].dirname != path
    ensures FirstMatch(l, path) == FirstMatch(l[p..], path)
  {
    if p == 0 {
      assert l[0..] == l;
    } else {
      FirstMatchSkips(l[1..], path, p - 1);
      assert l[1..][p - 1..] == l[p..];
    }
  }

  lemma ExpiredTail(l: seq<Entry>, now: nat, p: nat)
    requires Ordered(l, now)
    requires p < |l| && !Fresh(l[p], now)
    ensures forall i :: p <= i < |l| ==> !Fresh(l[i], now)
  {
  }

  /** Whatever the list, a lookup only ever unlinks. */
  lemma {:induction false} FindFromUnlinks(l: seq<Entry>, p: nat, now: nat, path: string) returns (at: seq<nat>)
    requires p <= |l|
    ensures Embeds(FindFrom(l, p, now, path).1, l, at)
    decreases |l| - p
  {
    at := EmbedsSuffix(l, 0);
    assert l[0..] == l;
    if p < |l| {
      if Fresh(l[p], now) {
        if l[p].dirname != path {
          at := FindFromUnlinks(l, p + 1, now, path);
        }
      } else if p <= 1 {
        var rest := l[p + 1..];
        at := EmbedsSuffix(l, p + 1);
        if l[p].dirname != path && rest != [] {
          var inner := FindFromUnlinks(rest, 1, now, path);
          at := EmbedsTrans(FindFrom(rest, 1, now, path).1, rest, l, inner, at);
        }
      } else {
        var unlinked := l[..p] + l[p + 1..];
        at := EmbedsDrop(l, p);
        if unlinked[p - 1].dirname != path {
          var inner := FindFromUnlinks(unlinked, p, now, path);
          at := EmbedsTrans(FindFrom(unlinked, p, now, path).1, unlinked, l, inner, at);
        }
      }
    }
  }

  /** Once everything from the cursor on is expired and nothing before it matches, the search finds nothing. */
  lemma {:induction false} FindFromExpired(l: seq<Entry>, p: nat, now: nat, path: string)
    requires p <= |l|
    requires forall i :: p <= i < |l| ==> !Fresh(l[i], now)
    requires p >= 2 ==> forall i :: 0 <= i < p ==> l[i].dirname != path
    ensures FindFrom(l, p, now, path).0 == 0
    ensures p >= 2 ==> FindFrom(l, p, now, path).1 == l[..p]
    decreases |l| - p
  {
    if p == |l| {
      assert l[..p] == l;
    } else if p <= 1 {
      var rest := l[p + 1..];
      if l[p].dirname != path && rest != [] {
        FindFromExpired(rest, 1, now, path);
      }
    } else {
      var unlinked := l[..p] + l[p + 1..];
      assert forall i :: p <= i < |unlinked| ==> unlinked[i] == l[i + 1];
      FindFromExpired(unlinked, p, now, path);
      assert unlinked[..p] == l[..p];
    }
  }

  lemma {:induction false} FindFromExact(l: seq<Entry>, p: nat, now: nat, path: string)
    requires Ordered(l, now)
    requires p <= FreshLength(l, now)
    requires forall i :: 0 <= i < p ==> l[i].dirname != path
    ensures FindFrom(l, p, now, path).0 == FirstMatch(l[..FreshLength(l, now)], path)
    ensures path in Names(l[..FreshLength(l, now)]) ==> FindFrom(l, p, now, path).1 == l
    ensures path !in Names(l[..FreshLength(l, now)]) ==>
              var n := FreshLength(l, now);
              FindFrom(l, p, now, path).1 == if n >= 2 || n == |l| then l[..n] else FindFrom(l, n, now, path).1
    decreases |l| - p
  {
    var n := FreshLength(l, now);
    var front := l[..n];
    FirstMatchSkips(front, path, p);
    if p == n {
      assert front[p..] == [];
      if n < |l| {
        ExpiredTail(l, now, n);
        FindFromExpired(l, n, now, path);
      } else {
        assert l[..n] == l;
      }
    } else if l[p].dirname == path {
      assert front[p..][0] == l[p];
      assert front[p].dirname in Names(front);
    } else {
      FindFromExact(l, p + 1, now, path);
    }
  }

  ghost function Names(l: seq<Entry>): set<string> {
    set i | 0 <= i < |l| :: l[i].dirname
  }

  /**
    The exact specification of a lookup on a list in newest-first order: it
    returns the did of the first match in the unexpired prefix, or 0, and it
    unlinks nothing when it hits.
   */
  lemma FindExact(l: seq<Entry>, now: nat, path: string)
    requires Ordered(l, now)
    ensures Find(l, now, path).0 == FirstMatch(l[..FreshLength(l, now)], path)
    ensures IsSubsequence(Find(l, now, path).1, l)
    ensures path in Names(l[..FreshLength(l, now)]) ==> Find(l, now, path).1 == l
  {
    FindFromExact(l, 0, now, path);
    var at := FindFromUnlinks(l, 0, now, path);
  }

  /**
    A lookup that misses is meant to unlink the expired entries only. It does
    so exactly when the unexpired prefix is not a single entry followed by
    expired ones: in that case the lookup throws the unexpired entry away too.
   */
  lemma MissKeepsFreshIff(l: seq<Entry>, now: nat, path: string)
    requires Ordered(l, now)
    requires path !in Names(l[..FreshLength(l, now)])
    ensures (forall i :: 0 <= i < |l| && Fresh(l[i], now) ==> l[i] in Find(l, now, path).1)
            <==> !(FreshLength(l, now) == 1 && |l| > 1)
  {
    var n := FreshLength(l, now);
    FindFromExact(l, 0, now, path);
    if n < |l| {
      ExpiredTail(l, now, n);
    }
    var left := Find(l, now, path).1;
    if n == 1 && |l| > 1 {
      assert l[0].dirname in Names(l[..n]) by { assert l[..n][0] == l[0]; }
      var rest := l[2..];
      assert left == FindFrom(l, 1, now, path).1;
      var at := From(0, |rest|);
      if l[1].dirname != path && rest != [] {
        at := FindFromUnlinks(rest, 1, now, path);
      }
      forall i | 0 <= i < |left| ensures left[i] != l[0] {
        assert left[i] == rest[at[i]] == l[at[i] + 2];
      }
      assert Fresh(l[0], now) && l[0] !in left;
    } else if n != 0 {
      assert left == l[..n];
      forall i | 0 <= i < |l| && Fresh(l[i], now) ensures l[i] in left {
        assert left[i] == l[i];
      }
    }
  }

  // ----- insertion and removal -----

  /** add_did_cache_entry: push on the front. */
  function Add(l: seq<Entry>, path: string, did: nat, now: nat): (r: seq<Entry>) {
    [Entry(path, did, now)] + l
  }

  /** remove_did_entry: unlink the first entry for `path`, expired or not. */
  function Remove(l: seq<Entry>, path: string): (r: seq<Entry>) {
    if l == [] then []
    else if l[0].dirname == path then l[1..]
    else [l[0]] + Remove(l[1..], path)
  }

  lemma DropCons(l: seq<Entry>, d: nat)
    requires 0 < d < |l|
    ensures [l[0]] + (l[1..][..d - 1] + l[1..][d..]) == l[..d] + l[d + 1..]
  {
    assert l[1..][d..] == l[d + 1..];
    assert [l[0]] + l[1..][..d - 1] == l[..d];
  }

  /** Remove drops exactly the first entry for the path. */
  lemma {:induction false} RemoveAt(l: seq<Entry>, path: string, d: nat)
    requires d <= |l|
    requires forall i :: 0 <= i < d ==> l[i].dirname != path
    requires d < |l| ==> l[d].dirname == path
    ensures Remove(l, path) == if d < |l| then l[..d] + l[d + 1..] else l
  {
    if l != [] && d > 0 {
      RemoveAt(l[1..], path, d - 1);
      if d < |l| {
        DropCons(l, d);
      } else {
        assert [l[0]] + l[1..] == l;
      }
    }
  }

  /** Dropping only the first entry is enough: with at most one unexpired entry per path, none is left. */
  lemma {:induction false} RemoveLeavesNoneFresh(l: seq<Entry>, now: nat, path: string)
    requires Ordered(l, now) && UniqueFresh(l, now)
    ensures NoneFresh(Remove(l, path), now, path)
  {
    if l != [] {
      if l[0].dirname == path {
        forall i | 0 <= i < |l[1..]| && Fresh(l[1..][i], now) ensures l[1..][i].dirname != path {
          assert l[1..][i] == l[i + 1];
          assert l[0].time >= l[i + 1].time;
        }
      } else {
        RemoveLeavesNoneFresh(l[1..], now, path);
      }
    }
  }

  lemma {:induction false} RemoveUnlinks(l: seq<Entry>, path: string) returns (at: seq<nat>)
    ensures Embeds(Remove(l, path), l, at)
    ensures forall e :: e in l && e.dirname != path ==> e in Remove(l, path)
  {
    at := [];
    if l != [] {
      if l[0].dirname == path {
        at := EmbedsSuffix(l, 1);
      } else {
        at := RemoveUnlinks(l[1..], path);
        at := EmbedsCons(l[0], Remove(l[1..], path), l[1..], at);
        assert [l[0]] + l[1..] == l;
      }
    }
  }

  // ----- the server tree -----

  datatype Node = Node(isdir: bool, id: nat)
  type Tree = map<(nat, string), Node>

  /** Ids are non-zero, unique and not the root's; names are single non-empty components. */
  ghost predicate ValidTree(t: Tree) {
    && (forall k :: k in t ==> t[k].id != 0 && t[k].id != ROOT_DID && k.1 != "" && '/' !in k.1)
    && (forall k, l :: k in t && l in t && t[k].id == t[l].id ==> k == l)
  }

  datatype Option<+T> = None | Some(value: T) {
    function GetOr(default: T): T {
      if Some? then value else default
    }
  }

  /** The plain component-by-component walk from the root; "" names the root itself. */
  function Walk(t: Tree, path: string): (r: Option<nat>)
    decreases |path|
  {
    if path == "" then Some(ROOT_DID)
    else
      var k := LastSlash(path);
      if k < 0 then None
      else
        var up := Walk(t, path[..k]);
        if up.None? || (up.value, path[k + 1..]) !in t || !t[(up.value, path[k + 1..])].isdir then None
        else Some(t[(up.value, path[k + 1..])].id)
  }

  lemma {:induction false} WalkNonZero(t: Tree, path: string)
    requires ValidTree(t)
    ensures Walk(t, path).Some? ==> Walk(t, path).value != 0
  {
  }

  /** If a whole path walks, so does every prefix that ends before a slash. */
  lemma {:induction false} WalkPrefix(t: Tree, path: string, q: nat)
    requires q < |path| && path[q] == '/'
    requires Walk(t, path).Some?
    ensures Walk(t, path[..q]).Some?
    decreases |path|
  {
    var k := LastSlash(path);
    if q < k {
      WalkPrefix(t, path[..k], q);
      assert path[..k][..q] == path[..q];
    }
  }

  /** No two paths lead to the same directory. */
  lemma {:induction false} WalkInjective(t: Tree, p: string, q: string)
    requires ValidTree(t)
    requires Walk(t, p).Some? && Walk(t, p) == Walk(t, q)
    ensures p == q
    decreases |p|
  {
    if p != "" && q != "" {
      var i, j := LastSlash(p), LastSlash(q);
      var a, b := (Walk(t, p[..i]).value, p[i + 1..]), (Walk(t, q[..j]).value, q[j + 1..]);
      assert a == b by { assert t[a].id == t[b].id; }
      WalkInjective(t, p[..i], q[..j]);
      SplitAtLastSlash(p);
      SplitAtLastSlash(q);
    }
  }

  lemma {:induction false} WalkGrows(t: Tree, key: (nat, string), node: Node, path: string)
    requires key !in t
    requires Walk(t, path).Some?
    ensures Walk(t[key := node], path) == Walk(t, path)
    decreases |path|
  {
    if path != "" {
      WalkGrows(t, key, node, path[..LastSlash(path)]);
    }
  }

  /** Deleting an empty directory changes the walks that lead to it, and no other. */
  lemma {:induction false} WalkWithout(t: Tree, key: (nat, string), path: string)
    requires ValidTree(t) && key in t
    requires forall k :: k in t ==> k.0 != t[key].id
    requires Walk(t, path).Some?
    ensures Walk(t - {key}, path) == if Walk(t, path).value == t[key].id then None else Walk(t, path)
    decreases |path|
  {
    if path != "" {
      var j := LastSlash(path);
      var up := Walk(t, path[..j]).value;
      assert (up, path[j + 1..]) in t;
      WalkWithout(t, key, path[..j]);
    }
  }

  /** Deleting never makes a path lead anywhere new. */
  lemma {:induction false} WalkLess(t: Tree, key: (nat, string), path: string)
    ensures Walk(t - {key}, path).Some? ==> Walk(t - {key}, path) == Walk(t, path)
    decreases |path|
  {
    if path != "" && LastSlash(path) >= 0 {
      WalkLess(t, key, path[..LastSlash(path)]);
    }
  }
}
