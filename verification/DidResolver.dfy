/**
  get_dirid and ml_rmdir over whole runs (did.c, midlevel.c): the resolver that
  backs up to the longest cached prefix and walks forward again refines the
  plain walk from the root.
 */
module DidResolver {
  import opened Paths
  import opened DidCache

  /** `ticks` counts the clock readings taken so far; reading k returns clock(k). */
  datatype State = State(tree: Tree, cache: seq<Entry>, ticks: nat)

  type Clock = nat -> nat

  ghost predicate Monotone(clock: Clock) {
    forall i: nat, j: nat :: i <= j ==> clock(i) <= clock(j)
  }

  /** The shape of the cache: newest first, one unexpired entry per path, and no unexpired did of 0. */
  ghost predicate ListInv(clock: Clock, s: State) {
    var now := clock(s.ticks);
    && ValidTree(s.tree)
    && Ordered(s.cache, now)
    && UniqueFresh(s.cache, now)
    && (forall e :: e in s.cache && Fresh(e, now) ==> e.did != 0)
  }

  /** The shape, and every unexpired entry tells the truth. */
  ghost predicate Inv(clock: Clock, s: State) {
    && ListInv(clock, s)
    && forall e :: e in s.cache && Fresh(e, clock(s.ticks)) ==> Walk(s.tree, e.dirname) == Some(e.did)
  }

  // ----- one lookup -----

  function Lookup(clock: Clock, s: State, path: string): (r: (nat, State)) {
    var (did, left) := Find(s.cache, clock(s.ticks), path);
    (did, State(s.tree, left, s.ticks + 1))
  }

  lemma {:induction false} FirstMatchIn(l: seq<Entry>, path: string, k: nat) returns (i: nat)
    requires k < |l| && l[k].dirname == path
    ensures i < |l| && l[i].dirname == path && FirstMatch(l, path) == l[i].did
  {
    if l[0].dirname == path {
      i := 0;
    } else {
      i := FirstMatchIn(l[1..], path, k - 1);
      i := i + 1;
    }
  }

  lemma {:induction false} FirstMatchNone(l: seq<Entry>, path: string)
    requires forall i :: 0 <= i < |l| ==> l[i].dirname != path
    ensures FirstMatch(l, path) == 0
  {
    FirstMatchSkips(l, path, |l|);
    assert l[|l|..] == [];
  }

  /** A lookup returns a matching unexpired entry's did, or there is no such entry and it returns 0. */
  lemma FindHitOrMiss(l: seq<Entry>, now: nat, path: string) returns (i: nat)
    requires Ordered(l, now)
    ensures if i < |l| then Fresh(l[i], now) && l[i].dirname == path && Find(l, now, path).0 == l[i].did
            else NoneFresh(l, now, path) && Find(l, now, path).0 == 0
  {
    var front := l[..FreshLength(l, now)];
    FindFromExact(l, 0, now, path);
    if k: nat :| k < |front| && front[k].dirname == path {
      i := FirstMatchIn(front, path, k);
    } else {
      i := |l|;
      FirstMatchNone(front, path);
      if |front| < |l| {
        ExpiredTail(l, now, |front|);
      }
      forall j | 0 <= j < |l| && Fresh(l[j], now) ensures l[j].dirname != path {
        assert l[j] == front[j];
      }
    }
  }

  /** Time passing and entries leaving never break the invariants. */
  lemma InvKept(clock: Clock, s: State, s': State, at: seq<nat>)
    requires Monotone(clock) && ListInv(clock, s)
    requires s'.tree == s.tree && s.ticks <= s'.ticks && Embeds(s'.cache, s.cache, at)
    ensures ListInv(clock, s') && (Inv(clock, s) ==> Inv(clock, s'))
    ensures forall q :: NoneFresh(s.cache, clock(s.ticks), q) ==> NoneFresh(s'.cache, clock(s'.ticks), q)
  {
    EmbedsKeeps(s'.cache, s.cache, at, clock(s.ticks));
    assert clock(s.ticks) <= clock(s'.ticks);
  }

  /** A miss means no unexpired entry, and other paths are not affected, whatever the entries say. */
  lemma LookupKeeps(clock: Clock, s: State, path: string)
    requires Monotone(clock) && ListInv(clock, s)
    ensures var (did, s') := Lookup(clock, s, path);
            && ListInv(clock, s') && s'.tree == s.tree && s'.ticks == s.ticks + 1
            && (did == 0 <==> NoneFresh(s.cache, clock(s.ticks), path))
            && forall q :: NoneFresh(s.cache, clock(s.ticks), q) ==> NoneFresh(s'.cache, clock(s'.ticks), q)
  {
    var now := clock(s.ticks);
    var at := FindFromUnlinks(s.cache, 0, now, path);
    InvKept(clock, s, Lookup(clock, s, path).1, at);
    var i := FindHitOrMiss(s.cache, now, path);
    if i < |s.cache| {
      assert s.cache[i] in s.cache;
    }
  }

  /** With truthful entries a hit is the truth. */
  lemma LookupSound(clock: Clock, s: State, path: string)
    requires Monotone(clock) && Inv(clock, s)
    ensures var (did, s') := Lookup(clock, s, path);
            && Inv(clock, s') && s'.tree == s.tree
            && (if did != 0 then Walk(s.tree, path) == Some(did) else NoneFresh(s'.cache, clock(s'.ticks), path))
            && forall q :: NoneFresh(s.cache, clock(s.ticks), q) ==> NoneFresh(s'.cache, clock(s'.ticks), q)
  {
    var now := clock(s.ticks);
    LookupKeeps(clock, s, path);
    var at := FindFromUnlinks(s.cache, 0, now, path);
    InvKept(clock, s, Lookup(clock, s, path).1, at);
    var i := FindHitOrMiss(s.cache, now, path);
    if i < |s.cache| {
      assert s.cache[i] in s.cache;
    }
  }

  /** A directory that is not on the server is never found in a truthful cache. */
  lemma GoneNeverHits(clock: Clock, s: State, path: string)
    requires Monotone(clock) && Inv(clock, s)
    requires Walk(s.tree, path).None?
    ensures Lookup(clock, s, path).0 == 0
  {
    LookupSound(clock, s, path);
  }

  // ----- get_dirid -----

  /** The backward loop: from `copy`, the slash it stops at and the did cached for the part before that slash. */
  function BackUp(clock: Clock, s: State, copy: string): (r: (State, nat, nat))
    requires copy != "" && copy[0] == '/'
    ensures r.1 < |copy|
    decreases |copy|
  {
    var p := LastSlash(copy);
    if p == 0 then (s, 0, ROOT_DID)
    else
      var (did, s1) := Lookup(clock, s, copy[..p]);
      if did != 0 then (s1, p, did) else BackUp(clock, s1, copy[..p])
  }

  /** What the server's answer leaves in `fi`: a failed call leaves it as it was. */
  function Reply(t: Tree, did: nat, name: string, fi: Node): (r: Node) {
    if (did, name) in t then t[(did, name)] else fi
  }

  function Cached(clock: Clock, s: State, path: string, did: nat): (r: State) {
    State(s.tree, Add(s.cache, path, did, clock(s.ticks)), s.ticks + 1)
  }

  /** The forward loop from the slash at p; `parent` is the did of path[..p]. */
  function Forward(clock: Clock, s: State, path: string, p: nat, parent: nat, fi: Node): (r: (State, nat))
    requires p < |path|
    decreases |path| - p
  {
    var q := NextSlash(path, p + 1);
    if q == |path| then (s, parent)
    else
      var got := Reply(s.tree, parent, path[p + 1..q], fi);
      if !got.isdir then (s, parent)
      else
        Forward(clock, Cached(clock, s, path[..q], got.id), path, q, got.id, got)
  }

  /** An absolute path, or one without any slash, which get_dirid rejects. */
  predicate Rooted(path: string) {
    '/' in path ==> path[0] == '/'
  }

  /** The did get_dirid stores, or None when it returns -1; `fi` is the uninitialised reply buffer. */
  function GetDirid(clock: Clock, s: State, path: string, fi: Node): (r: (State, Option<nat>))
    requires Rooted(path)
  {
    var k := LastSlash(path);
    if k < 0 then (s, None)
    else if k == 0 then (s, Some(ROOT_DID))
    else
      var (did, s1) := Lookup(clock, s, path[..k]);
      if did != 0 then (s1, Some(did))
      else
        assert path[k] == '/';
        var (s2, p, parent) := BackUp(clock, s1, path[..k]);
        var (s3, d) := Forward(clock, s2, path, p, parent, fi);
        (s3, Some(d))
  }

  /** Whether a call gets as far as its forward loop, and where that loop starts. */
  predicate Searches(clock: Clock, s: State, path: string) {
    LastSlash(path) > 0 && Lookup(clock, s, path[..LastSlash(path)]).0 == 0
  }

  function Resume(clock: Clock, s: State, path: string): (r: (State, nat, nat))
    requires Rooted(path) && Searches(clock, s, path)
    ensures r.1 < LastSlash(path)
  {
    var k := LastSlash(path);
    assert path[k] == '/';
    BackUp(clock, Lookup(clock, s, path[..k]).1, path[..k])
  }

  /** No unexpired entry for any prefix of `path` that ends before a slash in lo..hi. */
  ghost predicate Missing(clock: Clock, s: State, path: string, lo: int, hi: nat)
    requires hi < |path|
  {
    forall k :: lo <= k <= hi && 0 <= k && path[k] == '/' ==> NoneFresh(s.cache, clock(s.ticks), path[..k])
  }

  /** The backward loop stops at a slash with no unexpired entry for any longer prefix, whatever the entries say. */
  lemma {:induction false} BackUpKeeps(clock: Clock, s: State, path: string, h: nat, hi: nat)
    requires Monotone(clock) && ListInv(clock, s)
    requires 0 < h <= hi < |path| && path[0] == '/' && path[h] == '/'
    requires Missing(clock, s, path, h, hi)
    ensures var (s', p, parent) := BackUp(clock, s, path[..h]);
            && ListInv(clock, s') && s'.tree == s.tree && s.ticks <= s'.ticks
            && p < h && path[p] == '/'
            && Missing(clock, s', path, p + 1, hi)
            && forall q :: NoneFresh(s.cache, clock(s.ticks), q) ==> NoneFresh(s'.cache, clock(s'.ticks), q)
    decreases h
  {
    var copy := path[..h];
    var p := LastSlash(copy);
    assert copy[0] == '/';
    assert forall k :: p < k < h ==> path[k] == copy[k] && path[k] != '/';
    if p > 0 {
      assert copy[..p] == path[..p] && path[p] == copy[p];
      LookupKeeps(clock, s, path[..p]);
      var (did, s1) := Lookup(clock, s, path[..p]);
      if did == 0 {
        assert Missing(clock, s1, path, p, hi);
        BackUpKeeps(clock, s1, path, p, hi);
      }
    }
  }

  /** With truthful entries the did it stops with is the one the walk gives. */
  lemma {:induction false} BackUpSound(clock: Clock, s: State, path: string, h: nat)
    requires Monotone(clock) && Inv(clock, s)
    requires 0 < h < |path| && path[0] == '/'
    ensures var (s', p, parent) := BackUp(clock, s, path[..h]);
            Inv(clock, s') && p < h && Walk(s.tree, path[..p]) == Some(parent)
    decreases h
  {
    var copy := path[..h];
    var p := LastSlash(copy);
    assert copy[0] == '/';
    if p > 0 {
      assert copy[..p] == path[..p];
      LookupSound(clock, s, path[..p]);
      var (did, s1) := Lookup(clock, s, path[..p]);
      if did == 0 {
        BackUpSound(clock, s1, path, p);
      }
    }
  }

  /** Where a searching call starts its forward loop. */
  lemma ResumeKeeps(clock: Clock, s: State, path: string)
    requires Monotone(clock) && ListInv(clock, s) && Rooted(path) && Searches(clock, s, path)
    ensures var (s', p, parent) := Resume(clock, s, path);
            && ListInv(clock, s') && s'.tree == s.tree && s.ticks <= s'.ticks
            && path[p] == '/' && Missing(clock, s', path, p + 1, LastSlash(path))
            && forall q :: NoneFresh(s.cache, clock(s.ticks), q) ==> NoneFresh(s'.cache, clock(s'.ticks), q)
  {
    var k := LastSlash(path);
    assert path[k] == '/';
    LookupKeeps(clock, s, path[..k]);
    var s1 := Lookup(clock, s, path[..k]).1;
    assert Missing(clock, s1, path, k, k);
    BackUpKeeps(clock, s1, path, k, k);
  }

  lemma ResumeSound(clock: Clock, s: State, path: string)
    requires Monotone(clock) && Inv(clock, s) && Rooted(path) && Searches(clock, s, path)
    ensures var (s', p, parent) := Resume(clock, s, path);
            Inv(clock, s') && Walk(s.tree, path[..p]) == Some(parent)
  {
    var k := LastSlash(path);
    assert path[k] == '/';
    LookupSound(clock, s, path[..k]);
    BackUpSound(clock, Lookup(clock, s, path[..k]).1, path, k);
  }

  // ----- the forward loop: what it answers -----

  /** The names between the slash at p and the last slash. */
  function Components(path: string, p: nat): (names: seq<string>)
    requires p < |path|
    decreases |path| - p
  {
    var q := NextSlash(path, p + 1);
    if q == |path| then [] else [path[p + 1..q]] + Components(path, q)
  }

  /** Descending through names: absent ones are skipped, and a file ends the descent. */
  function Skip(t: Tree, did: nat, names: seq<string>): (r: nat)
    decreases |names|
  {
    if names == [] then did
    else
      var key := (did, names[0]);
      if key !in t then Skip(t, did, names[1..])
      else if !t[key].isdir then did
      else Skip(t, t[key].id, names[1..])
  }

  /** The same with the reply buffer still uninitialised: an absent first name is taken for whatever it holds. */
  function Answer(t: Tree, did: nat, names: seq<string>, fi: Node): (r: nat) {
    if names == [] || (did, names[0]) in t then Skip(t, did, names)
    else if fi.isdir then Skip(t, fi.id, names[1..])
    else did
  }

  /** The did the forward loop ends with, for every path and every cache. */
  lemma {:induction false} ForwardAnswers(clock: Clock, s: State, path: string, p: nat, parent: nat, fi: Node)
    requires p < |path|
    ensures Forward(clock, s, path, p, parent, fi).1 == Answer(s.tree, parent, Components(path, p), fi)
    ensures Forward(clock, s, path, p, parent, fi).0.tree == s.tree
    decreases |path| - p
  {
    var q := NextSlash(path, p + 1);
    if q < |path| {
      var got := Reply(s.tree, parent, path[p + 1..q], fi);
      var names := Components(path, p);
      assert names[0] == path[p + 1..q] && names[1..] == Components(path, q);
      if got.isdir {
        ForwardAnswers(clock, Cached(clock, s, path[..q], got.id), path, q, got.id, got);
        AnswerAfterDirectory(s.tree, names[1..], got);
      }
    }
  }

  /** Once a directory has been seen, absent names are skipped. */
  lemma AnswerAfterDirectory(t: Tree, names: seq<string>, got: Node)
    requires got.isdir
    ensures Answer(t, got.id, names, got) == Skip(t, got.id, names)
  {
  }

  lemma WalkStep(t: Tree, path: string, p: nat)
    requires p < |path| && path[p] == '/'
    requires NextSlash(path, p + 1) < |path| && Walk(t, path[..p]).Some?
    ensures var q := NextSlash(path, p + 1);
            var key := (Walk(t, path[..p]).value, path[p + 1..q]);
            Walk(t, path[..q]) == if key in t && t[key].isdir then Some(t[key].id) else None
  {
    var q := NextSlash(path, p + 1);
    SlashBefore(path, p);
    assert path[..q][..p] == path[..p] && path[..q][p + 1..] == path[p + 1..q];
  }

  /** The walk to a directory resolves every prefix of it on the way. */
  lemma WalkUpTo(t: Tree, path: string, q: nat, hi: nat)
    requires q <= hi < |path| && path[q] == '/'
    requires Walk(t, path[..hi]).Some?
    ensures Walk(t, path[..q]).Some?
  {
    if q < hi {
      WalkPrefix(t, path[..hi], q);
      assert path[..hi][..q] == path[..q];
    }
  }

  /** When the parent exists nothing is skipped: the answer is the walk's. */
  lemma {:induction false} AnswerIsWalk(t: Tree, path: string, p: nat, parent: nat, fi: Node)
    requires p < |path| && path[p] == '/' && Walk(t, path[..p]) == Some(parent)
    requires Walk(t, path[..LastSlash(path)]).Some?
    ensures Some(Answer(t, parent, Components(path, p), fi)) == Walk(t, path[..LastSlash(path)])
    ensures !Poisons(t, path, p, parent, fi)
    decreases |path| - p
  {
    var q := NextSlash(path, p + 1);
    if q == |path| {
      assert p == LastSlash(path);
    } else {
      WalkUpTo(t, path, q, LastSlash(path));
      WalkStep(t, path, p);
      var node := t[(parent, path[p + 1..q])];
      assert Components(path, p)[1..] == Components(path, q);
      AnswerIsWalk(t, path, q, node.id, node);
    }
  }

  // ----- the forward loop: what it does to the cache -----

  /** The forward loop comes to an absent name while the last reply was a directory, or the buffer looks like one. */
  predicate Poisons(t: Tree, path: string, p: nat, parent: nat, fi: Node)
    requires p < |path|
    decreases |path| - p
  {
    var q := NextSlash(path, p + 1);
    q < |path| &&
    var key := (parent, path[p + 1..q]);
    if key in t then t[key].isdir && Poisons(t, path, q, t[key].id, t[key])
    else fi.isdir
  }

  /** The loop takes an absent first name for a directory with did 0. */
  predicate CachesZero(t: Tree, path: string, p: nat, parent: nat, fi: Node)
    requires p < |path|
  {
    var q := NextSlash(path, p + 1);
    q < |path| && (parent, path[p + 1..q]) !in t && fi.isdir && fi.id == 0
  }

  /** The paths the forward loop caches. */
  function Adds(t: Tree, path: string, p: nat, parent: nat, fi: Node): (r: set<string>)
    requires p < |path|
    decreases |path| - p
  {
    var q := NextSlash(path, p + 1);
    if q == |path| then {}
    else
      var got := Reply(t, parent, path[p + 1..q], fi);
      if !got.isdir then {} else {path[..q]} + Adds(t, path, q, got.id, got)
  }

  /** Only directories above the path asked for are cached. */
  lemma {:induction false} AddsAbove(t: Tree, path: string, p: nat, parent: nat, fi: Node, dir: string)
    requires p < |path| && dir in Adds(t, path, p, parent, fi)
    ensures dir + "/" <= path && |dir| <= LastSlash(path)
    decreases |path| - p
  {
    var q := NextSlash(path, p + 1);
    var got := Reply(t, parent, path[p + 1..q], fi);
    if dir == path[..q] {
      assert path[..q] + "/" == path[..q + 1];
    } else {
      AddsAbove(t, path, q, got.id, got, dir);
    }
  }

  /** A prefix that has no unexpired entry joins the cache. */
  lemma AddKeeps(clock: Clock, s: State, path: string, did: nat)
    requires Monotone(clock) && ListInv(clock, s) && did != 0
    requires NoneFresh(s.cache, clock(s.ticks), path)
    ensures var s' := Cached(clock, s, path, did);
            && ListInv(clock, s')
            && forall q :: q != path && NoneFresh(s.cache, clock(s.ticks), q) ==> NoneFresh(s'.cache, clock(s'.ticks), q)
  {
    assert clock(s.ticks) <= clock(s.ticks + 1);
  }

  /** Caching path[..q] leaves the longer prefixes missing. */
  lemma MissingAfterAdd(clock: Clock, s: State, path: string, q: nat, did: nat, hi: nat)
    requires Monotone(clock) && ListInv(clock, s) && did != 0
    requires q <= hi < |path| && path[q] == '/'
    requires Missing(clock, s, path, q, hi)
    ensures var s' := Cached(clock, s, path[..q], did);
            ListInv(clock, s') && Missing(clock, s', path, q + 1, hi)
  {
    AddKeeps(clock, s, path[..q], did);
    assert forall k :: q < k <= hi ==> |path[..k]| != |path[..q]|;
  }

  /** The shape is kept, and only what is added gains an unexpired entry, whatever the server answers. */
  lemma {:induction false} ForwardKeeps(clock: Clock, s: State, path: string, p: nat, parent: nat, fi: Node)
    requires Monotone(clock) && ListInv(clock, s)
    requires p < |path| && path[p] == '/' && !CachesZero(s.tree, path, p, parent, fi)
    requires Missing(clock, s, path, p + 1, LastSlash(path))
    ensures var s' := Forward(clock, s, path, p, parent, fi).0;
            && ListInv(clock, s')
            && forall q :: q !in Adds(s.tree, path, p, parent, fi) && NoneFresh(s.cache, clock(s.ticks), q) ==>
                 NoneFresh(s'.cache, clock(s'.ticks), q)
    decreases |path| - p
  {
    var q := NextSlash(path, p + 1);
    if q < |path| {
      var got := Reply(s.tree, parent, path[p + 1..q], fi);
      if got.isdir {
        var s1 := Cached(clock, s, path[..q], got.id);
        AddKeeps(clock, s, path[..q], got.id);
        MissingAfterAdd(clock, s, path, q, got.id, LastSlash(path));
        ForwardKeeps(clock, s1, path, q, got.id, got);
      }
    }
  }

  /** Nothing leaves the cache on the way forward, and no clock reading is taken back. */
  lemma {:induction false} ForwardGrows(clock: Clock, s: State, path: string, p: nat, parent: nat, fi: Node)
    requires p < |path|
    ensures var s' := Forward(clock, s, path, p, parent, fi).0;
            s.ticks <= s'.ticks && forall e :: e in s.cache ==> e in s'.cache
    decreases |path| - p
  {
    var q := NextSlash(path, p + 1);
    if q < |path| {
      var got := Reply(s.tree, parent, path[p + 1..q], fi);
      if got.isdir {
        var s1 := Cached(clock, s, path[..q], got.id);
        assert forall e :: e in s.cache ==> e in s1.cache;
        ForwardGrows(clock, s1, path, q, got.id, got);
      }
    }
  }

  /** A truthful entry for a path that has none keeps the cache truthful. */
  lemma AddSound(clock: Clock, s: State, path: string, did: nat)
    requires Monotone(clock) && Inv(clock, s)
    requires Walk(s.tree, path) == Some(did)
    requires NoneFresh(s.cache, clock(s.ticks), path)
    ensures Inv(clock, Cached(clock, s, path, did))
  {
    WalkNonZero(s.tree, path);
    AddKeeps(clock, s, path, did);
    assert clock(s.ticks) <= clock(s.ticks + 1);
  }

  /** Unless it poisons the cache, the forward loop keeps it truthful, whether or not the parent exists. */
  lemma {:induction false} ForwardSound(clock: Clock, s: State, path: string, p: nat, parent: nat, fi: Node)
    requires Monotone(clock) && Inv(clock, s)
    requires p < |path| && path[p] == '/' && Walk(s.tree, path[..p]) == Some(parent)
    requires Missing(clock, s, path, p + 1, LastSlash(path))
    requires !Poisons(s.tree, path, p, parent, fi)
    ensures Inv(clock, Forward(clock, s, path, p, parent, fi).0)
    decreases |path| - p
  {
    var q := NextSlash(path, p + 1);
    if q < |path| {
      var key := (parent, path[p + 1..q]);
      if key in s.tree && s.tree[key].isdir {
        var got := s.tree[key];
        WalkStep(s.tree, path, p);
        AddSound(clock, s, path[..q], got.id);
        MissingAfterAdd(clock, s, path, q, got.id, LastSlash(path));
        ForwardSound(clock, Cached(clock, s, path[..q], got.id), path, q, got.id, got);
      }
    }
  }

  /** An entry for a directory above `path` that is not on the server, added since clock reading `since`. */
  ghost predicate Lie(clock: Clock, s: State, path: string, since: nat, e: Entry) {
    e in s.cache && Walk(s.tree, e.dirname).None? && e.time >= clock(since) && |e.dirname| < |path|
  }

  /** When it poisons the cache, it leaves an entry for a directory that is not there. */
  lemma {:induction false} ForwardLies(clock: Clock, s: State, path: string, p: nat, parent: nat, fi: Node) returns (e: Entry)
    requires Monotone(clock)
    requires p < |path| && path[p] == '/' && Walk(s.tree, path[..p]) == Some(parent)
    requires Poisons(s.tree, path, p, parent, fi)
    ensures Lie(clock, Forward(clock, s, path, p, parent, fi).0, path, s.ticks, e)
    decreases |path| - p
  {
    var q := NextSlash(path, p + 1);
    var got := Reply(s.tree, parent, path[p + 1..q], fi);
    var s1 := Cached(clock, s, path[..q], got.id);
    WalkStep(s.tree, path, p);
    ForwardAnswers(clock, s1, path, q, got.id, got);
    if (parent, path[p + 1..q]) in s.tree {
      e := ForwardLies(clock, s1, path, q, got.id, got);
      assert clock(s.ticks) <= clock(s1.ticks);
    } else {
      e := Entry(path[..q], got.id, clock(s.ticks));
      ForwardGrows(clock, s1, path, q, got.id, got);
      assert s1.cache[0] == e;
    }
  }

  /** An entry that tells the truth about a path, stamped with one of the clock readings from..to. */
  ghost predicate Filled(clock: Clock, s: State, path: string, from: nat, to: nat, e: Entry, i: nat) {
    && e in s.cache && e.dirname == path && Walk(s.tree, path) == Some(e.did)
    && from <= i < to && e.time == clock(i)
  }

  /** When the parent exists the forward loop caches every directory on the way to it, the parent included. */
  lemma {:induction false} ForwardFills(clock: Clock, s: State, path: string, p: nat, parent: nat, fi: Node, k: nat)
      returns (e: Entry, i: nat)
    requires p < k <= LastSlash(path) && path[p] == '/' && path[k] == '/'
    requires Walk(s.tree, path[..p]) == Some(parent) && Walk(s.tree, path[..LastSlash(path)]).Some?
    ensures var s' := Forward(clock, s, path, p, parent, fi).0;
            Filled(clock, s', path[..k], s.ticks, s'.ticks, e, i)
    decreases |path| - p
  {
    var q := NextSlash(path, p + 1);
    WalkUpTo(s.tree, path, q, LastSlash(path));
    WalkStep(s.tree, path, p);
    var got := s.tree[(parent, path[p + 1..q])];
    var s1 := Cached(clock, s, path[..q], got.id);
    ForwardAnswers(clock, s1, path, q, got.id, got);
    ForwardGrows(clock, s1, path, q, got.id, got);
    if k == q {
      e, i := Entry(path[..q], got.id, clock(s.ticks)), s.ticks;
      assert s1.cache[0] == e;
    } else {
      e, i := ForwardFills(clock, s1, path, q, got.id, got, k);
    }
  }

  /** One entry and one clock reading for each name on the way, and nothing else. */
  lemma {:induction false} ForwardCount(clock: Clock, s: State, path: string, p: nat, parent: nat, fi: Node)
    requires p < |path| && path[p] == '/'
    requires Walk(s.tree, path[..p]) == Some(parent) && Walk(s.tree, path[..LastSlash(path)]).Some?
    ensures var (s', n) := (Forward(clock, s, path, p, parent, fi).0, |Components(path, p)|);
            && |s'.cache| == n + |s.cache| && s'.cache[n..] == s.cache && s'.ticks == s.ticks + n
    decreases |path| - p
  {
    var q := NextSlash(path, p + 1);
    if q < |path| {
      WalkUpTo(s.tree, path, q, LastSlash(path));
      WalkStep(s.tree, path, p);
      var got := s.tree[(parent, path[p + 1..q])];
      var s1 := Cached(clock, s, path[..q], got.id);
      ForwardCount(clock, s1, path, q, got.id, got);
      var (s', n) := (Forward(clock, s1, path, q, got.id, got).0, |Components(path, q)|);
      assert s'.cache[n + 1..] == s'.cache[n..][1..] == s.cache;
    }
  }

  lemma ForwardZero(clock: Clock, s: State, path: string, p: nat, parent: nat, fi: Node) returns (e: Entry)
    requires p < |path| && CachesZero(s.tree, path, p, parent, fi)
    ensures e in Forward(clock, s, path, p, parent, fi).0.cache && e.did == 0 && e.time == clock(s.ticks)
  {
    var q := NextSlash(path, p + 1);
    var s1 := Cached(clock, s, path[..q], 0);
    e := Entry(path[..q], 0, clock(s.ticks));
    assert s1.cache[0] == e;
    ForwardGrows(clock, s1, path, q, 0, fi);
  }

  // ----- the whole call -----

  /** A call poisons the cache if its forward loop does. */
  predicate PoisonsCache(clock: Clock, s: State, path: string, fi: Node)
    requires Rooted(path)
  {
    Searches(clock, s, path) &&
    var (_, p, parent) := Resume(clock, s, path);
    Poisons(s.tree, path, p, parent, fi)
  }

  predicate ZeroesCache(clock: Clock, s: State, path: string, fi: Node)
    requires Rooted(path)
  {
    Searches(clock, s, path) &&
    var (_, p, parent) := Resume(clock, s, path);
    CachesZero(s.tree, path, p, parent, fi)
  }

  function CallAdds(clock: Clock, s: State, path: string, fi: Node): (r: set<string>)
    requires Rooted(path)
  {
    if !Searches(clock, s, path) then {}
    else
      var (_, p, parent) := Resume(clock, s, path);
      Adds(s.tree, path, p, parent, fi)
  }

  /** The call took no longer than entries live. */
  predicate Quick(clock: Clock, s: State, s': State) {
    clock(s'.ticks) <= clock(s.ticks) + TIMEOUT
  }

  /** Where a call that does not search ends. */
  lemma WithoutSearch(clock: Clock, s: State, path: string, fi: Node)
    requires Monotone(clock) && ListInv(clock, s) && Rooted(path) && !Searches(clock, s, path)
    ensures var (s', r) := GetDirid(clock, s, path, fi);
            && ListInv(clock, s') && s'.tree == s.tree && (Inv(clock, s) ==> Inv(clock, s'))
            && forall q :: NoneFresh(s.cache, clock(s.ticks), q) ==> NoneFresh(s'.cache, clock(s'.ticks), q)
  {
    var k := LastSlash(path);
    if k > 0 {
      LookupKeeps(clock, s, path[..k]);
      if Inv(clock, s) {
        LookupSound(clock, s, path[..k]);
      }
    }
  }

  lemma SearchIsForward(clock: Clock, s: State, path: string, fi: Node)
    requires Rooted(path) && Searches(clock, s, path)
    ensures var (s', p, parent) := Resume(clock, s, path);
            var (s'', did) := Forward(clock, s', path, p, parent, fi);
            GetDirid(clock, s, path, fi) == (s'', Some(did))
  {
  }

  /** Every call keeps the shape of the cache if the buffer does not look like a directory with did 0. */
  lemma GetDiridKeeps(clock: Clock, s: State, path: string, fi: Node)
    requires Monotone(clock) && ListInv(clock, s) && Rooted(path)
    requires !ZeroesCache(clock, s, path, fi)
    ensures var (s', r) := GetDirid(clock, s, path, fi);
            && ListInv(clock, s') && s'.tree == s.tree
            && forall q :: q !in CallAdds(clock, s, path, fi) && NoneFresh(s.cache, clock(s.ticks), q) ==>
                 NoneFresh(s'.cache, clock(s'.ticks), q)
  {
    if Searches(clock, s, path) {
      SearchIsForward(clock, s, path, fi);
      ResumeKeeps(clock, s, path);
      var (s', p, parent) := Resume(clock, s, path);
      ForwardKeeps(clock, s', path, p, parent, fi);
      ForwardAnswers(clock, s', path, p, parent, fi);
    } else {
      WithoutSearch(clock, s, path, fi);
    }
  }

  /**
    The exact condition for the shape: a call that takes no longer than entries live keeps it if
    and only if it does not take an absent first name for a directory with did 0.
   */
  lemma GetDiridKeepsIff(clock: Clock, s: State, path: string, fi: Node)
    requires Monotone(clock) && ListInv(clock, s) && Rooted(path)
    requires Quick(clock, s, GetDirid(clock, s, path, fi).0)
    ensures ListInv(clock, GetDirid(clock, s, path, fi).0) <==> !ZeroesCache(clock, s, path, fi)
  {
    if ZeroesCache(clock, s, path, fi) {
      SearchIsForward(clock, s, path, fi);
      ResumeKeeps(clock, s, path);
      var (s', p, parent) := Resume(clock, s, path);
      var e := ForwardZero(clock, s', path, p, parent, fi);
      assert clock(s.ticks) <= clock(s'.ticks);
    } else {
      GetDiridKeeps(clock, s, path, fi);
    }
  }

  /** get_dirid with a truthful cache: the walk to the parent where that walk succeeds. */
  lemma GetDiridSound(clock: Clock, s: State, path: string, fi: Node)
    requires Monotone(clock) && Inv(clock, s) && Rooted(path)
    ensures var (s', r) := GetDirid(clock, s, path, fi);
            && s'.tree == s.tree
            && (LastSlash(path) < 0 ==> r.None?)
            && (LastSlash(path) >= 0 && Walk(s.tree, path[..LastSlash(path)]).Some? ==>
                  r == Walk(s.tree, path[..LastSlash(path)]) && !PoisonsCache(clock, s, path, fi))
            && (!PoisonsCache(clock, s, path, fi) ==> Inv(clock, s'))
  {
    if Searches(clock, s, path) {
      SearchIsForward(clock, s, path, fi);
      ResumeKeeps(clock, s, path);
      ResumeSound(clock, s, path);
      var (s', p, parent) := Resume(clock, s, path);
      ForwardAnswers(clock, s', path, p, parent, fi);
      if !Poisons(s.tree, path, p, parent, fi) {
        ForwardSound(clock, s', path, p, parent, fi);
      }
      if Walk(s.tree, path[..LastSlash(path)]).Some? {
        AnswerIsWalk(s.tree, path, p, parent, fi);
      }
    } else {
      WithoutSearch(clock, s, path, fi);
      if LastSlash(path) > 0 {
        LookupSound(clock, s, path[..LastSlash(path)]);
      }
    }
  }

  /**
    get_dirid when the parent does not exist: no error, but the did reached from the
    directory p stands for, truthfully, by skipping every absent name; a first absent name is
    taken for whatever the uninitialised buffer holds, if that looks like a directory.
   */
  lemma GetDiridAnswers(clock: Clock, s: State, path: string, fi: Node) returns (p: nat, did: nat)
    requires Monotone(clock) && Inv(clock, s) && Rooted(path)
    requires LastSlash(path) > 0 && Walk(s.tree, path[..LastSlash(path)]).None?
    ensures Searches(clock, s, path) && (p, did) == (Resume(clock, s, path).1, Resume(clock, s, path).2)
    ensures p < LastSlash(path) && path[p] == '/' && Walk(s.tree, path[..p]) == Some(did)
    ensures GetDirid(clock, s, path, fi).1 == Some(Answer(s.tree, did, Components(path, p), fi))
  {
    GoneNeverHits(clock, s, path[..LastSlash(path)]);
    SearchIsForward(clock, s, path, fi);
    ResumeKeeps(clock, s, path);
    ResumeSound(clock, s, path);
    p, did := Resume(clock, s, path).1, Resume(clock, s, path).2;
    ForwardAnswers(clock, Resume(clock, s, path).0, path, p, did, fi);
  }

  /** A poisoning call leaves an entry that lies. */
  lemma PoisonLies(clock: Clock, s: State, path: string, fi: Node) returns (e: Entry)
    requires Monotone(clock) && Inv(clock, s) && Rooted(path) && PoisonsCache(clock, s, path, fi)
    ensures Lie(clock, GetDirid(clock, s, path, fi).0, path, s.ticks, e)
  {
    SearchIsForward(clock, s, path, fi);
    ResumeKeeps(clock, s, path);
    ResumeSound(clock, s, path);
    var (s', p, parent) := Resume(clock, s, path);
    e := ForwardLies(clock, s', path, p, parent, fi);
    assert clock(s.ticks) <= clock(s'.ticks);
  }

  /**
    The exact condition for the truth: a call that takes no longer than entries live leaves a
    truthful cache if and only if its forward loop does not come to an absent name while its last
    reply was a directory. A missing parent alone does no harm.
   */
  lemma GetDiridTruthfulIff(clock: Clock, s: State, path: string, fi: Node)
    requires Monotone(clock) && Inv(clock, s) && Rooted(path)
    requires Quick(clock, s, GetDirid(clock, s, path, fi).0)
    ensures Inv(clock, GetDirid(clock, s, path, fi).0) <==> !PoisonsCache(clock, s, path, fi)
  {
    GetDiridSound(clock, s, path, fi);
    if PoisonsCache(clock, s, path, fi) {
      var e := PoisonLies(clock, s, path, fi);
    }
  }

  /**
    What a call leaves behind: if it searched and the parent exists, every directory above the
    path that it did not find in the cache, the parent included, has a truthful entry stamped
    during the call.
   */
  lemma GetDiridFills(clock: Clock, s: State, path: string, fi: Node, k: nat) returns (e: Entry, i: nat)
    requires Monotone(clock) && Inv(clock, s) && Rooted(path) && Searches(clock, s, path)
    requires Walk(s.tree, path[..LastSlash(path)]).Some?
    requires Resume(clock, s, path).1 < k <= LastSlash(path) && path[k] == '/'
    ensures var s' := GetDirid(clock, s, path, fi).0;
            Filled(clock, s', path[..k], s.ticks, s'.ticks, e, i)
  {
    SearchIsForward(clock, s, path, fi);
    ResumeKeeps(clock, s, path);
    ResumeSound(clock, s, path);
    var (s1, p, parent) := Resume(clock, s, path);
    e, i := ForwardFills(clock, s1, path, p, parent, fi, k);
  }

  /** After a quick call, the parent it resolved is found in the cache, with the walk's did. */
  lemma ResolvedThenFound(clock: Clock, s: State, path: string, fi: Node)
    requires Monotone(clock) && Inv(clock, s) && Rooted(path) && LastSlash(path) > 0
    requires Walk(s.tree, path[..LastSlash(path)]).Some? && Searches(clock, s, path)
    requires Quick(clock, s, GetDirid(clock, s, path, fi).0)
    ensures var s' := GetDirid(clock, s, path, fi).0;
            Some(Lookup(clock, s', path[..LastSlash(path)]).0) == Walk(s.tree, path[..LastSlash(path)])
  {
    var k := LastSlash(path);
    GetDiridSound(clock, s, path, fi);
    var s' := GetDirid(clock, s, path, fi).0;
    var e, i := GetDiridFills(clock, s, path, fi, k);
    FoundWhileFresh(clock, s', path[..k], e);
  }

  /** In a truthful cache an unexpired entry is found. */
  lemma FoundWhileFresh(clock: Clock, s: State, path: string, e: Entry)
    requires Monotone(clock) && Inv(clock, s)
    requires e in s.cache && e.dirname == path && Fresh(e, clock(s.ticks))
    ensures Some(Lookup(clock, s, path).0) == Walk(s.tree, path)
  {
    LookupKeeps(clock, s, path);
    LookupSound(clock, s, path);
    var i :| 0 <= i < |s.cache| && s.cache[i] == e;
  }

  /** An entry is found for ten seconds after it was cached, and not in the eleventh. */
  lemma TenSeconds(clock: Clock, s: State, path: string, did: nat, later: nat)
    requires did != 0 && later > s.ticks && clock(later) >= clock(s.ticks) && s.cache == []
    ensures var s' := State(s.tree, Cached(clock, s, path, did).cache, later);
            Lookup(clock, s', path).0 == if clock(later) - clock(s.ticks) <= 10 then did else 0
  {
    var s' := State(s.tree, Cached(clock, s, path, did).cache, later);
    assert s'.cache == [Entry(path, did, clock(s.ticks))];
    assert FindFrom(s'.cache, 0, clock(later), path).0 == if clock(later) - clock(s.ticks) <= 10 then did else 0;
  }
}
