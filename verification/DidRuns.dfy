/**
  Runs of a mounted volume: path resolutions, directory and file creations on
  the server and ml_rmdir calls, in any order and with any clock that does not
  go backwards, compared with a volume that has no cache.
 */
module DidRuns {
  import opened Paths
  import opened DidCache
  import opened DidResolver

  datatype Op =
    | Resolve(path: string)
    | Create(parent: nat, name: string, node: Node)
    | Rmdir(path: string, rc: int)

  datatype Out =
    | BadPath
    | Resolved(did: nat, basename: string)
    | Unresolvable
    | Created
    | NotCreated
    | Removed
    | NotDir
    | Failed(errno: int)

  /** What the C code demands of its callers: an absolute path wherever the path has a parent. */
  predicate Callable(op: Op) {
    match op
    case Resolve(path) => Rooted(path)
    case Create(_, _, _) => true
    case Rmdir(path, _) => path != "" && path[0] == '/'
  }

  // ----- the server -----

  predicate IsDirId(t: Tree, did: nat) {
    did == ROOT_DID || exists k :: k in t && t[k].isdir && t[k].id == did
  }

  /** The server accepts a new name in an existing directory and gives the node an id of its own. */
  predicate Acceptable(t: Tree, parent: nat, name: string, node: Node) {
    && name != "" && '/' !in name
    && IsDirId(t, parent) && (parent, name) !in t
    && node.id != 0 && node.id != ROOT_DID
    && forall k :: k in t ==> t[k].id != node.id
  }

  function CreateOn(t: Tree, parent: nat, name: string, node: Node): (r: (Tree, Out)) {
    if Acceptable(t, parent, name, node) then (t[(parent, name) := node], Created) else (t, NotCreated)
  }

  const ENOTEMPTY: int := 39

  /** The errno ml_rmdir reports for the server's answer to the deletion; codes it does not know count as success. */
  function Errno(rc: int): (e: int)
    ensures e >= 0
  {
    if rc == -5000 || rc == -5031 then 13                               // kFPAccessDenied, kFPVolLocked, EACCES
    else if rc == -5032 then 16                                         // kFPObjectLocked, EBUSY
    else if rc == -5018 then 2                                          // kFPObjectNotFound, ENOENT
    else if rc == -5007 then ENOTEMPTY                                  // kFPDirNotEmpty
    else if rc == -5025 || rc == -5014 || rc == -5019 || rc == -1 then 22   // kFPObjectTypeErr, kFPMiscErr, kFPParamErr, EINVAL
    else 0
  }

  /** is_dir and afp_delete on `name` in directory `did`; rc is the server's objection to the deletion, 0 for none. */
  function RmdirOn(t: Tree, did: nat, name: string, rc: int): (r: (Tree, Out)) {
    var key := (did, name);
    if key !in t || !t[key].isdir then (t, NotDir)
    else if rc != 0 then (t, if Errno(rc) == 0 then Removed else Failed(Errno(rc)))
    else if exists k :: k in t && k.0 == t[key].id then (t, Failed(ENOTEMPTY))
    else (t - {key}, Removed)
  }

  function Basename(path: string): (r: string) {
    path[LastSlash(path) + 1..]
  }

  // ----- the client with its cache -----

  function Step(clock: Clock, s: State, op: Op, fi: Node): (r: (State, Out))
    requires Callable(op)
  {
    match op
    case Resolve(path) =>
      var (s1, did) := GetDirid(clock, s, path, fi);
      (s1, if did.None? then BadPath else Resolved(did.value, Basename(path)))
    case Create(parent, name, node) =>
      var (t, out) := CreateOn(s.tree, parent, name, node);
      (s.(tree := t), out)
    case Rmdir(path, rc) =>
      var (s1, did) := GetDirid(clock, s, path, fi);
      var (t, out) := RmdirOn(s1.tree, did.GetOr(0), Basename(path), rc);
      (State(t, if out == Removed then Remove(s1.cache, path) else s1.cache, s1.ticks), out)
  }

  /** A whole run. `garbage` is what the uninitialised reply buffer of each call happens to hold. */
  function Run(clock: Clock, s: State, ops: seq<Op>, garbage: nat -> Node): (r: (State, seq<Out>))
    requires forall op :: op in ops ==> Callable(op)
    decreases |ops|
  {
    if ops == [] then (s, [])
    else
      var (s1, out) := Step(clock, s, ops[0], garbage(|ops|));
      var (s2, outs) := Run(clock, s1, ops[1..], garbage);
      (s2, [out] + outs)
  }

  // ----- the client without a cache -----

  function RefStep(t: Tree, op: Op): (r: (Tree, Out)) {
    match op
    case Resolve(path) =>
      if LastSlash(path) < 0 then (t, BadPath)
      else
        var d := Walk(t, path[..LastSlash(path)]);
        (t, if d.None? then Unresolvable else Resolved(d.value, Basename(path)))
    case Create(parent, name, node) => CreateOn(t, parent, name, node)
    case Rmdir(path, rc) =>
      if LastSlash(path) < 0 then (t, BadPath)
      else
        var d := Walk(t, path[..LastSlash(path)]);
        if d.None? then (t, Unresolvable) else RmdirOn(t, d.value, Basename(path), rc)
  }

  function RefRun(t: Tree, ops: seq<Op>): (r: (Tree, seq<Out>))
    decreases |ops|
  {
    if ops == [] then (t, [])
    else
      var (t1, out) := RefStep(t, ops[0]);
      var (t2, outs) := RefRun(t1, ops[1..]);
      (t2, [out] + outs)
  }

  // ----- the shape of the cache, in every run -----

  lemma CreateKeeps(clock: Clock, s: State, parent: nat, name: string, node: Node)
    requires ListInv(clock, s)
    ensures ListInv(clock, s.(tree := CreateOn(s.tree, parent, name, node).0))
  {
  }

  /** The last part of ml_rmdir, in directory `did`. */
  function Deleted(s: State, path: string, did: nat, rc: int): (r: State) {
    var (t, out) := RmdirOn(s.tree, did, Basename(path), rc);
    State(t, if out == Removed then Remove(s.cache, path) else s.cache, s.ticks)
  }

  lemma DeletedTree(t: Tree, did: nat, name: string, rc: int)
    requires ValidTree(t)
    ensures var (t', out) := RmdirOn(t, did, name, rc);
            var key := (did, name);
            && ValidTree(t')
            && (t' == t || (t' == t - {key} && key in t && forall k :: k in t ==> k.0 != t[key].id))
  {
  }

  /** Dropping the first entry for the path is enough, wherever the deletion took place. */
  lemma RemoveKeeps(clock: Clock, s: State, path: string)
    requires ListInv(clock, s)
    ensures var (s', now) := (s.(cache := Remove(s.cache, path)), clock(s.ticks));
            && ListInv(clock, s') && (Inv(clock, s) ==> Inv(clock, s'))
            && NoneFresh(s'.cache, now, path)
            && (forall q :: NoneFresh(s.cache, now, q) ==> NoneFresh(s'.cache, now, q))
            && forall e :: e in s.cache && e.dirname != path ==> e in s'.cache
  {
    var now := clock(s.ticks);
    RemoveLeavesNoneFresh(s.cache, now, path);
    var at := RemoveUnlinks(s.cache, path);
    EmbedsKeeps(Remove(s.cache, path), s.cache, at, now);
  }

  lemma DeletedKeeps(clock: Clock, s: State, path: string, did: nat, rc: int)
    requires ListInv(clock, s)
    ensures var (s', now) := (Deleted(s, path, did, rc), clock(s.ticks));
            && ListInv(clock, s')
            && (RmdirOn(s.tree, did, Basename(path), rc).1 == Removed ==> NoneFresh(s'.cache, now, path))
            && forall q :: NoneFresh(s.cache, now, q) ==> NoneFresh(s'.cache, now, q)
  {
    DeletedTree(s.tree, did, Basename(path), rc);
    RemoveKeeps(clock, s, path);
  }

  lemma RmdirIsDeleted(clock: Clock, s: State, path: string, rc: int, fi: Node)
    requires path != "" && path[0] == '/'
    ensures var (s1, did) := GetDirid(clock, s, path, fi);
            Step(clock, s, Rmdir(path, rc), fi).0 == Deleted(s1, path, did.GetOr(0), rc)
  {
  }

  /** The paths a step caches. */
  function StepAdds(clock: Clock, s: State, op: Op, fi: Node): (r: set<string>)
    requires Callable(op)
  {
    if op.Create? then {} else CallAdds(clock, s, op.path, fi)
  }

  /** Every step keeps the shape, missing parents included, and only what it caches gains an unexpired entry. */
  lemma StepKeeps(clock: Clock, s: State, op: Op, fi: Node)
    requires Monotone(clock) && ListInv(clock, s) && Callable(op)
    requires fi.isdir ==> fi.id != 0
    ensures var (s', out) := Step(clock, s, op, fi);
            && ListInv(clock, s')
            && (out == Removed ==> op.Rmdir? && NoneFresh(s'.cache, clock(s'.ticks), op.path))
            && forall q :: q !in StepAdds(clock, s, op, fi) && NoneFresh(s.cache, clock(s.ticks), q) ==>
                 NoneFresh(s'.cache, clock(s'.ticks), q)
  {
    match op
    case Resolve(path) =>
      GetDiridKeeps(clock, s, path, fi);
    case Create(parent, name, node) =>
      CreateKeeps(clock, s, parent, name, node);
    case Rmdir(path, rc) =>
      GetDiridKeeps(clock, s, path, fi);
      var (s1, did) := GetDirid(clock, s, path, fi);
      RmdirIsDeleted(clock, s, path, rc, fi);
      DeletedKeeps(clock, s1, path, did.GetOr(0), rc);
  }

  /** The uninitialised reply buffer never looks like a directory with did 0. */
  ghost predicate Sane(garbage: nat -> Node) {
    forall i: nat :: garbage(i).isdir ==> garbage(i).id != 0
  }

  function RunAdds(clock: Clock, s: State, ops: seq<Op>, garbage: nat -> Node): (r: set<string>)
    requires forall op :: op in ops ==> Callable(op)
    decreases |ops|
  {
    if ops == [] then {}
    else
      StepAdds(clock, s, ops[0], garbage(|ops|))
      + RunAdds(clock, Step(clock, s, ops[0], garbage(|ops|)).0, ops[1..], garbage)
  }

  lemma {:induction false} RunKeeps(clock: Clock, s: State, ops: seq<Op>, garbage: nat -> Node)
    requires Monotone(clock) && ListInv(clock, s) && Sane(garbage)
    requires forall op :: op in ops ==> Callable(op)
    ensures var s' := Run(clock, s, ops, garbage).0;
            && ListInv(clock, s')
            && forall q :: q !in RunAdds(clock, s, ops, garbage) && NoneFresh(s.cache, clock(s.ticks), q) ==>
                 NoneFresh(s'.cache, clock(s'.ticks), q)
    decreases |ops|
  {
    if ops != [] {
      StepKeeps(clock, s, ops[0], garbage(|ops|));
      RunKeeps(clock, Step(clock, s, ops[0], garbage(|ops|)).0, ops[1..], garbage);
    }
  }

  /**
    In every reachable state, whatever was resolved, missing parents included, the list is newest
    first and has at most one unexpired entry per path.
   */
  lemma ReachableInv(clock: Clock, t: Tree, ops: seq<Op>, garbage: nat -> Node)
    requires Monotone(clock) && ValidTree(t) && Sane(garbage)
    requires forall op :: op in ops ==> Callable(op)
    ensures ListInv(clock, Run(clock, State(t, [], 0), ops, garbage).0)
  {
    RunKeeps(clock, State(t, [], 0), ops, garbage);
  }

  /**
    In every reachable state, a path for which ml_rmdir reported success is not found in the
    cache, at once and after any further run that does not cache it again.
   */
  lemma RemovedStaysGone(clock: Clock, t: Tree, before: seq<Op>, garbage: nat -> Node,
                         path: string, rc: int, fi: Node, after: seq<Op>, garbage': nat -> Node)
    requires Monotone(clock) && ValidTree(t) && Sane(garbage) && Sane(garbage') && (fi.isdir ==> fi.id != 0)
    requires path != "" && path[0] == '/'
    requires forall op :: op in before ==> Callable(op)
    requires forall op :: op in after ==> Callable(op)
    requires var s := Run(clock, State(t, [], 0), before, garbage).0;
             var (s1, out) := Step(clock, s, Rmdir(path, rc), fi);
             out == Removed && path !in RunAdds(clock, s1, after, garbage')
    ensures var s := Run(clock, State(t, [], 0), before, garbage).0;
            var s1 := Step(clock, s, Rmdir(path, rc), fi).0;
            Lookup(clock, Run(clock, s1, after, garbage').0, path).0 == 0
  {
    ReachableInv(clock, t, before, garbage);
    var s := Run(clock, State(t, [], 0), before, garbage).0;
    StepKeeps(clock, s, Rmdir(path, rc), fi);
    var s1 := Step(clock, s, Rmdir(path, rc), fi).0;
    RunKeeps(clock, s1, after, garbage');
    LookupKeeps(clock, Run(clock, s1, after, garbage').0, path);
  }

  /** What it takes to cache a directory again: resolving a path below it. */
  lemma {:induction false} CachedAgainFromBelow(clock: Clock, s: State, ops: seq<Op>, garbage: nat -> Node, dir: string)
    requires forall op :: op in ops ==> Callable(op)
    requires forall op :: op in ops && !op.Create? ==> !(dir + "/" <= op.path)
    ensures dir !in RunAdds(clock, s, ops, garbage)
    decreases |ops|
  {
    if ops != [] {
      var op, fi := ops[0], garbage(|ops|);
      if dir in StepAdds(clock, s, op, fi) {
        var (_, p, parent) := Resume(clock, s, op.path);
        AddsAbove(s.tree, op.path, p, parent, fi, dir);
      }
      CachedAgainFromBelow(clock, Step(clock, s, op, fi).0, ops[1..], garbage, dir);
    }
  }

  // ----- the truth of the cache, step by step -----

  /** A creation keeps every unexpired entry truthful. */
  lemma CreateSound(clock: Clock, s: State, parent: nat, name: string, node: Node)
    requires Inv(clock, s)
    ensures Inv(clock, s.(tree := CreateOn(s.tree, parent, name, node).0))
  {
    CreateKeeps(clock, s, parent, name, node);
    if Acceptable(s.tree, parent, name, node) {
      forall e | e in s.cache && Fresh(e, clock(s.ticks))
        ensures Walk(s.tree[(parent, name) := node], e.dirname) == Some(e.did)
      {
        WalkGrows(s.tree, (parent, name), node, e.dirname);
      }
    }
  }

  /** The node named is an empty directory and the server does not object. */
  ghost predicate Deletes(t: Tree, key: (nat, string), rc: int) {
    rc == 0 && key in t && t[key].isdir && forall k :: k in t ==> k.0 != t[key].id
  }

  lemma DeletedCases(s: State, path: string, did: nat, rc: int)
    ensures var key := (did, Basename(path));
            var s' := Deleted(s, path, did, rc);
            if Deletes(s.tree, key, rc) then s' == State(s.tree - {key}, Remove(s.cache, path), s.ticks)
            else s' == s || s' == s.(cache := Remove(s.cache, path))
  {
  }

  /** The directory that is deleted is cached under another path than the one given. */
  ghost predicate Misses(clock: Clock, s: State, path: string, did: nat, rc: int) {
    var key := (did, Basename(path));
    && Deletes(s.tree, key, rc)
    && exists e :: e in s.cache && Fresh(e, clock(s.ticks)) && e.did == s.tree[key].id && e.dirname != path
  }

  lemma DeletedLies(clock: Clock, s: State, path: string, did: nat, rc: int)
    requires Inv(clock, s) && Misses(clock, s, path, did, rc)
    ensures !Inv(clock, Deleted(s, path, did, rc))
  {
    var key := (did, Basename(path));
    var e :| e in s.cache && Fresh(e, clock(s.ticks)) && e.did == s.tree[key].id && e.dirname != path;
    RemoveKeeps(clock, s, path);
    DeletedCases(s, path, did, rc);
    WalkWithout(s.tree, key, e.dirname);
  }

  /** Deleting a directory to which no unexpired entry leads keeps the cache truthful. */
  lemma TreeShrinks(clock: Clock, s: State, key: (nat, string))
    requires Inv(clock, s) && key in s.tree && forall k :: k in s.tree ==> k.0 != s.tree[key].id
    requires forall e :: e in s.cache && Fresh(e, clock(s.ticks)) ==> e.did != s.tree[key].id
    ensures Inv(clock, s.(tree := s.tree - {key}))
  {
    forall e | e in s.cache && Fresh(e, clock(s.ticks)) ensures Walk(s.tree - {key}, e.dirname) == Some(e.did) {
      WalkWithout(s.tree, key, e.dirname);
    }
  }

  /** If only the path itself is cached for a did, no unexpired entry for the did is left. */
  lemma NoneLeft(clock: Clock, s: State, path: string, id: nat)
    requires ListInv(clock, s)
    requires forall e :: e in s.cache && Fresh(e, clock(s.ticks)) && e.did == id ==> e.dirname == path
    ensures forall e :: e in Remove(s.cache, path) && Fresh(e, clock(s.ticks)) ==> e.did != id
  {
    var left := Remove(s.cache, path);
    RemoveLeavesNoneFresh(s.cache, clock(s.ticks), path);
    var at := RemoveUnlinks(s.cache, path);
    forall e | e in left && Fresh(e, clock(s.ticks)) ensures e.did != id {
      var i :| 0 <= i < |left| && left[i] == e;
      assert e.dirname != path && e in s.cache;
    }
  }

  lemma DeletedSound(clock: Clock, s: State, path: string, did: nat, rc: int)
    requires Inv(clock, s) && !Misses(clock, s, path, did, rc)
    ensures Inv(clock, Deleted(s, path, did, rc))
  {
    var key := (did, Basename(path));
    DeletedCases(s, path, did, rc);
    RemoveKeeps(clock, s, path);
    if Deletes(s.tree, key, rc) {
      NoneLeft(clock, s, path, s.tree[key].id);
      TreeShrinks(clock, s.(cache := Remove(s.cache, path)), key);
    }
  }

  /** A lie about a directory above `path` outlives the deletion of `path`. */
  lemma LieStays(clock: Clock, s: State, path: string, did: nat, rc: int, since: nat, e: Entry)
    requires Lie(clock, s, path, since, e)
    ensures Lie(clock, Deleted(s, path, did, rc), path, since, e)
  {
    var at := RemoveUnlinks(s.cache, path);
    WalkLess(s.tree, (did, Basename(path)), e.dirname);
  }

  /** What makes a step harmful. */
  ghost predicate Harmful(clock: Clock, s: State, op: Op, fi: Node)
    requires Callable(op)
  {
    match op
    case Resolve(path) => PoisonsCache(clock, s, path, fi)
    case Create(_, _, _) => false
    case Rmdir(path, rc) =>
      var (s1, did) := GetDirid(clock, s, path, fi);
      PoisonsCache(clock, s, path, fi) || Misses(clock, s1, path, did.GetOr(0), rc)
  }

  lemma HarmlessRmdir(clock: Clock, s: State, path: string, rc: int, fi: Node)
    requires Monotone(clock) && Inv(clock, s) && path != "" && path[0] == '/'
    requires !PoisonsCache(clock, s, path, fi)
    requires var (s1, did) := GetDirid(clock, s, path, fi); !Misses(clock, s1, path, did.GetOr(0), rc)
    ensures Inv(clock, Step(clock, s, Rmdir(path, rc), fi).0)
  {
    GetDiridSound(clock, s, path, fi);
    var (s1, did) := GetDirid(clock, s, path, fi);
    RmdirIsDeleted(clock, s, path, rc, fi);
    DeletedSound(clock, s1, path, did.GetOr(0), rc);
  }

  lemma HarmlessStep(clock: Clock, s: State, op: Op, fi: Node)
    requires Monotone(clock) && Inv(clock, s) && Callable(op) && !Harmful(clock, s, op, fi)
    ensures Inv(clock, Step(clock, s, op, fi).0)
  {
    match op
    case Resolve(path) =>
      GetDiridSound(clock, s, path, fi);
    case Create(parent, name, node) =>
      CreateSound(clock, s, parent, name, node);
    case Rmdir(path, rc) =>
      HarmlessRmdir(clock, s, path, rc, fi);
  }

  lemma HarmfulRmdir(clock: Clock, s: State, path: string, rc: int, fi: Node)
    requires Monotone(clock) && Inv(clock, s) && path != "" && path[0] == '/'
    requires Harmful(clock, s, Rmdir(path, rc), fi)
    requires Quick(clock, s, Step(clock, s, Rmdir(path, rc), fi).0)
    ensures !Inv(clock, Step(clock, s, Rmdir(path, rc), fi).0)
  {
    RmdirIsDeleted(clock, s, path, rc, fi);
    var (s1, did) := GetDirid(clock, s, path, fi);
    if PoisonsCache(clock, s, path, fi) {
      var e := PoisonLies(clock, s, path, fi);
      LieStays(clock, s1, path, did.GetOr(0), rc, s.ticks, e);
    } else {
      GetDiridSound(clock, s, path, fi);
      DeletedLies(clock, s1, path, did.GetOr(0), rc);
    }
  }

  /**
    The exact condition: from a truthful cache, a step that takes no longer than entries live
    leaves a truthful cache if and only if its resolution does not poison the cache and it does not
    delete a directory that is cached under another path than the one given.
   */
  lemma StepTruthfulIff(clock: Clock, s: State, op: Op, fi: Node)
    requires Monotone(clock) && Inv(clock, s) && Callable(op)
    requires Quick(clock, s, Step(clock, s, op, fi).0)
    ensures Inv(clock, Step(clock, s, op, fi).0) <==> !Harmful(clock, s, op, fi)
  {
    if !Harmful(clock, s, op, fi) {
      HarmlessStep(clock, s, op, fi);
    } else if op.Resolve? {
      GetDiridTruthfulIff(clock, s, op.path, fi);
    } else {
      HarmfulRmdir(clock, s, op.path, op.rc, fi);
    }
  }

  // ----- refinement of the plain walk -----

  /** With the parent on the server, the directory deleted is the one at the path given. */
  lemma RightDirectory(clock: Clock, s: State, path: string, did: nat, rc: int)
    requires Inv(clock, s) && path != "" && path[0] == '/'
    requires Walk(s.tree, path[..LastSlash(path)]) == Some(did)
    ensures !Misses(clock, s, path, did, rc)
  {
    var key := (did, Basename(path));
    if Deletes(s.tree, key, rc) {
      assert Walk(s.tree, path) == Some(s.tree[key].id);
      forall e | e in s.cache && Fresh(e, clock(s.ticks)) && e.did == s.tree[key].id ensures e.dirname == path {
        WalkInjective(s.tree, e.dirname, path);
      }
    }
  }

  /** A step whose parent exists is harmless and does what the uncached client does. */
  lemma StepSound(clock: Clock, s: State, op: Op, fi: Node)
    requires Monotone(clock) && Inv(clock, s) && Callable(op)
    requires RefStep(s.tree, op).1 != Unresolvable
    ensures !Harmful(clock, s, op, fi)
    ensures var (s', out) := Step(clock, s, op, fi);
            Inv(clock, s') && (s'.tree, out) == RefStep(s.tree, op)
  {
    if !op.Create? {
      GetDiridSound(clock, s, op.path, fi);
      if op.Rmdir? {
        var (s1, did) := GetDirid(clock, s, op.path, fi);
        RightDirectory(clock, s1, op.path, did.GetOr(0), op.rc);
      }
    }
    HarmlessStep(clock, s, op, fi);
  }

  /** No step of a run is harmful. */
  ghost predicate Harmless(clock: Clock, s: State, ops: seq<Op>, garbage: nat -> Node)
    requires forall op :: op in ops ==> Callable(op)
    decreases |ops|
  {
    ops == [] ||
    (!Harmful(clock, s, ops[0], garbage(|ops|))
     && Harmless(clock, Step(clock, s, ops[0], garbage(|ops|)).0, ops[1..], garbage))
  }

  /** Every step whose parent exists on the server at that moment does what the uncached client would do there. */
  ghost predicate Truthful(clock: Clock, s: State, ops: seq<Op>, garbage: nat -> Node)
    requires forall op :: op in ops ==> Callable(op)
    decreases |ops|
  {
    ops == [] ||
    var (s1, out) := Step(clock, s, ops[0], garbage(|ops|));
    && (RefStep(s.tree, ops[0]).1 != Unresolvable ==> (s1.tree, out) == RefStep(s.tree, ops[0]))
    && Truthful(clock, s1, ops[1..], garbage)
  }

  /**
    Runs that do resolve below missing directories: as long as no step is harmful, the cache stays
    truthful and every step whose parent exists is right.
   */
  lemma {:induction false} HarmlessRun(clock: Clock, s: State, ops: seq<Op>, garbage: nat -> Node)
    requires Monotone(clock) && Inv(clock, s)
    requires forall op :: op in ops ==> Callable(op)
    requires Harmless(clock, s, ops, garbage)
    ensures Inv(clock, Run(clock, s, ops, garbage).0) && Truthful(clock, s, ops, garbage)
    decreases |ops|
  {
    if ops != [] {
      var fi := garbage(|ops|);
      HarmlessStep(clock, s, ops[0], fi);
      if RefStep(s.tree, ops[0]).1 != Unresolvable {
        StepSound(clock, s, ops[0], fi);
      }
      HarmlessRun(clock, Step(clock, s, ops[0], fi).0, ops[1..], garbage);
    }
  }

  lemma {:induction false} RunSound(clock: Clock, s: State, ops: seq<Op>, garbage: nat -> Node)
    requires Monotone(clock) && Inv(clock, s)
    requires forall op :: op in ops ==> Callable(op)
    requires Unresolvable !in RefRun(s.tree, ops).1
    ensures Harmless(clock, s, ops, garbage)
    ensures var (s', outs) := Run(clock, s, ops, garbage);
            Inv(clock, s') && (s'.tree, outs) == RefRun(s.tree, ops)
    decreases |ops|
  {
    if ops != [] {
      assert RefRun(s.tree, ops).1[0] == RefStep(s.tree, ops[0]).1;
      StepSound(clock, s, ops[0], garbage(|ops|));
      var s1 := Step(clock, s, ops[0], garbage(|ops|)).0;
      var tail := RefRun(s1.tree, ops[1..]).1;
      assert RefRun(s.tree, ops).1[1..] == tail;
      assert forall o :: o in tail ==> o in RefRun(s.tree, ops).1;
      RunSound(clock, s1, ops[1..], garbage);
    }
  }

  /**
    The cache refines the plain walk. Starting with an empty cache, a run in which every parent
    asked for exists at that moment gives every answer the uncached client gives, leaves the same
    tree on the server, and a cache in which no directory that is gone is found.
   */
  lemma CacheRefinesWalk(clock: Clock, t: Tree, ops: seq<Op>, garbage: nat -> Node)
    requires Monotone(clock) && ValidTree(t)
    requires forall op :: op in ops ==> Callable(op)
    requires Unresolvable !in RefRun(t, ops).1
    ensures var (s, outs) := Run(clock, State(t, [], 0), ops, garbage);
            && (s.tree, outs) == RefRun(t, ops)
            && Inv(clock, s)
            && forall path :: Walk(s.tree, path).None? ==> Lookup(clock, s, path).0 == 0
  {
    RunSound(clock, State(t, [], 0), ops, garbage);
    var s := Run(clock, State(t, [], 0), ops, garbage).0;
    forall path | Walk(s.tree, path).None? ensures Lookup(clock, s, path).0 == 0 {
      GoneNeverHits(clock, s, path);
    }
  }

  /**
    ml_rmdir below a missing directory: it deletes, in the directory get_dirid skipped to, a
    directory of the same last name, exactly when there is an empty one and the server agrees.
   */
  lemma RmdirBelowMissing(clock: Clock, s: State, path: string, rc: int, fi: Node) returns (p: nat, did: nat)
    requires Monotone(clock) && Inv(clock, s) && path != "" && path[0] == '/'
    requires Walk(s.tree, path[..LastSlash(path)]).None?
    ensures p < LastSlash(path) && path[p] == '/' && Walk(s.tree, path[..p]) == Some(did)
    ensures var key := (Answer(s.tree, did, Components(path, p), fi), Basename(path));
            Step(clock, s, Rmdir(path, rc), fi).0.tree ==
            if Deletes(s.tree, key, rc) then s.tree - {key} else s.tree
  {
    p, did := GetDiridAnswers(clock, s, path, fi);
    GetDiridSound(clock, s, path, fi);
    RmdirIsDeleted(clock, s, path, rc, fi);
    DeletedCases(GetDirid(clock, s, path, fi).0, path, Answer(s.tree, did, Components(path, p), fi), rc);
  }

  lemma BasenameIs(dir: string, name: string)
    requires '/' !in name
    ensures Basename(dir + "/" + name) == name
  {
    JoinSplits(dir + "/" + name, dir, name);
  }

  /** What is reported of a directory: deleted, something in it, or the errno for one of nine codes. */
  ghost predicate Reports(out: Out, empty: bool, rc: int) {
    && (rc == 0 ==> out == if empty then Removed else Failed(39))
    && (rc == -5000 || rc == -5031 ==> out == Failed(13))
    && (rc == -5032 ==> out == Failed(16))
    && (rc == -5018 ==> out == Failed(2))
    && (rc == -5007 ==> out == Failed(39))
    && (rc in {-5025, -5014, -5019, -1} ==> out == Failed(22))
    && (rc !in {0, -5000, -5031, -5032, -5018, -5007, -5025, -5014, -5019, -1} ==> out == Removed)
  }

  ghost predicate Empty(t: Tree, did: nat) {
    forall k :: k in t ==> k.0 != did
  }

  lemma RmdirOnReports(t: Tree, did: nat, name: string, rc: int)
    ensures var key := (did, name);
            var out := RmdirOn(t, did, name, rc).1;
            if key in t && t[key].isdir then Reports(out, Empty(t, t[key].id), rc) else out == NotDir
  {
  }

  /**
    What ml_rmdir reports when the parent exists: that there is no directory at the path, or what
    became of it; and it is gone exactly if it was empty and the server did not object.
   */
  lemma RmdirReports(clock: Clock, s: State, path: string, rc: int, fi: Node)
    requires Monotone(clock) && Inv(clock, s) && path != "" && path[0] == '/'
    requires Walk(s.tree, path[..LastSlash(path)]).Some?
    ensures var (s', out) := Step(clock, s, Rmdir(path, rc), fi);
            match Walk(s.tree, path)
            case None => out == NotDir && s'.tree == s.tree
            case Some(id) =>
              && Reports(out, Empty(s.tree, id), rc)
              && Walk(s'.tree, path) == if rc == 0 && Empty(s.tree, id) then None else Some(id)
  {
    var did := Walk(s.tree, path[..LastSlash(path)]).value;
    var key := (did, Basename(path));
    GetDiridSound(clock, s, path, fi);
    RmdirOnReports(s.tree, did, Basename(path), rc);
    RmdirIsDeleted(clock, s, path, rc, fi);
    DeletedCases(GetDirid(clock, s, path, fi).0, path, did, rc);
    if Deletes(s.tree, key, rc) {
      WalkWithout(s.tree, key, path);
    }
  }

  // ----- runs that go wrong -----

  const FROZEN: Clock := i => 0
  const SMALL_TREE: Tree := map[(2, "a") := Node(true, 5)]
  const GROWN_TREE: Tree := map[(2, "a") := Node(true, 5), (5, "x") := Node(true, 7)]
  const POISONED: seq<Entry> := [Entry("/a/x", 5, 0), Entry("/a", 5, 0)]

  lemma ZeroCached(s: State, cache: seq<Entry>)
    requires s.tree == map[] && s.cache == cache && (cache == [] || cache == [Entry("/a", 0, 0)])
    ensures GetDirid(FROZEN, s, "/a/f", Node(true, 0)) == (State(map[], [Entry("/a", 0, 0)] + cache, s.ticks + 2), Some(0))
  {
    var p, fi := "/a/f", Node(true, 0);
    assert p[2] == '/' && p[3] == 'f' && p[..2] == "/a" && NextSlash(p, 1) == 2 && NextSlash(p, 3) == 4 && LastSlash(p) == 2;
    assert LastSlash("/a") == 0;
    assert Find(cache, 0, "/a") == (0, cache);
    var s1 := State(map[], cache, s.ticks + 1);
    assert Lookup(FROZEN, s, "/a") == (0, s1);
    var s2 := Cached(FROZEN, s1, "/a", 0);
    assert Forward(FROZEN, s2, p, 2, 0, fi) == (s2, 0);
    assert Forward(FROZEN, s1, p, 0, 2, fi) == (s2, 0);
  }

  /** A buffer that looks like a directory with did 0 gives two unexpired entries for one path. */
  lemma TwoEntriesForOnePath(garbage: nat -> Node)
    requires garbage(1) == garbage(2) == Node(true, 0)
    ensures var ops := [Resolve("/a/f"), Resolve("/a/f")];
            && (forall op :: op in ops ==> Callable(op))
            && Run(FROZEN, State(map[], [], 0), ops, garbage).0.cache == [Entry("/a", 0, 0), Entry("/a", 0, 0)]
            && !UniqueFresh([Entry("/a", 0, 0), Entry("/a", 0, 0)], 0)
  {
    var p, fi := "/a/f", Node(true, 0);
    var ops := [Resolve(p), Resolve(p)];
    var one := Entry("/a", 0, 0);
    assert p[2] == '/' && p[3] == 'f' && p[..2] == "/a" && NextSlash(p, 1) == 2 && NextSlash(p, 3) == 4 && LastSlash(p) == 2;
    assert LastSlash("/a") == 0;
    ZeroCached(State(map[], [], 0), []);
    ZeroCached(State(map[], [one], 2), [one]);
    assert ops[1..] == [Resolve(p)];
    assert !UniqueFresh([one, one], 0) by {
      assert [one, one][0].dirname == [one, one][1].dirname;
    }
  }

  lemma SlashesOfExample()
    ensures var p := "/a/x/f";
            && LastSlash(p) == 4 && p[..4] == "/a/x" && Basename(p) == "f"
            && NextSlash(p, 1) == 2 && NextSlash(p, 3) == 4 && NextSlash(p, 5) == 6
            && p[1..2] == "a" && p[3..4] == "x" && p[..2] == "/a"
    ensures LastSlash("/a/x") == 2 && LastSlash("/a") == 0
    ensures "/a/x"[..2] == "/a" && "/a/x"[3..] == "x" && "/a"[..0] == "" && "/a"[1..] == "a"
  {
    var p := "/a/x/f";
    assert p[4] == '/' && p[5] == 'f';
    assert p[1..2] == "a" && p[3..4] == "x" && p[..2] == "/a" && p[..4] == "/a/x" && p[5..] == "f";
    assert "/a/x"[..2] == "/a" && "/a/x"[3..] == "x" && "/a"[1..] == "a";
  }

  const FILE_TREE: Tree := map[(2, "a") := Node(true, 5), (5, "x") := Node(false, 6), (5, "f") := Node(true, 7)]

  /** Removing /a/x/f, where /a/x is a file, deletes the directory /a/f and reports success. */
  lemma WrongDirectoryDeleted(fi: Node)
    ensures Walk(FILE_TREE, "/a/x").None?
    ensures var (s, out) := Step(FROZEN, State(FILE_TREE, [], 0), Rmdir("/a/x/f", 0), fi);
            out == Removed && s.tree == FILE_TREE - {(5, "f")}
  {
    var p := "/a/x/f";
    SlashesOfExample();
    var s2 := State(FILE_TREE, [], 2);
    var s3 := Cached(FROZEN, s2, "/a", 5);
    assert Walk(FILE_TREE, "/a") == Some(5);
    assert BackUp(FROZEN, State(FILE_TREE, [], 1), "/a/x") == (s2, 0, ROOT_DID);
    assert Forward(FROZEN, s3, p, 2, 5, Node(true, 5)) == (s3, 5);
    assert Forward(FROZEN, s2, p, 0, 2, fi) == (s3, 5);
    assert Lookup(FROZEN, State(FILE_TREE, [], 0), p[..4]) == (0, State(FILE_TREE, [], 1));
    assert GetDirid(FROZEN, State(FILE_TREE, [], 0), p, fi) == (s3, Some(5));
  }

  /** Resolving below the missing directory /a/x caches the did of /a for /a/x. */
  lemma MissingParentCached(fi: Node)
    ensures GetDirid(FROZEN, State(SMALL_TREE, [], 0), "/a/x/f", fi) == (State(SMALL_TREE, POISONED, 4), Some(5))
  {
    var p := "/a/x/f";
    SlashesOfExample();
    var s2 := State(SMALL_TREE, [], 2);
    var s3 := Cached(FROZEN, s2, "/a", 5);
    var s4 := Cached(FROZEN, s3, "/a/x", 5);
    assert BackUp(FROZEN, State(SMALL_TREE, [], 1), "/a/x") == (s2, 0, ROOT_DID);
    assert Forward(FROZEN, s4, p, 4, 5, Node(true, 5)) == (s4, 5);
    assert Forward(FROZEN, s3, p, 2, 5, Node(true, 5)) == (s4, 5);
    assert Forward(FROZEN, s2, p, 0, 2, fi) == (s4, 5);
    assert Lookup(FROZEN, State(SMALL_TREE, [], 0), p[..4]) == (0, State(SMALL_TREE, [], 1));
    assert s4 == State(SMALL_TREE, POISONED, 4);
  }

  lemma PoisonedAnswer(fi: Node)
    ensures GetDirid(FROZEN, State(GROWN_TREE, POISONED, 4), "/a/x/f", fi).1 == Some(5)
    ensures Walk(GROWN_TREE, "/a/x") == Some(7)
  {
    SlashesOfExample();
    assert Find(POISONED, 0, "/a/x") == (5, POISONED);
    assert Walk(GROWN_TREE, "/a") == Some(5);
  }

  /**
    The forward loop ignores the server's error, so resolving below a missing
    directory x caches the did of x's parent for x. Once x is created, the next
    resolution still answers with the parent's did.
   */
  lemma MissingParentPoisonsCache(garbage: nat -> Node)
    ensures var ops := [Resolve("/a/x/f"), Create(5, "x", Node(true, 7)), Resolve("/a/x/f")];
            && (forall op :: op in ops ==> Callable(op))
            && Run(FROZEN, State(SMALL_TREE, [], 0), ops, garbage).1[2] == Resolved(5, "f")
            && RefRun(SMALL_TREE, ops).1[2] == Resolved(7, "f")
  {
    var create := Create(5, "x", Node(true, 7));
    var resolve := Resolve("/a/x/f");
    var ops := [resolve, create, resolve];
    var s4 := State(SMALL_TREE, POISONED, 4);
    SlashesOfExample();
    MissingParentCached(garbage(3));
    PoisonedAnswer(garbage(1));
    assert SMALL_TREE[(2, "a")].id == 5;
    assert CreateOn(SMALL_TREE, 5, "x", Node(true, 7)) == (GROWN_TREE, Created);
    assert Step(FROZEN, s4, create, garbage(2)) == (State(GROWN_TREE, POISONED, 4), Created);
    assert ops[1..] == [create, resolve] && ops[1..][1..] == [resolve];
    assert RefRun(GROWN_TREE, [resolve]).1 == [Resolved(7, "f")];
    assert RefRun(SMALL_TREE, [create, resolve]).1 == [Created, Resolved(7, "f")];
    assert Run(FROZEN, State(GROWN_TREE, POISONED, 4), [resolve], garbage).1 == [Resolved(5, "f")];
    assert Run(FROZEN, s4, [create, resolve], garbage).1 == [Created, Resolved(5, "f")];
  }
}
