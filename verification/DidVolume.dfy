/** The mounted volume as an object: did.c's functions updating its cache in place. */
module DidVolume {
  import opened Paths
  import opened DidCache
  import opened DidResolver
  import opened DidRuns

  class Volume {
    const clock: Clock       // gettimeofday, one value per reading
    var ticks: nat           // readings taken
    var tree: Tree           // the server
    var entries: seq<Entry>  // did_cache_base and its successors

    function View(): (s: State)
      reads this
    {
      State(tree, entries, ticks)
    }

    constructor (clock: Clock, tree: Tree)
      ensures this.clock == clock && View() == State(tree, [], 0)
    {
      this.clock := clock;
      this.tree := tree;
      ticks := 0;
      entries := [];
    }

    method GetTimeOfDay() returns (now: nat)
      modifies this`ticks
      ensures now == clock(old(ticks)) && ticks == old(ticks) + 1
    {
      now := clock(ticks);
      ticks := ticks + 1;
    }

    /** find_dirid_by_fullname. */
    method FindDiridByFullname(path: string) returns (foundDid: nat)
      modifies this`ticks, this`entries
      ensures (foundDid, View()) == Lookup(clock, old(View()), path)
    {
      var now := GetTimeOfDay();
      foundDid := 0;
      var prev, p := 0, 0;
      while p < |entries|
        invariant p <= |entries| && prev == if p == 0 then 0 else p - 1
        invariant FindFrom(entries, p, now, path) == Find(old(entries), now, path)
        invariant ticks == old(ticks) + 1
        decreases |entries| - p
      {
        if now > entries[p].time + TIMEOUT {
          if prev == 0 {
            var breakEarly := entries[p].dirname == path;
            entries := entries[p + 1..];
            if breakEarly || entries == [] {
              return;
            }
            prev, p := 0, 1;
            continue;
          } else {
            entries := entries[..p] + entries[p + 1..];
            p := prev;
          }
        }
        if entries[p].dirname == path {
          foundDid := entries[p].did;
          return;
        }
        prev, p := p, p + 1;
      }
    }

    /** add_did_cache_entry. */
    method AddDidCacheEntry(did: nat, path: string)
      modifies this`ticks, this`entries
      ensures View() == Cached(clock, old(View()), path, did)
    {
      var now := GetTimeOfDay();
      entries := [Entry(path, did, now)] + entries;
    }

    /** remove_did_entry. */
    method RemoveDidEntry(path: string)
      modifies this`entries
      ensures entries == Remove(old(entries), path)
    {
      var d := 0;
      while d < |entries|
        invariant d <= |entries| && entries == old(entries)
        invariant forall i :: 0 <= i < d ==> entries[i].dirname != path
      {
        if entries[d].dirname == path {
          RemoveAt(entries, path, d);
          entries := entries[..d] + entries[d + 1..];
          return;
        }
        d := d + 1;
      }
      RemoveAt(entries, path, d);
    }

    /** get_dirid; `fi` is the uninitialised reply buffer on its stack. */
    method GetDirid(path: string, fi0: Node) returns (ok: bool, basename: string, dirid: nat)
      requires Rooted(path)
      modifies this`ticks, this`entries
      ensures var (s, did) := DidResolver.GetDirid(clock, old(View()), path, fi0);
              View() == s && ok == did.Some? && (ok ==> basename == Basename(path) && dirid == did.value)
    {
      basename, dirid := "", 0;
      var p: int := LastSlash(path);
      if p < 0 {
        return false, basename, dirid;
      }
      ok, basename := true, path[p + 1..];
      if p == 0 {
        dirid := ROOT_DID;
        return;
      }
      var copy := path[..p];
      dirid := FindDiridByFullname(copy);
      if dirid != 0 {
        return;
      }
      ghost var missed := View();
      var parent;
      while true
        invariant copy != "" && copy <= path && copy[0] == '/'
        invariant BackUp(clock, View(), copy) == BackUp(clock, missed, path[..LastSlash(path)])
        decreases |copy|
      {
        p := LastSlash(copy);
        if p == 0 {
          parent := ROOT_DID;
          break;
        }
        copy := copy[..p];
        parent := FindDiridByFullname(copy);
        if parent != 0 {
          break;
        }
      }
      ghost var backedUp := View();
      assert (backedUp, p as nat, parent) == BackUp(clock, missed, path[..LastSlash(path)]);
      var fi := fi0;
      var q := NextSlash(path, p + 1);
      while q < |path|
        invariant 0 <= p < |path| && q == NextSlash(path, p + 1)
        invariant Forward(clock, View(), path, p, parent, fi) ==
                  Forward(clock, backedUp, path, BackUp(clock, missed, path[..LastSlash(path)]).1,
                          BackUp(clock, missed, path[..LastSlash(path)]).2, fi0)
        decreases |path| - p
      {
        var name := path[p + 1..q];
        if (parent, name) in tree {
          fi := tree[(parent, name)];
        }
        if !fi.isdir {
          break;
        }
        AddDidCacheEntry(fi.id, path[..q]);
        parent, p := fi.id, q;
        q := NextSlash(path, p + 1);
      }
      dirid := parent;
    }

    /** afp_delete on a directory: the server's answer. */
    method Delete(key: (nat, string), rc: int) returns (answer: int)
      requires key in tree && tree[key].isdir
      modifies this`tree
      ensures (tree, if Errno(answer) == 0 then Removed else Failed(Errno(answer))) == RmdirOn(old(tree), key.0, key.1, rc)
    {
      answer := rc;
      if rc == 0 {
        if exists k :: k in tree && k.0 == tree[key].id {
          answer := -5007;
        } else {
          tree := tree - {key};
        }
      }
    }

    /** ml_rmdir, from its get_dirid call on. */
    method Rmdir(path: string, rc: int, fi: Node) returns (out: Out)
      requires path != "" && path[0] == '/'
      modifies this
      ensures (View(), out) == Step(clock, old(View()), Op.Rmdir(path, rc), fi)
    {
      var _, basename, dirid := GetDirid(path, fi);
      var key := (dirid, basename);
      if key !in tree || !tree[key].isdir {
        return NotDir;
      }
      var answer := Delete(key, rc);
      if Errno(answer) != 0 {
        return Failed(Errno(answer));
      }
      RemoveDidEntry(path);
      out := Removed;
    }
  }
}
