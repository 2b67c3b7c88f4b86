/**
 * The JSON-backed shared cache of the top-level `shared_cache.py`: a load
 * MERGES the file's dictionary into the tracked one, and `share_value`
 * only adds names that are not yet tracked.
 */
module JsonCache {
  import opened Wrappers
  import opened CacheModel

  /** A set of environment variables kept alike across shells through one JSON file. */
  class SharedCache {
    const cacheFile: string
    const lockFile: string
    /** The file `cacheFile` names, and the shell environment `_env`. */
    const file: BackingFile
    const env: Environment
    /** When this cache last wrote or read the file. */
    var timestamp: int
    /** The tracked names and the values last written or read. */
    var shared: Mapping

    /**
     * `SharedCache.__init__`: nothing tracked and a timestamp of 0, then an
     * initial load, which merges the file's dictionary into the empty one.
     */
    constructor (filename: string, file: BackingFile, env: Environment, now: int)
      modifies env
      ensures cacheFile == filename && lockFile == filename + ".lock"
      ensures this.file == file && this.env == env
      ensures file.state.Present? ==>
                shared == file.state.doc && env.vars == Applied(old(env.vars), file.state.doc) && timestamp == now
      ensures !file.state.Present? ==>
                shared == map[] && env.vars == old(env.vars) && timestamp == 0
    {
      cacheFile := filename;
      lockFile := filename + ".lock";
      this.file := file;
      this.env := env;
      timestamp := 0;
      shared := map[];
      new;
      LoadSharedValues(now);
      if file.state.Present? {
        assert map[] + file.state.doc == file.state.doc;
      }
    }

    /**
     * `share_value`: track each name not yet tracked with its current
     * value, then save. The save refreshes every tracked name, so the end
     * state is the same as if every name had been refreshed here.
     */
    method ShareValue(names: seq<string>, now: int)
      modifies this, file
      ensures shared == Tracking(old(shared).Keys + Names(names), env.vars)
      ensures file.state == Present(shared, now) && timestamp == now
    {
      var i := 0;
      while i < |names|
        invariant 0 <= i <= |names|
        invariant shared.Keys == old(shared).Keys + Names(names[..i])
        invariant forall k :: k in old(shared) ==> shared[k] == old(shared)[k]
        invariant forall k :: k in shared && k !in old(shared) ==> shared[k] == Lookup(env.vars, k)
      {
        var name := names[i];
        assert Names(names[..i + 1]) == Names(names[..i]) + {name} by {
          assert names[..i + 1] == names[..i] + [name];
        }
        if name !in shared {
          shared := shared[name := Lookup(env.vars, name)];
        }
        i := i + 1;
      }
      assert names[..i] == names;
      var tracked := shared.Keys;
      SaveSharedValues(now);
      assert tracked == old(shared).Keys + Names(names);
    }

    /**
     * `_save_shared_values`: refresh every tracked value from the
     * environment, then overwrite the whole file with the tracked
     * dictionary, whatever it held before.
     */
    method SaveSharedValues(now: int)
      modifies this, file
      ensures shared == Tracking(old(shared).Keys, env.vars)
      ensures file.state == Present(shared, now) && timestamp == now
    {
      var pending := shared.Keys;
      RefreshNone(shared, env.vars);
      while pending != {}
        invariant pending <= old(shared).Keys
        invariant shared == old(shared) + Tracking(old(shared).Keys - pending, env.vars)
        decreases |pending|
      {
        var key :| key in pending;
        RefreshStep(old(shared), env.vars, pending, key);
        shared := shared[key := Lookup(env.vars, key)];
        pending := pending - {key};
      }
      RefreshAll(old(shared), env.vars);
      file.state := Present(shared, now);
      timestamp := now;
    }

    /**
     * `_load_shared_values`: when the file reads as a dictionary, each of
     * its entries is stored in the tracked dictionary and applied to the
     * environment, and the timestamp moves to `now`. Tracked names the file
     * lacks keep their values. When the file is missing or unreadable,
     * nothing changes: the whole file is parsed before the loop starts.
     */
    method LoadSharedValues(now: int)
      modifies this, env
      ensures file.state.Present? ==>
                shared == old(shared) + file.state.doc && env.vars == Applied(old(env.vars), file.state.doc)
                && timestamp == now
      ensures !file.state.Present? ==>
                shared == old(shared) && env.vars == old(env.vars) && timestamp == old(timestamp)
    {
      var loaded := Read(file.state);
      if loaded.None? {
        return;
      }
      MergeValues(loaded.value);
      timestamp := now;
    }

    /** The loop of `_load_shared_values` over the loaded entries. */
    method MergeValues(doc: Mapping)
      modifies this, env
      ensures shared == old(shared) + doc && env.vars == Applied(old(env.vars), doc)
      ensures timestamp == old(timestamp)
    {
      var pending := doc.Keys;
      ApplyNone(old(env.vars), doc);
      while pending != {}
        invariant pending <= doc.Keys
        invariant shared == old(shared) + Restrict(doc, doc.Keys - pending)
        invariant env.vars == Applied(old(env.vars), Restrict(doc, doc.Keys - pending))
        invariant timestamp == old(timestamp)
        decreases |pending|
      {
        var key :| key in pending;
        MergeStep(old(shared), doc, pending, key);
        shared := shared[key := doc[key]];
        ApplyStep(old(env.vars), doc, pending, key);
        env.Put(key, doc[key]);
        pending := pending - {key};
      }
      ApplyDone(old(env.vars), doc);
      MergeDone(old(shared), doc);
    }

    /**
     * `__call__`: load only when the file exists and its modification time
     * is strictly later than the timestamp; a missing file is ignored. The
     * comparison loop that follows stops at the first tracked name whose
     * value differs from the environment's and changes nothing either way.
     */
    method Call(now: int)
      modifies this, env
      ensures IsStale(file.state, old(timestamp)) && file.state.Present? ==>
                shared == old(shared) + file.state.doc && env.vars == Applied(old(env.vars), file.state.doc)
                && timestamp == now
      ensures !(IsStale(file.state, old(timestamp)) && file.state.Present?) ==>
                shared == old(shared) && env.vars == old(env.vars) && timestamp == old(timestamp)
    {
      var mtime := Stat(file.state);
      if mtime.Some? && mtime.value > timestamp {
        LoadSharedValues(now);
      }
      var pending := shared.Keys;
      while pending != {}
        decreases |pending|
      {
        var key :| key in pending;
        if Lookup(shared, key) != Lookup(env.vars, key) {
          return;
        }
        pending := pending - {key};
      }
    }
  }

  /**
   * Two shells on one file: what the first shares, a cache opened
   * afterwards in the second reads back entire, None kept apart from the
   * empty string, and each shared name then reads the same in both
   * environments.
   */
  method ShareThenOpen(file: BackingFile, first: Environment, second: Environment,
                       names: seq<string>, t0: int, t1: int, t2: int)
    returns (sharer: SharedCache, reader: SharedCache)
    requires first != second
    modifies file, first, second
    ensures reader.shared == sharer.shared
    ensures Names(names) <= reader.shared.Keys
    ensures forall k :: k in reader.shared ==> Lookup(second.vars, k) == Lookup(first.vars, k)
  {
    sharer := new SharedCache("cachefile", file, first, t0);
    sharer.ShareValue(names, t1);
    reader := new SharedCache("cachefile", file, second, t2);
    SaveLoadRoundTrip(sharer.shared.Keys, first.vars, old(second.vars));
  }

  /**
   * A write by another shell after this cache's last sync is picked up by
   * the next `__call__`, and it is merged: names this cache tracks that the
   * other shell's file lacks stay tracked with their values.
   */
  method PickUpOtherWrite(cache: SharedCache, doc: Mapping, later: int, now: int)
    requires later > cache.timestamp
    modifies cache, cache.file, cache.env
    ensures cache.shared.Keys == old(cache.shared).Keys + doc.Keys
    ensures forall k :: k in doc ==> cache.shared[k] == doc[k] && Lookup(cache.env.vars, k) == doc[k]
    ensures forall k :: k in old(cache.shared) && k !in doc ==> cache.shared[k] == old(cache.shared)[k]
    ensures cache.timestamp == now
  {
    cache.file.state := Present(doc, later);
    cache.Call(now);
    AppliedLookup(old(cache.env.vars), doc);
  }

  /** Right after a save, `__call__` finds the file up to date and changes nothing. */
  method SaveThenCall(cache: SharedCache, now: int)
    modifies cache, cache.file, cache.env
    ensures cache.timestamp == now && cache.file.state == Present(cache.shared, now)
    ensures cache.env.vars == old(cache.env.vars)
  {
    cache.SaveSharedValues(now);
    cache.Call(now);
  }
}
