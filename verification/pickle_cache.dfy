/**
 * The pickle-backed shared cache of `xontrib/shared_cache.py`: a load
 * REPLACES the tracked dictionary with the file's.
 */
module PickleCache {
  import opened Wrappers
  import opened CacheModel

  /** A set of environment variables kept alike across shells through one pickle file. */
  class SharedCache {
    const cacheFile: string
    const lockFile: string
    /** The file `cacheFile` names, and the shell environment `_env`. */
    const file: BackingFile
    const env: Environment
    /** When this cache last wrote or read the file. */
    var timestamp: int
    /** The tracked names and the values last written or read. */
    var shared: Mapping

    /**
     * `SharedCache.__init__`: nothing tracked and a timestamp of 0, then an
     * initial load, which takes over the file's dictionary when there is one.
     */
    constructor (filename: string, file: BackingFile, env: Environment, now: int)
      modifies env
      ensures cacheFile == filename && lockFile == filename + ".lock"
      ensures this.file == file && this.env == env
      ensures file.state.Present? ==>
                shared == file.state.doc && env.vars == Applied(old(env.vars), file.state.doc) && timestamp == now
      ensures !file.state.Present? ==>
                shared == map[] && env.vars == old(env.vars) && timestamp == 0
    {
      cacheFile := filename;
      lockFile := filename + ".lock";
      this.file := file;
      this.env := env;
      timestamp := 0;
      shared := map[];
      new;
      LoadSharedValues(now);
    }

    /**
     * `share_value`: track each name with its current value, then save.
     * Names already tracked stay tracked; every tracked name ends up with
     * its current value, and the file holds exactly that dictionary.
     */
    method ShareValue(names: seq<string>, now: int)
      modifies this, file
      ensures shared == Tracking(old(shared).Keys + Names(names), env.vars)
      ensures file.state == Present(shared, now) && timestamp == now
    {
      var i := 0;
      while i < |names|
        invariant 0 <= i <= |names|
        invariant shared == old(shared) + Tracking(Names(names[..i]), env.vars)
      {
        TrackStep(old(shared), env.vars, names, i);
        shared := shared[names[i] := Lookup(env.vars, names[i])];
        i := i + 1;
      }
      assert names[..i] == names;
      var tracked := shared.Keys;
      SaveSharedValues(now);
      assert tracked == old(shared).Keys + Names(names);
    }

    /**
     * `save_shared_values`: refresh every tracked value from the
     * environment, then overwrite the whole file with the tracked
     * dictionary, whatever it held before.
     */
    method SaveSharedValues(now: int)
      modifies this, file
      ensures shared == Tracking(old(shared).Keys, env.vars)
      ensures file.state == Present(shared, now) && timestamp == now
    {
      var pending := shared.Keys;
      RefreshNone(shared, env.vars);
      while pending != {}
        invariant pending <= old(shared).Keys
        invariant shared == old(shared) + Tracking(old(shared).Keys - pending, env.vars)
        decreases |pending|
      {
        var key :| key in pending;
        RefreshStep(old(shared), env.vars, pending, key);
        shared := shared[key := Lookup(env.vars, key)];
        pending := pending - {key};
      }
      RefreshAll(old(shared), env.vars);
      file.state := Present(shared, now);
      timestamp := now;
    }

    /**
     * `_load_shared_values`: when the file reads as a dictionary, it
     * replaces the tracked one, each of its entries is applied to the
     * environment and the timestamp moves to `now`; when the file is
     * missing or unreadable, nothing changes.
     */
    method LoadSharedValues(now: int)
      modifies this, env
      ensures file.state.Present? ==>
                shared == file.state.doc && env.vars == Applied(old(env.vars), file.state.doc) && timestamp == now
      ensures !file.state.Present? ==>
                shared == old(shared) && env.vars == old(env.vars) && timestamp == old(timestamp)
    {
      var loaded := Read(file.state);
      if loaded.None? {
        return;
      }
      shared := loaded.value;
      PushValues(shared);
      timestamp := now;
    }

    /** The loop of `_load_shared_values` that applies each loaded entry to the environment. */
    method PushValues(doc: Mapping)
      modifies env
      ensures env.vars == Applied(old(env.vars), doc)
    {
      var pending := doc.Keys;
      ApplyNone(old(env.vars), doc);
      while pending != {}
        invariant pending <= doc.Keys
        invariant env.vars == Applied(old(env.vars), Restrict(doc, doc.Keys - pending))
        decreases |pending|
      {
        var key :| key in pending;
        ApplyStep(old(env.vars), doc, pending, key);
        env.Put(key, doc[key]);
        pending := pending - {key};
      }
      ApplyDone(old(env.vars), doc);
    }

    /**
     * `__call__`: load only when the file exists and its modification time
     * is strictly later than the timestamp; a missing file is ignored.
     */
    method Call(now: int)
      modifies this, env
      ensures IsStale(file.state, old(timestamp)) && file.state.Present? ==>
                shared == file.state.doc && env.vars == Applied(old(env.vars), file.state.doc) && timestamp == now
      ensures !(IsStale(file.state, old(timestamp)) && file.state.Present?) ==>
                shared == old(shared) && env.vars == old(env.vars) && timestamp == old(timestamp)
    {
      var mtime := Stat(file.state);
      if mtime.Some? && mtime.value > timestamp {
        LoadSharedValues(now);
      }
    }
  }

  /**
   * Two shells on one file: what the first shares, a cache opened
   * afterwards in the second reads back entire, and each shared name then
   * reads the same in both environments.
   */
  method ShareThenOpen(file: BackingFile, first: Environment, second: Environment,
                       names: seq<string>, t0: int, t1: int, t2: int)
    returns (sharer: SharedCache, reader: SharedCache)
    requires first != second
    modifies file, first, second
    ensures reader.shared == sharer.shared
    ensures Names(names) <= reader.shared.Keys
    ensures forall k :: k in reader.shared ==> Lookup(second.vars, k) == Lookup(first.vars, k)
  {
    sharer := new SharedCache("cachefile", file, first, t0);
    sharer.ShareValue(names, t1);
    reader := new SharedCache("cachefile", file, second, t2);
    SaveLoadRoundTrip(sharer.shared.Keys, first.vars, old(second.vars));
  }

  /**
   * A write by another shell after this cache's last sync is picked up by
   * the next `__call__`, and it replaces the tracked dictionary: names the
   * other shell does not track are dropped.
   */
  method PickUpOtherWrite(cache: SharedCache, doc: Mapping, later: int, now: int)
    requires later > cache.timestamp
    modifies cache, cache.file, cache.env
    ensures cache.shared == doc
    ensures forall k :: k in doc ==> Lookup(cache.env.vars, k) == doc[k]
    ensures cache.timestamp == now
  {
    cache.file.state := Present(doc, later);
    cache.Call(now);
    AppliedLookup(old(cache.env.vars), doc);
  }

  /** Right after a save, `__call__` finds the file up to date and changes nothing. */
  method SaveThenCall(cache: SharedCache, now: int)
    modifies cache, cache.file, cache.env
    ensures cache.timestamp == now && cache.file.state == Present(cache.shared, now)
    ensures cache.env.vars == old(cache.env.vars)
  {
    cache.SaveSharedValues(now);
    cache.Call(now);
  }
}
