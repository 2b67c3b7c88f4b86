/**
 * What the two shared caches have in common: the shell environment they
 * read and write, the file they share with other shells, the rule a load
 * applies to each variable, and the document a save writes.
 *
 * A value of `None` is Python's `None`: in the file it marks a variable as
 * unset, and `env.get(name, None)` returns it for a variable that is not set.
 */
module CacheModel {
  import opened Wrappers

  /** A dictionary from variable names to values, `None` included. */
  type Mapping = map<string, Option<string>>

  /** `m.get(k, None)`. */
  function Lookup(m: Mapping, k: string): (r: Option<string>)
    ensures k !in m ==> r.None?
    ensures r.Some? ==> k in m && m[k] == r
  {
    if k in m then m[k] else None
  }

  /** The set of names listed in `names`. */
  function Names(names: seq<string>): set<string>
  {
    set n | n in names
  }

  /**
   * The shell's environment, a dictionary that the caches change in place
   * and that the rest of the shell reads.
   */
  class Environment {
    var vars: Mapping

    constructor (vars: Mapping)
      ensures this.vars == vars
    {
      this.vars := vars;
    }

    /**
     * One step of a load: `del _env[key]` for a None value of a variable
     * that is set, `_env[key] = value` otherwise.
     */
    method Put(key: string, value: Option<string>)
      modifies this
      ensures vars == ApplyEntry(old(vars), key, value)
    {
      if value.None? && key in vars {
        vars := vars - {key};
      } else {
        vars := vars[key := value];
      }
    }
  }

  /**
   * The cache file as another process would find it: absent, unreadable
   * as a dictionary, or holding one. Every readable or unreadable file has
   * a modification time.
   */
  datatype FileState =
    | Missing
    | Corrupt(mtime: int)
    | Present(doc: Mapping, mtime: int)

  /** The cache file, shared by every cache that names it. */
  class BackingFile {
    var state: FileState

    constructor (state: FileState)
      ensures this.state == state
    {
      this.state := state;
    }
  }

  /** What opening and parsing the file yields; None where either raises. */
  function Read(state: FileState): (r: Option<Mapping>)
    ensures r.Some? <==> state.Present?
    ensures r.Some? ==> r.value == state.doc
  {
    match state
    case Present(doc, _) => Some(doc)
    case _ => None
  }

  /** `os.stat(cache_file).st_mtime`; None where it raises FileNotFoundError. */
  function Stat(state: FileState): (r: Option<int>)
    ensures r.None? <==> state.Missing?
    ensures r.Some? ==> r.value == state.mtime
  {
    match state
    case Missing => None
    case Corrupt(mtime) => Some(mtime)
    case Present(_, mtime) => Some(mtime)
  }

  /** The staleness test of `__call__`: the file exists and is strictly newer than the last sync. */
  predicate IsStale(state: FileState, timestamp: int): (b: bool)
    ensures b <==> !state.Missing? && state.mtime > timestamp
  {
    Stat(state).Some? && Stat(state).value > timestamp
  }

  /**
   * The document a save writes for the tracked names `keys`: each name with
   * its current value, or None for a name the environment does not hold.
   */
  function Tracking(keys: set<string>, env: Mapping): (r: Mapping)
    ensures r.Keys == keys
  {
    map k | k in keys :: Lookup(env, k)
  }

  /**
   * The effect of one loaded entry on the environment: a None value deletes
   * a variable that is set; any other value, and None for a variable that
   * is not set, is stored.
   */
  function ApplyEntry(env: Mapping, k: string, v: Option<string>): (r: Mapping)
    ensures Lookup(r, k) == v
    ensures r.Keys <= env.Keys + {k}
  {
    if v.None? && k in env then env - {k} else env[k := v]
  }

  /**
   * After one entry is applied, its name reads as its value through
   * `env.get`, the name is bound unless a set variable was deleted, and
   * every other variable is as it was.
   */
  lemma ApplyEntryLookup(env: Mapping, k: string, v: Option<string>)
    ensures Lookup(ApplyEntry(env, k, v), k) == v
    ensures k in ApplyEntry(env, k, v) <==> !(v.None? && k in env)
    ensures forall j :: j != k ==> (j in ApplyEntry(env, k, v) <==> j in env)
    ensures forall j :: j != k ==> Lookup(ApplyEntry(env, k, v), j) == Lookup(env, j)
  {
  }

  /**
   * The environment after every entry of `doc` is applied to `env`. The
   * entries concern distinct names, so the order of the load loop does not
   * matter.
   */
  function Applied(env: Mapping, doc: Mapping): (r: Mapping)
    ensures r.Keys <= env.Keys + doc.Keys
  {
    map k | k in env.Keys + doc.Keys && !(k in doc && doc[k].None? && k in env) ::
      if k in doc then doc[k] else env[k]
  }

  /**
   * After a load, each name in the file reads back, through `env.get`, as
   * the file's value, and every other variable is untouched, set or not.
   */
  lemma AppliedLookup(env: Mapping, doc: Mapping)
    ensures forall k :: Lookup(Applied(env, doc), k) == if k in doc then doc[k] else Lookup(env, k)
    ensures forall k :: k !in doc ==> (k in Applied(env, doc) <==> k in env)
    ensures forall k :: k !in doc && k in env ==> Applied(env, doc)[k] == env[k]
  {
  }

  /** The entries of `doc` whose names are in `keys`. */
  function Restrict(doc: Mapping, keys: set<string>): Mapping
  {
    map k | k in doc && k in keys :: doc[k]
  }

  /** Applying one more entry of `doc` binds the names the loop's partial result with that entry applied binds. */
  lemma ApplyOneMoreKeys(env: Mapping, doc: Mapping, done: set<string>, k: string)
    requires k in doc && k !in done
    ensures Applied(env, Restrict(doc, done + {k})).Keys == ApplyEntry(Applied(env, Restrict(doc, done)), k, doc[k]).Keys
  {
    var before := Applied(env, Restrict(doc, done));
    var after := Applied(env, Restrict(doc, done + {k}));
    var stepped := ApplyEntry(before, k, doc[k]);
    assert k !in Restrict(doc, done);
    assert k in before <==> k in env;
    forall j
      ensures j in after <==> j in stepped
    {
      if j != k {
        assert j in Restrict(doc, done + {k}) <==> j in Restrict(doc, done);
      }
    }
  }

  /** Applying one more entry of `doc` extends the loop's partial result by that entry. */
  lemma ApplyOneMore(env: Mapping, doc: Mapping, done: set<string>, k: string)
    requires k in doc && k !in done
    ensures Applied(env, Restrict(doc, done + {k})) == ApplyEntry(Applied(env, Restrict(doc, done)), k, doc[k])
  {
    var before := Applied(env, Restrict(doc, done));
    var after := Applied(env, Restrict(doc, done + {k}));
    var stepped := ApplyEntry(before, k, doc[k]);
    ApplyOneMoreKeys(env, doc, done, k);
    AppliedLookup(env, Restrict(doc, done));
    AppliedLookup(env, Restrict(doc, done + {k}));
    ApplyEntryLookup(before, k, doc[k]);
    forall j | j in after
      ensures after[j] == stepped[j]
    {
      assert Lookup(after, j) == Lookup(stepped, j);
    }
  }

  /**
   * The inductive step of a load loop that visits the names of `doc` in any
   * order: with `pending` still to visit, applying the entry of one of them
   * to the partial result gives the partial result with that name visited.
   */
  lemma ApplyStep(env: Mapping, doc: Mapping, pending: set<string>, key: string)
    requires pending <= doc.Keys && key in pending
    ensures ApplyEntry(Applied(env, Restrict(doc, doc.Keys - pending)), key, doc[key])
         == Applied(env, Restrict(doc, doc.Keys - (pending - {key})))
  {
    ApplyOneMore(env, doc, doc.Keys - pending, key);
    assert doc.Keys - (pending - {key}) == doc.Keys - pending + {key};
  }

  /** Before the load loop visits any name, the partial result is the environment as it was. */
  lemma ApplyNone(env: Mapping, doc: Mapping)
    ensures Applied(env, Restrict(doc, doc.Keys - doc.Keys)) == env
    ensures Restrict(doc, doc.Keys - doc.Keys) == map[]
  {
    assert Restrict(doc, doc.Keys - doc.Keys) == map[];
  }

  /** When no name is left to visit, the load loop's result is the whole document's. */
  lemma ApplyDone(env: Mapping, doc: Mapping)
    ensures Applied(env, Restrict(doc, doc.Keys - {})) == Applied(env, doc)
  {
    assert doc.Keys - {} == doc.Keys;
    RestrictAll(doc);
  }

  /** The inductive step of the merge loop: storing one more entry of `doc` extends the merged part by it. */
  lemma MergeStep(shared: Mapping, doc: Mapping, pending: set<string>, key: string)
    requires pending <= doc.Keys && key in pending
    ensures (shared + Restrict(doc, doc.Keys - pending))[key := doc[key]]
         == shared + Restrict(doc, doc.Keys - (pending - {key}))
  {
    assert doc.Keys - (pending - {key}) == doc.Keys - pending + {key};
    assert Restrict(doc, doc.Keys - pending + {key}) == Restrict(doc, doc.Keys - pending)[key := doc[key]];
  }

  /** When no name is left to visit, the merge loop has stored the whole document. */
  lemma MergeDone(shared: Mapping, doc: Mapping)
    ensures shared + Restrict(doc, doc.Keys - {}) == shared + doc
  {
    assert doc.Keys - {} == doc.Keys;
    RestrictAll(doc);
  }

  /** Once every entry is applied, the loop's result is the whole document's. */
  lemma RestrictAll(doc: Mapping)
    ensures Restrict(doc, doc.Keys) == doc
  {
  }

  /** Before the refresh loop of a save, no name is refreshed and the tracked dictionary is as it was. */
  lemma RefreshNone(shared: Mapping, env: Mapping)
    ensures shared + Tracking(shared.Keys - shared.Keys, env) == shared
  {
    assert Tracking(shared.Keys - shared.Keys, env) == map[];
  }

  /**
   * The inductive step of the refresh loop of a save, which visits the
   * tracked names in any order: refreshing one more name from the
   * environment extends the refreshed part by that name.
   */
  lemma RefreshStep(shared: Mapping, env: Mapping, pending: set<string>, key: string)
    requires pending <= shared.Keys && key in pending
    ensures (shared + Tracking(shared.Keys - pending, env))[key := Lookup(env, key)]
         == shared + Tracking(shared.Keys - (pending - {key}), env)
  {
    assert shared.Keys - (pending - {key}) == shared.Keys - pending + {key};
  }

  /**
   * Refreshing every tracked value from the environment leaves the tracked
   * names as they were and gives each its current value.
   */
  lemma RefreshAll(shared: Mapping, env: Mapping)
    ensures shared + Tracking(shared.Keys - {}, env) == Tracking(shared.Keys, env)
  {
    assert shared.Keys - {} == shared.Keys;
  }

  /** The inductive step of the `share_value` loop that stores every listed name. */
  lemma TrackStep(shared: Mapping, env: Mapping, names: seq<string>, i: nat)
    requires i < |names|
    ensures (shared + Tracking(Names(names[..i]), env))[names[i] := Lookup(env, names[i])]
         == shared + Tracking(Names(names[..i + 1]), env)
  {
    assert names[..i + 1] == names[..i] + [names[i]];
    assert Names(names[..i + 1]) == Names(names[..i]) + {names[i]};
  }

  /**
   * Loading the same document twice reads the same through `env.get` as
   * loading it once.
   */
  lemma ReloadSameLookups(env: Mapping, doc: Mapping)
    ensures forall k :: Lookup(Applied(Applied(env, doc), doc), k) == Lookup(Applied(env, doc), k)
  {
    AppliedLookup(env, doc);
    AppliedLookup(Applied(env, doc), doc);
  }

  /**
   * But the dictionary itself differs: a None entry deletes a variable on
   * the first load and, the variable then being absent, binds it to None on
   * the second.
   */
  lemma ReloadBindsNone(env: Mapping, doc: Mapping, k: string)
    requires k in doc && doc[k].None? && k in env
    ensures k !in Applied(env, doc)
    ensures k in Applied(Applied(env, doc), doc) && Applied(Applied(env, doc), doc)[k].None?
  {
    AppliedLookup(Applied(env, doc), doc);
  }

  /**
   * Save then load, in another shell: every tracked name reads, through
   * `env.get`, as it did in the saving shell, and None stays distinct from
   * the empty string.
   */
  lemma SaveLoadRoundTrip(keys: set<string>, saver: Mapping, loader: Mapping)
    ensures forall k :: k in keys ==> Lookup(Applied(loader, Tracking(keys, saver)), k) == Lookup(saver, k)
    ensures forall k :: k !in keys ==> Lookup(Applied(loader, Tracking(keys, saver)), k) == Lookup(loader, k)
  {
    AppliedLookup(loader, Tracking(keys, saver));
  }

  /** Loading the document a shell has just saved changes nothing it can read through `env.get`. */
  lemma LoadOwnSave(keys: set<string>, env: Mapping)
    ensures forall k :: Lookup(Applied(env, Tracking(keys, env)), k) == Lookup(env, k)
  {
    AppliedLookup(env, Tracking(keys, env));
  }

  /**
   * Sharing the same names a second time, the environment unchanged, writes
   * the same document as the first time.
   */
  lemma ShareTwiceSameDocument(tracked: set<string>, names: set<string>, env: Mapping)
    ensures Tracking(Tracking(tracked + names, env).Keys + names, env) == Tracking(tracked + names, env)
  {
    assert Tracking(tracked + names, env).Keys + names == tracked + names;
  }

  /** A file just written at `now` is not stale against a timestamp of `now`; a later write is. */
  lemma OwnWriteNotStale(doc: Mapping, now: int, later: int)
    requires later > now
    ensures !IsStale(Present(doc, now), now)
    ensures IsStale(Present(doc, later), now) && IsStale(Corrupt(later), now)
    ensures !IsStale(Missing, now)
  {
  }
}
