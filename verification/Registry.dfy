/** The in-memory registry (`RootFs`) and the start-up scan that rebuilds it. */
module Registry {
  import opened Common
  import opened Slots

  datatype FsError = NotFound | AlreadyExists

  class RootFs {
    var nextSlot: nat
    var repos: set<string>
    var spaces: map<Key, Space>

    constructor (nextSlot: nat)
      ensures Snapshot() == Memory(nextSlot, {}, map[])
    {
      this.nextSlot := nextSlot;
      repos := {};
      spaces := map[];
    }

    function Snapshot(): Memory
      reads this
    {
      Memory(nextSlot, repos, spaces)
    }

    method RegisterRepo(name: string)
      modifies this
      ensures Snapshot() == old(Snapshot()).(repos := old(repos) + {name})
    {
      repos := repos + {name};
    }

    /** A name that is taken is refused whatever its state; otherwise the counter stays ahead. */
    method RegisterWorkspace(k: Key, space: Space) returns (r: Result<(), FsError>)
      modifies this
      ensures r == if old(k.repo !in repos) then Err(NotFound) else if old(k in spaces) then Err(AlreadyExists) else Ok(())
      ensures Snapshot() == if r.Ok? then Register(old(Snapshot()), k, space) else old(Snapshot())
    {
      if k.repo !in repos { return Err(NotFound); }
      if k in spaces { return Err(AlreadyExists); }
      spaces := spaces[k := space];
      if space.slot >= nextSlot { nextSlot := space.slot + 1; }
      return Ok(());
    }

    /** Distinct calls return distinct, increasing slots; `None` is the overflow panic. */
    method AllocSlot() returns (slot: Option<nat>)
      modifies this
      ensures slot.None? <==> old(nextSlot) == MAX_SLOT
      ensures slot.None? ==> Snapshot() == old(Snapshot())
      ensures slot.Some? ==> slot.value == old(nextSlot) && Snapshot() == old(Snapshot()).(next := slot.value + 1)
    {
      if nextSlot == MAX_SLOT { return None; }
      slot := Some(nextSlot);
      nextSlot := nextSlot + 1;
    }
  }

  lemma BumpedByOne(start: nat, spaces: map<Key, Space>, next: nat, k: Key, space: Space)
    requires Bumped(start, spaces, next) && k !in spaces
    ensures Bumped(start, spaces[k := space], Max(next, space.slot + 1))
  {
    var spaces' := spaces[k := space];
    if space.slot + 1 > next {
      assert k in spaces' && spaces'[k].slot + 1 == space.slot + 1;
    } else if next != start {
      var j :| j in spaces && next == spaces[j].slot + 1;
      assert j in spaces' && spaces'[j] == spaces[j];
    }
  }

  /** Active configs of one repo. */
  function ActiveIn(d: Disk, repo: string, skipped: set<Key>): set<Key> {
    set k | k in d.configs && k.repo == repo && k !in skipped && d.configs[k].active
  }

  ghost predicate Scanned(d: Disk, spaces: map<Key, Space>, keys: set<Key>) {
    spaces.Keys == keys && forall k :: k in spaces ==> k in d.configs && spaces[k] == d.configs[k]
  }

  method ReloadOne(fs: RootFs, d: Disk, k: Key, ghost got: set<Key>)
    requires k in d.configs && k.repo in fs.repos && k !in got
    requires Scanned(d, fs.spaces, got) && Bumped(d.next, fs.spaces, fs.nextSlot)
    modifies fs
    ensures fs.repos == old(fs.repos)
    ensures Scanned(d, fs.spaces, got + {k}) && Bumped(d.next, fs.spaces, fs.nextSlot)
  {
    BumpedByOne(d.next, fs.spaces, fs.nextSlot, k, d.configs[k]);
    ScannedOneMore(d, fs.spaces, got, k);
    var _ := fs.RegisterWorkspace(k, d.configs[k]);
  }

  /** The inner loop: every readable config of `repo`, pending ones passed over. */
  method ScanRepo(fs: RootFs, d: Disk, repo: string, skipped: set<Key>, ghost done: set<Key>)
    requires repo in fs.repos && Scanned(d, fs.spaces, done) && Bumped(d.next, fs.spaces, fs.nextSlot)
    requires forall k :: k in done ==> k.repo != repo
    modifies fs
    ensures fs.repos == old(fs.repos)
    ensures Scanned(d, fs.spaces, done + ActiveIn(d, repo, skipped)) && Bumped(d.next, fs.spaces, fs.nextSlot)
  {
    var todo := Listing(d, repo, skipped);
    ghost var found, got := ActiveIn(d, repo, skipped), done;
    assert found - todo == {};
    while todo != {}
      invariant todo <= Listing(d, repo, skipped) && fs.repos == old(fs.repos)
      invariant got == done + (found - todo)
      invariant Scanned(d, fs.spaces, got) && Bumped(d.next, fs.spaces, fs.nextSlot)
      decreases |todo|
    {
      var k :| k in todo;
      ScanStep(d, repo, skipped, done, todo, k);
      if d.configs[k].active {
        ReloadOne(fs, d, k, got);
        got := got + {k};
      }
      todo := todo - {k};
    }
    assert found - {} == found;
  }

  /** `list_workspace_configs`: the readable configs of one repo. */
  function Listing(d: Disk, repo: string, skipped: set<Key>): set<Key> {
    set k | k in d.configs && k.repo == repo && k !in skipped
  }

  lemma ScanStep(d: Disk, repo: string, skipped: set<Key>, done: set<Key>, todo: set<Key>, k: Key)
    requires k in todo && todo <= Listing(d, repo, skipped) && forall j :: j in done ==> j.repo != repo
    ensures var got, rest := done + (ActiveIn(d, repo, skipped) - todo), todo - {k};
            && k !in got
            && done + (ActiveIn(d, repo, skipped) - rest) == if d.configs[k].active then got + {k} else got
  {
  }

  lemma ScannedOneMore(d: Disk, spaces: map<Key, Space>, keys: set<Key>, k: Key)
    requires Scanned(d, spaces, keys) && k in d.configs
    ensures Scanned(d, spaces[k := d.configs[k]], keys + {k})
  {
  }

  /** Active configs of several repos. */
  function Wanted(d: Disk, repos: set<string>, skipped: set<Key>): set<Key> {
    set k | k in d.configs && d.configs[k].active && k.repo in repos && k !in skipped
  }

  lemma WantedOneMore(d: Disk, repos: set<string>, skipped: set<Key>, repo: string)
    ensures Wanted(d, repos + {repo}, skipped) == Wanted(d, repos, skipped) + ActiveIn(d, repo, skipped)
  {
  }

  lemma ScannedIsReloaded(d: Disk, spaces: map<Key, Space>, failed: set<string>, skipped: set<Key>)
    requires Scanned(d, spaces, Wanted(d, d.listed - failed, skipped))
    ensures spaces == Reloaded(d, failed, skipped)
  {
    var back := Reloaded(d, failed, skipped);
    assert back.Keys == Wanted(d, d.listed - failed, skipped);
  }

  /** One turn of the outer loop, for a repo that opens. */
  method OpenRepo(fs: RootFs, d: Disk, repo: string, skipped: set<Key>)
    requires repo !in fs.repos
    requires Scanned(d, fs.spaces, Wanted(d, fs.repos, skipped)) && Bumped(d.next, fs.spaces, fs.nextSlot)
    modifies fs
    ensures fs.repos == old(fs.repos) + {repo}
    ensures Scanned(d, fs.spaces, Wanted(d, fs.repos, skipped)) && Bumped(d.next, fs.spaces, fs.nextSlot)
  {
    ghost var keys := Wanted(d, fs.repos, skipped);
    WantedOneMore(d, fs.repos, skipped, repo);
    fs.RegisterRepo(repo);
    ScanRepo(fs, d, repo, skipped, keys);
  }

  /**
   * `rehydrate_root_fs`, in whatever order the files are read: exactly the active
   * configs of the listed repos that open, and a counter above all of them.
   */
  method Rehydrate(d: Disk, failed: set<string>, skipped: set<Key>) returns (fs: RootFs)
    ensures fresh(fs)
    ensures fs.repos == d.listed - failed && fs.spaces == Reloaded(d, failed, skipped)
    ensures Bumped(d.next, fs.spaces, fs.nextSlot)
  {
    fs := new RootFs(d.next);
    var todo := d.listed;
    assert Wanted(d, {}, skipped) == {};
    while todo != {}
      invariant fresh(fs) && todo <= d.listed && fs.repos == d.listed - failed - todo
      invariant Scanned(d, fs.spaces, Wanted(d, fs.repos, skipped)) && Bumped(d.next, fs.spaces, fs.nextSlot)
      decreases |todo|
    {
      var repo :| repo in todo;
      if repo !in failed {
        OpenRepo(fs, d, repo, skipped);
      }
      todo := todo - {repo};
    }
    assert d.listed - failed - {} == d.listed - failed;
    ScannedIsReloaded(d, fs.spaces, failed, skipped);
  }
}
