/** The post-snapshot push: a worklist walk that copies missing objects to the remote. */
module Push {
  import opened Common
  import opened GitObjects
  import opened Stores
  import opened Fetch

  datatype PushError = RemoteDown | MissingLocally | StoreFailed(cause: StoreError) | FetchFailed(reason: FetchError)

  predicate Copyable(objects: Objects, id: Id) {
    |id.bytes| == ID_LENGTH && id in objects
  }

  /** On the remote already, or in the local store. */
  predicate Obtainable(objects: Objects, blobs: Blobs, kind: BlobKind, id: Id) {
    (kind, id) in blobs || Copyable(objects, id)
  }

  ghost predicate NoFaults(remote: Remote) {
    forall k :: !remote.faults(k)
  }

  /**
   * `push_git_object_if_missing`: probe, then copy the local bytes under the
   * requested kind.
   */
  method PushIfMissing(g: Git, store: LocalStore, remote: Remote, kind: BlobKind, id: Id)
    returns (r: Result<(), PushError>)
    modifies remote
    ensures Grows(old(remote.blobs), remote.blobs)
    ensures r.Ok? ==> (kind, id) in remote.blobs
    ensures !old(remote.faults(remote.clock)) && old((kind, id) in remote.WithPeers()) ==> r == Ok(()) && remote.blobs == old(remote.WithPeers())
    ensures !old(remote.faults(remote.clock)) && !old((kind, id) in remote.WithPeers()) ==>
              && (r == Err(StoreFailed(InvalidId)) <==> |id.bytes| != ID_LENGTH)
              && (r == Err(MissingLocally) <==> |id.bytes| == ID_LENGTH && id !in store.objects)
              && (r.Ok? <==> Copyable(store.objects, id) && !remote.faults(old(remote.clock) + 1))
    ensures r == Err(RemoteDown) ==> old(remote.faults(remote.clock)) || remote.faults(old(remote.clock) + 1)
    ensures old(remote.faults(remote.clock)) ==> r == Err(RemoteDown)
    ensures OnlyCopies(g, store.objects, kind, id) && SoundPeers(g, remote) && Sound(g, old(remote.blobs)) ==>
              Sound(g, remote.blobs)
  {
    var present := remote.HasBlob(kind, id);
    if present.Err? { return Err(RemoteDown); }
    if present.value { return Ok(()); }
    if |id.bytes| != ID_LENGTH { return Err(StoreFailed(InvalidId)); }
    if id !in store.objects { return Err(MissingLocally); }
    var put := remote.PutBlob(kind, id, store.objects[id].data);
    if put.Err? { return Err(RemoteDown); }
    return Ok(());
  }

  /** The object that would be copied has the kind it is copied under. */
  ghost predicate OnlyCopies(g: Git, objects: Objects, kind: BlobKind, id: Id) {
    id in objects ==> ObjectKindOf(kind) == Some(objects[id].kind) && g.hash(objects[id]) == id
  }

  ghost predicate SoundPeers(g: Git, remote: Remote) {
    forall k :: Sound(g, remote.peers(k))
  }

  // ---- What a finished walk leaves on the remote ----------------------------

  /** One tree is fully replicated: itself, and every file and symlink in it. */
  ghost predicate Replicated(g: Git, objects: Objects, blobs: Blobs, id: Id) {
    && Readable(g, objects, id)
    && (TreeBlob, id) in blobs
    && forall blob :: Leaf(g, objects, id, blob) ==> (FileBlob, blob) in blobs
  }

  /** Everything reachable from `root` is on the remote under its kind. */
  ghost predicate Closed(g: Git, objects: Objects, blobs: Blobs, root: Id) {
    forall id :: Reaches(g, objects, root, id) ==> Replicated(g, objects, blobs, id)
  }

  /** A visited tree is replicated and its subtrees are visited or queued. */
  ghost predicate Visited(g: Git, objects: Objects, blobs: Blobs, id: Id, known: set<Id>) {
    Replicated(g, objects, blobs, id) && forall child :: Subtree(g, objects, id, child) ==> child in known
  }

  lemma VisitedKept(g: Git, objects: Objects, objects': Objects, blobs: Blobs, blobs': Blobs,
                    id: Id, known: set<Id>, known': set<Id>)
    requires Visited(g, objects, blobs, id, known)
    requires Grows(objects, objects') && Grows(blobs, blobs') && known <= known'
    ensures Visited(g, objects', blobs', id, known')
  {
    ReadTreeKept(g, objects, objects', id);
    forall child | Subtree(g, objects', id, child) ensures child in known' {
      assert Subtree(g, objects, id, child);
    }
    forall blob | Leaf(g, objects', id, blob) ensures (FileBlob, blob) in blobs' {
      assert Leaf(g, objects, id, blob);
    }
  }

  lemma WalkClosed(g: Git, objects: Objects, blobs: Blobs, root: Id, seen: set<Id>)
    requires root in seen && AllVisited(g, objects, blobs, seen, seen)
    ensures Closed(g, objects, blobs, root)
  {
    forall id | Reaches(g, objects, root, id) ensures Replicated(g, objects, blobs, id) {
      var path :| Descent(g, objects, root, path) && path[|path| - 1] == id;
      ClosedSetCovers(g, objects, root, seen, path);
      assert Visited(g, objects, blobs, id, seen);
    }
  }

  ghost function Queued(stack: seq<Id>): set<Id> {
    set id | id in stack
  }

  predicate NamesAsBlob(g: Git, o: Object, id: Id) {
    g.parse(o.data).Some? && exists e :: e in g.parse(o.data).value && RefersToBlob(e) && e.id == id
  }

  /** Git-level typing of the graph: ids in a tree name objects of the kind the entry says. */
  ghost predicate WellKinded(g: Git, universe: set<Id>) {
    && (forall o: Object :: g.hash(o) in universe ==> o.kind.TreeObject?)
    && (forall o: Object, b: Object :: g.hash(o) in universe && NamesAsBlob(g, o, g.hash(b)) ==> b.kind.BlobObject?)
  }

  /** Copying keeps the remote sound, on a well-kinded graph with honest peers. */
  ghost predicate KeepsSound(g: Git, universe: set<Id>, remote: Remote) {
    WellKinded(g, universe) && SoundPeers(g, remote)
  }

  /** Whatever was added to the stack is a subtree of these entries. */
  ghost predicate OnlySubtrees(entries: seq<Entry>, stack: seq<Id>, stack': seq<Id>) {
    forall id :: id in stack' ==> id in stack || exists e :: e in entries && e.kind.Tree? && e.id == id
  }

  ghost predicate LeavesObtainable(objects: Objects, blobs: Blobs, entries: seq<Entry>) {
    forall e :: e in entries && RefersToBlob(e) ==> Obtainable(objects, blobs, FileBlob, e.id)
  }

  /** The entries of one tree: files and symlinks are pushed, subtrees queued. */
  method PushEntries(g: Git, store: LocalStore, remote: Remote, id: Id, entries: seq<Entry>, stack: seq<Id>,
                     ghost universe: set<Id>)
    returns (r: Result<seq<Id>, PushError>)
    requires HashInjective(g) && Keyed(g, store.objects) && FiniteGraph(g, universe)
    requires ReadTree(g, store.objects, id) == Ok(Some(entries)) && id in universe && Queued(stack) <= universe
    modifies remote
    ensures Grows(old(remote.blobs), remote.blobs)
    ensures r.Ok? ==> Queued(stack) <= Queued(r.value) <= universe
    ensures r.Ok? ==> forall e :: e in entries && e.kind.Tree? ==> e.id in Queued(r.value)
    ensures r.Ok? ==> forall e :: e in entries && RefersToBlob(e) ==> (FileBlob, e.id) in remote.blobs
    ensures r.Ok? ==> OnlySubtrees(entries, stack, r.value)
    ensures NoFaults(remote) && LeavesObtainable(store.objects, old(remote.blobs), entries) ==> r.Ok?
    ensures KeepsSound(g, universe, remote) && Sound(g, old(remote.blobs)) ==> Sound(g, remote.blobs)
  {
    var out := stack;
    for i := 0 to |entries|
      invariant Grows(old(remote.blobs), remote.blobs)
      invariant Queued(stack) <= Queued(out) <= universe
      invariant forall e :: e in entries[..i] && e.kind.Tree? ==> e.id in Queued(out)
      invariant forall e :: e in entries[..i] && RefersToBlob(e) ==> (FileBlob, e.id) in remote.blobs
      invariant OnlySubtrees(entries, stack, out)
      invariant KeepsSound(g, universe, remote) && Sound(g, old(remote.blobs)) ==> Sound(g, remote.blobs)
    {
      var e := entries[i];
      assert entries[..i + 1] == entries[..i] + [e];
      match e.kind {
        case Tree =>
          EntryInUniverse(g, store.objects, id, e, universe);
          assert Queued(out + [e.id]) == Queued(out) + {e.id} && e in entries;
          out := out + [e.id];
        case Submodule =>
        case _ =>
          if KeepsSound(g, universe, remote) { BlobCopies(g, store.objects, id, e, universe); }
          var pushed := PushIfMissing(g, store, remote, FileBlob, e.id);
          if pushed.Err? { return Err(pushed.error); }
      }
    }
    assert entries[..|entries|] == entries;
    return Ok(out);
  }

  lemma EntryInUniverse(g: Git, objects: Objects, id: Id, e: Entry, universe: set<Id>)
    requires Keyed(g, objects) && FiniteGraph(g, universe) && id in universe
    requires Readable(g, objects, id) && e in Entries(g, objects, id) && e.kind.Tree?
    ensures e.id in universe
  {
    assert g.hash(objects[id]) in universe;
  }

  lemma BlobCopies(g: Git, objects: Objects, id: Id, e: Entry, universe: set<Id>)
    requires Keyed(g, objects) && WellKinded(g, universe) && id in universe
    requires Readable(g, objects, id) && e in Entries(g, objects, id) && RefersToBlob(e)
    ensures OnlyCopies(g, objects, FileBlob, e.id)
  {
    assert g.hash(objects[id]) in universe;
    if e.id in objects { assert NamesAsBlob(g, objects[id], g.hash(objects[e.id])); }
  }

  /** Neither requests fail nor answers are false. */
  ghost predicate Reliable(remote: Remote) {
    forall k :: !remote.faults(k) && remote.lies(k).None?
  }

  /** Tree `id` of `pool` and its leaves are at hand: what is not in `objects` is on the remote. */
  ghost predicate AtHand(g: Git, pool: Objects, objects: Objects, blobs: Blobs, id: Id) {
    && Grows(objects, pool) && Readable(g, pool, id)
    && Obtainable(objects, blobs, TreeBlob, id) && LeavesObtainable(objects, blobs, Entries(g, pool, id))
    && (id in objects || id == g.emptyTree
        || ((TreeBlob, id) in blobs && pool[id] == Object(TreeObject, blobs[(TreeBlob, id)]) && g.hash(pool[id]) == id))
  }

  /** Such a tree is read from the local store or comes from the remote unchanged. */
  lemma AtHandReads(g: Git, pool: Objects, objects: Objects, remote: Remote, id: Id)
    requires AtHand(g, pool, objects, remote.blobs, id) && Reliable(remote)
    ensures || (Readable(g, objects, id) && Entries(g, objects, id) == Entries(g, pool, id))
            || (ReadTree(g, objects, id) == Ok(None) && remote.Answer(TreeBlob, id) == Ok(Some(pool[id].data))
                && Genuine(g, TreeBlob, id, remote.Answer(TreeBlob, id)) && g.parse(pool[id].data).Some?)
  {
    if id in objects || id == g.emptyTree {
    } else {
      assert !remote.faults(remote.clock) && remote.lies(remote.clock).None?;
    }
  }

  lemma PoolGrows(g: Git, pool: Objects, objects: Objects, id: Id)
    requires Readable(g, pool, id) && Grows(objects, pool) && id != g.emptyTree
    ensures var objects' := objects[id := pool[id]]; Grows(objects', pool) && ReadTree(g, objects', id) == ReadTree(g, pool, id)
  {
  }

  /** `read_tree` through the cache, and what it gives for a tree that is at hand. */
  method ReadPooled(g: Git, store: LocalStore, remote: Remote, id: Id, writeFails: bool, ghost pool: Objects)
    returns (r: Result<seq<Entry>, FetchError>)
    requires HashInjective(g) && Keyed(g, store.objects)
    modifies store, remote
    ensures Keyed(g, store.objects) && Grows(old(store.objects), store.objects)
    ensures Grows(old(remote.blobs), remote.blobs)
    ensures remote.blobs == old(remote.blobs) || remote.blobs == old(remote.WithPeers())
    ensures r.Ok? ==> ReadTree(g, store.objects, id) == Ok(Some(r.value))
    ensures Reliable(remote) && !writeFails && AtHand(g, pool, old(store.objects), old(remote.blobs), id) ==>
              r == Ok(Entries(g, pool, id)) && Grows(store.objects, pool)
  {
    if Reliable(remote) && AtHand(g, pool, store.objects, remote.blobs, id) {
      AtHandReads(g, pool, store.objects, remote, id);
      if !Readable(g, store.objects, id) { PoolGrows(g, pool, store.objects, id); }
    }
    r := ReadTreeThrough(g, store, remote, id, writeFails);
  }

  /** One turn of the walk on a tree not seen before. */
  method PushTree(g: Git, store: LocalStore, remote: Remote, id: Id, stack: seq<Id>, writeFails: bool,
                  ghost universe: set<Id>, ghost pool: Objects)
    returns (r: Result<seq<Id>, PushError>)
    requires HashInjective(g) && Keyed(g, store.objects) && FiniteGraph(g, universe)
    requires id in universe && Queued(stack) <= universe
    modifies store, remote
    ensures Keyed(g, store.objects) && Grows(old(store.objects), store.objects)
    ensures Grows(old(remote.blobs), remote.blobs)
    ensures r.Ok? ==> Queued(stack) <= Queued(r.value) <= universe
    ensures r.Ok? ==> Visited(g, store.objects, remote.blobs, id, Queued(r.value))
    ensures Reliable(remote) && !writeFails && AtHand(g, pool, old(store.objects), old(remote.blobs), id) ==>
              r.Ok? && Grows(store.objects, pool) && OnlySubtrees(Entries(g, pool, id), stack, r.value)
    ensures KeepsSound(g, universe, remote) && Sound(g, old(remote.blobs)) ==> Sound(g, remote.blobs)
  {
    ghost var through := Reliable(remote) && !writeFails && AtHand(g, pool, store.objects, remote.blobs, id);
    ghost var blobs := remote.blobs;
    var pushed := PushIfMissing(g, store, remote, TreeBlob, id);
    if pushed.Err? { return Err(pushed.error); }
    if through { AtHandKept(g, pool, store.objects, store.objects, blobs, remote.blobs, id); }
    var read := ReadPooled(g, store, remote, id, writeFails, pool);
    if read.Err? { return Err(FetchFailed(read.error)); }
    if through { LeavesKept(old(store.objects), store.objects, blobs, remote.blobs, read.value); }
    r := PushEntries(g, store, remote, id, read.value, stack, universe);
  }

  lemma AtHandKept(g: Git, pool: Objects, objects: Objects, objects': Objects, blobs: Blobs, blobs': Blobs, id: Id)
    requires AtHand(g, pool, objects, blobs, id) && Grows(objects, objects') && Grows(objects', pool) && Grows(blobs, blobs')
    ensures AtHand(g, pool, objects', blobs', id)
  {
  }

  lemma LeavesKept(objects: Objects, objects': Objects, blobs: Blobs, blobs': Blobs, entries: seq<Entry>)
    requires LeavesObtainable(objects, blobs, entries) && Grows(objects, objects') && Grows(blobs, blobs')
    ensures LeavesObtainable(objects', blobs', entries)
  {
  }

  /** One turn of the walk, with what it keeps. */
  method VisitTree(g: Git, store: LocalStore, remote: Remote, root: Id, seen: set<Id>, stack: seq<Id>, writeFails: nat -> bool,
                   ghost universe: set<Id>, ghost from: (Objects, Blobs))
    returns (r: Result<seq<Id>, PushError>)
    requires HashInjective(g) && Keyed(g, store.objects) && FiniteGraph(g, universe)
    requires WalkInv(g, store.objects, remote.blobs, root, seen, stack, universe) && stack != [] && stack[|stack| - 1] !in seen
    modifies store, remote
    ensures Keyed(g, store.objects) && Grows(old(store.objects), store.objects)
    ensures Grows(old(remote.blobs), remote.blobs)
    ensures r.Ok? ==> WalkInv(g, store.objects, remote.blobs, root, seen + {stack[|stack| - 1]}, r.value, universe)
    ensures Smooth(g, remote, writeFails, from, root) && OnCourse(g, from, old(store.objects), old(remote.blobs), root, stack) ==>
              r.Ok? && OnCourse(g, from, store.objects, remote.blobs, root, r.value)
    ensures KeepsSound(g, universe, remote) && Sound(g, old(remote.blobs)) ==> Sound(g, remote.blobs)
  {
    var id, rest := stack[|stack| - 1], stack[..|stack| - 1];
    ghost var objects, blobs, pool := store.objects, remote.blobs, Pooled(from.0, from.1);
    ghost var smooth := Smooth(g, remote, writeFails, from, root) && OnCourse(g, from, objects, blobs, root, stack);
    WalkPops(g, objects, blobs, root, seen, stack, universe);
    if smooth { SmoothTurn(g, remote, writeFails, from, objects, blobs, root, stack, |seen|); }
    r := PushTree(g, store, remote, id, rest, writeFails(|seen|), universe, pool);
    if r.Ok? { WalkVisits(g, objects, store.objects, blobs, remote.blobs, root, seen, stack, r.value, universe); }
    if smooth { StaysOnCourse(g, from, objects, store.objects, blobs, remote.blobs, root, stack, r.value); }
  }

  /**
   * `push_reachable_blobs`. It terminates on every finite graph, shared or
   * cyclic, from any remote, including one a stopped walk left behind; nothing
   * is ever removed; and success means the remote is closed under the root.
   * Without faults it succeeds whenever the two stores together hold everything.
   */
  method PushReachable(g: Git, store: LocalStore, remote: Remote, root: Id, writeFails: nat -> bool, ghost universe: set<Id>)
    returns (r: Result<(), PushError>)
    requires HashInjective(g) && Keyed(g, store.objects) && FiniteGraph(g, universe) && root in universe
    modifies store, remote
    ensures Keyed(g, store.objects) && Grows(old(store.objects), store.objects)
    ensures Grows(old(remote.blobs), remote.blobs)
    ensures r.Ok? ==> Closed(g, store.objects, remote.blobs, root)
    ensures Smooth(g, remote, writeFails, (old(store.objects), old(remote.blobs)), root) ==> r.Ok?
    ensures KeepsSound(g, universe, remote) && Sound(g, old(remote.blobs)) ==> Sound(g, remote.blobs)
  {
    var seen: set<Id> := {};
    var stack := [root];
    ghost var from := (store.objects, remote.blobs);
    ghost var smooth := Smooth(g, remote, writeFails, from, root);
    StartsOnCourse(g, store.objects, remote.blobs, root);
    while stack != []
      invariant Keyed(g, store.objects) && Grows(old(store.objects), store.objects)
      invariant Grows(old(remote.blobs), remote.blobs)
      invariant WalkInv(g, store.objects, remote.blobs, root, seen, stack, universe)
      invariant smooth ==> OnCourse(g, from, store.objects, remote.blobs, root, stack)
      invariant KeepsSound(g, universe, remote) && Sound(g, old(remote.blobs)) ==> Sound(g, remote.blobs)
      decreases |universe - seen|, |stack|
    {
      var id := stack[|stack| - 1];
      WalkPops(g, store.objects, remote.blobs, root, seen, stack, universe);
      if id in seen {
        if smooth { PoppedOnCourse(g, from, store.objects, remote.blobs, root, stack); }
        stack := stack[..|stack| - 1];
      } else {
        var rest := VisitTree(g, store, remote, root, seen, stack, writeFails, universe, from);
        if rest.Err? { return Err(rest.error); }
        seen := seen + {id};
        stack := rest.value;
      }
    }
    assert seen + Queued(stack) == seen;
    WalkClosed(g, store.objects, remote.blobs, root, seen);
    return Ok(());
  }

  /** What the local store and the remote's trees hold together. */
  ghost function Pooled(objects: Objects, blobs: Blobs): Objects {
    (map id | id in (set key | key in blobs :: key.1) && (TreeBlob, id) in blobs :: Object(TreeObject, blobs[(TreeBlob, id)])) + objects
  }

  /** Every tree that can be reached can be read somewhere, and it and its leaves can be obtained. */
  ghost predicate Pushable(g: Git, objects: Objects, blobs: Blobs, root: Id) {
    var pool := Pooled(objects, blobs);
    forall id :: Reaches(g, pool, root, id) ==>
      && Readable(g, pool, id) && Obtainable(objects, blobs, TreeBlob, id)
      && LeavesObtainable(objects, blobs, Entries(g, pool, id))
  }

  lemma PoolHolds(objects: Objects, blobs: Blobs)
    ensures Grows(objects, Pooled(objects, blobs))
    ensures forall id :: id in Pooled(objects, blobs) && id !in objects ==>
              (TreeBlob, id) in blobs && Pooled(objects, blobs)[id] == Object(TreeObject, blobs[(TreeBlob, id)])
  {
  }

  /** Nothing fails, the remote is sound, and the stores `from` hold everything between them. */
  ghost predicate Smooth(g: Git, remote: Remote, writeFails: nat -> bool, from: (Objects, Blobs), root: Id) {
    Faultless(remote, writeFails) && Sound(g, from.1) && Pushable(g, from.0, from.1, root)
  }

  /** A walk that began with the stores `from`: it has only met what they lead to, and learnt nothing else. */
  ghost predicate OnCourse(g: Git, from: (Objects, Blobs), objects: Objects, blobs: Blobs, root: Id, stack: seq<Id>) {
    var pool := Pooled(from.0, from.1);
    && Grows(from.0, objects) && Grows(objects, pool) && Grows(from.1, blobs)
    && forall id :: id in stack ==> Reaches(g, pool, root, id)
  }

  lemma StartsOnCourse(g: Git, objects: Objects, blobs: Blobs, root: Id)
    ensures OnCourse(g, (objects, blobs), objects, blobs, root, [root])
  {
    PoolHolds(objects, blobs);
    ReachesRoot(g, Pooled(objects, blobs), root);
  }

  lemma StaysAtHand(g: Git, from: (Objects, Blobs), objects: Objects, blobs: Blobs, root: Id, stack: seq<Id>, id: Id)
    requires Sound(g, from.1) && Pushable(g, from.0, from.1, root) && OnCourse(g, from, objects, blobs, root, stack) && id in stack
    ensures AtHand(g, Pooled(from.0, from.1), objects, blobs, id)
  {
    PoolHolds(from.0, from.1);
    if id !in objects && id != g.emptyTree {
      assert (TreeBlob, id) in from.1;
    }
  }

  lemma SmoothTurn(g: Git, remote: Remote, writeFails: nat -> bool, from: (Objects, Blobs), objects: Objects, blobs: Blobs,
                   root: Id, stack: seq<Id>, n: nat)
    requires Smooth(g, remote, writeFails, from, root) && OnCourse(g, from, objects, blobs, root, stack) && stack != []
    ensures Reliable(remote) && !writeFails(n) && AtHand(g, Pooled(from.0, from.1), objects, blobs, stack[|stack| - 1])
  {
    StaysAtHand(g, from, objects, blobs, root, stack, stack[|stack| - 1]);
  }

  lemma PoppedOnCourse(g: Git, from: (Objects, Blobs), objects: Objects, blobs: Blobs, root: Id, stack: seq<Id>)
    requires OnCourse(g, from, objects, blobs, root, stack) && stack != []
    ensures OnCourse(g, from, objects, blobs, root, stack[..|stack| - 1])
  {
  }

  lemma StaysOnCourse(g: Git, from: (Objects, Blobs), objects: Objects, objects': Objects, blobs: Blobs, blobs': Blobs,
                      root: Id, stack: seq<Id>, stack': seq<Id>)
    requires OnCourse(g, from, objects, blobs, root, stack) && stack != []
    requires Grows(objects, objects') && Grows(objects', Pooled(from.0, from.1)) && Grows(blobs, blobs')
    requires Readable(g, Pooled(from.0, from.1), stack[|stack| - 1])
    requires OnlySubtrees(Entries(g, Pooled(from.0, from.1), stack[|stack| - 1]), stack[..|stack| - 1], stack')
    ensures OnCourse(g, from, objects', blobs', root, stack')
  {
    var pool, id := Pooled(from.0, from.1), stack[|stack| - 1];
    forall q | q in stack' ensures Reaches(g, pool, root, q) {
      if q !in stack {
        assert Subtree(g, pool, id, q);
        ReachesChild(g, pool, root, id, q);
      }
    }
  }

  ghost predicate WalkInv(g: Git, objects: Objects, blobs: Blobs, root: Id, seen: set<Id>, stack: seq<Id>, universe: set<Id>) {
    && seen <= universe && Queued(stack) <= universe
    && root in seen + Queued(stack)
    && AllVisited(g, objects, blobs, seen, seen + Queued(stack))
  }

  lemma WalkPops(g: Git, objects: Objects, blobs: Blobs, root: Id, seen: set<Id>, stack: seq<Id>, universe: set<Id>)
    requires WalkInv(g, objects, blobs, root, seen, stack, universe) && stack != []
    ensures var id, rest := stack[|stack| - 1], stack[..|stack| - 1];
            && id in universe && Queued(rest) <= universe
            && (id in seen ==> WalkInv(g, objects, blobs, root, seen, rest, universe))
            && (id !in seen ==> |universe - (seen + {id})| < |universe - seen|)
  {
    var id, rest := stack[|stack| - 1], stack[..|stack| - 1];
    Popped(stack);
    if id in seen {
      assert seen + Queued(rest) == seen + Queued(stack);
    } else {
      assert universe - (seen + {id}) == universe - seen - {id};
    }
  }

  lemma WalkVisits(g: Git, objects: Objects, objects': Objects, blobs: Blobs, blobs': Blobs,
                   root: Id, seen: set<Id>, stack: seq<Id>, stack': seq<Id>, universe: set<Id>)
    requires WalkInv(g, objects, blobs, root, seen, stack, universe) && stack != []
    requires Queued(stack[..|stack| - 1]) <= Queued(stack') <= universe
    requires Visited(g, objects', blobs', stack[|stack| - 1], Queued(stack'))
    requires Grows(objects, objects') && Grows(blobs, blobs')
    ensures WalkInv(g, objects', blobs', root, seen + {stack[|stack| - 1]}, stack', universe)
  {
    Popped(stack);
    OneMoreVisited(g, objects, objects', blobs, blobs', seen, stack[|stack| - 1], seen + Queued(stack), Queued(stack'));
  }

  ghost predicate AllVisited(g: Git, objects: Objects, blobs: Blobs, seen: set<Id>, known: set<Id>) {
    forall id :: id in seen ==> Visited(g, objects, blobs, id, known)
  }

  lemma OneMoreVisited(g: Git, objects: Objects, objects': Objects, blobs: Blobs, blobs': Blobs,
                       seen: set<Id>, id: Id, known: set<Id>, queued: set<Id>)
    requires AllVisited(g, objects, blobs, seen, known) && Visited(g, objects', blobs', id, queued)
    requires Grows(objects, objects') && Grows(blobs, blobs') && known <= seen + {id} + queued
    ensures AllVisited(g, objects', blobs', seen + {id}, seen + {id} + queued)
  {
    VisitedKept(g, objects', objects', blobs', blobs', id, queued, seen + {id} + queued);
    forall old' | old' in seen ensures Visited(g, objects', blobs', old', seen + {id} + queued) {
      VisitedKept(g, objects, objects', blobs, blobs', old', known, seen + {id} + queued);
    }
  }

  lemma Popped(stack: seq<Id>)
    requires stack != []
    ensures Queued(stack) == Queued(stack[..|stack| - 1]) + {stack[|stack| - 1]}
  {
    assert stack == stack[..|stack| - 1] + [stack[|stack| - 1]];
  }
}
