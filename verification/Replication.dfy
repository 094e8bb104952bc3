/** The push walk and the completeness checker agree on what a complete remote is. */
module Replication {
  import opened Common
  import opened GitObjects
  import opened Stores
  import opened Push
  import opened TreeCheck

  /** The remote's trees and files, read as an object store. */
  function RemoteObjects(blobs: Blobs): Objects {
    map id | id in (set key | key in blobs :: key.1) && ((TreeBlob, id) in blobs || (FileBlob, id) in blobs) ::
      if (TreeBlob, id) in blobs then Object(TreeObject, blobs[(TreeBlob, id)])
      else Object(BlobObject, blobs[(FileBlob, id)])
  }

  lemma RemoteObjectAt(blobs: Blobs, kind: BlobKind, id: Id)
    requires (kind, id) in blobs && (kind == TreeBlob || kind == FileBlob)
    ensures id in RemoteObjects(blobs)
    ensures kind == TreeBlob ==> RemoteObjects(blobs)[id] == Object(TreeObject, blobs[(kind, id)])
  {
    assert (kind, id).1 == id;
  }

  /** What git promises: hashing is injective, and a parsed tree names 20-byte ids. */
  ghost predicate GitPromises(g: Git) {
    HashInjective(g) && forall d: Bytes, e: Entry :: g.parse(d).Some? && e in g.parse(d).value ==> |e.id.bytes| == ID_LENGTH
  }

  lemma ReplicatedReadsAlike(g: Git, objects: Objects, blobs: Blobs, id: Id)
    requires GitPromises(g) && Keyed(g, objects) && Sound(g, blobs) && Replicated(g, objects, blobs, id)
    ensures ReadTree(g, RemoteObjects(blobs), id) == ReadTree(g, objects, id)
  {
    RemoteObjectAt(blobs, TreeBlob, id);
    assert (TreeBlob, id) in blobs;
    if id != g.emptyTree {
      assert g.hash(objects[id]) == g.hash(RemoteObjects(blobs)[id]);
    }
  }

  /** A path through the remote's trees is a path through the local ones. */
  lemma {:induction false} DescentAgrees(g: Git, objects: Objects, blobs: Blobs, root: Id, path: seq<Id>)
    requires GitPromises(g) && Keyed(g, objects) && Sound(g, blobs) && Closed(g, objects, blobs, root)
    requires Descent(g, RemoteObjects(blobs), root, path)
    ensures Descent(g, objects, root, path)
    decreases |path|
  {
    if |path| > 1 {
      var n := |path| - 1;
      DescentAgrees(g, objects, blobs, root, path[..n]);
      assert Reaches(g, objects, root, path[n - 1]) by { assert path[..n][n - 1] == path[n - 1]; }
      ReplicatedReadsAlike(g, objects, blobs, path[n - 1]);
      assert Subtree(g, objects, path[n - 1], path[n]);
    }
  }

  lemma ReachesAgrees(g: Git, objects: Objects, blobs: Blobs, root: Id, id: Id)
    requires GitPromises(g) && Keyed(g, objects) && Sound(g, blobs) && Closed(g, objects, blobs, root)
    requires Reaches(g, RemoteObjects(blobs), root, id)
    ensures Replicated(g, objects, blobs, id)
    ensures ReadTree(g, RemoteObjects(blobs), id) == ReadTree(g, objects, id)
  {
    var path :| Descent(g, RemoteObjects(blobs), root, path) && path[|path| - 1] == id;
    DescentAgrees(g, objects, blobs, root, path);
    assert Reaches(g, objects, root, id);
    ReplicatedReadsAlike(g, objects, blobs, id);
  }

  lemma LeafIdFits(g: Git, objects: Objects, t: Id, blob: Id)
    requires GitPromises(g) && Leaf(g, objects, t, blob)
    ensures |blob.bytes| == ID_LENGTH
  {
    var e :| e in Entries(g, objects, t) && RefersToBlob(e) && e.id == blob;
    assert e in g.parse(objects[t].data).value;
  }

  lemma LeafAgrees(g: Git, objects: Objects, blobs: Blobs, root: Id, blob: Id)
    requires GitPromises(g) && Keyed(g, objects) && Sound(g, blobs) && Closed(g, objects, blobs, root)
    requires ReachableLeaf(g, RemoteObjects(blobs), root, blob)
    ensures (FileBlob, blob) in blobs && HasObject(RemoteObjects(blobs), blob) == Ok(true)
  {
    var t :| Reaches(g, RemoteObjects(blobs), root, t) && Leaf(g, RemoteObjects(blobs), t, blob);
    ReachesAgrees(g, objects, blobs, root, t);
    assert Leaf(g, objects, t, blob);
    RemoteObjectAt(blobs, FileBlob, blob);
    LeafIdFits(g, objects, t, blob);
  }

  lemma NotBothKinds(g: Git, blobs: Blobs, id: Id)
    requires HashInjective(g) && Sound(g, blobs) && (TreeBlob, id) in blobs
    ensures (FileBlob, id) !in blobs
  {
    assert forall data: Bytes :: g.hash(Object(BlobObject, data)) != g.hash(Object(TreeObject, blobs[(TreeBlob, id)]));
  }

  /**
   * A closed, sound remote is complete in the checker's sense, and the checker's
   * hypothesis holds of it: no id can name both a tree and a blob.
   */
  lemma ClosedIsComplete(g: Git, objects: Objects, blobs: Blobs, root: Id)
    requires GitPromises(g) && Keyed(g, objects) && Sound(g, blobs) && Closed(g, objects, blobs, root)
    ensures Complete(g, RemoteObjects(blobs), root)
    ensures Separated(g, RemoteObjects(blobs), root)
  {
    var there := RemoteObjects(blobs);
    forall t | Reaches(g, there, root, t) ensures Readable(g, there, t) {
      ReachesAgrees(g, objects, blobs, root, t);
    }
    forall b | ReachableLeaf(g, there, root, b) ensures HasObject(there, b) == Ok(true) {
      LeafAgrees(g, objects, blobs, root, b);
    }
    forall id | Reaches(g, there, root, id) ensures !ReachableLeaf(g, there, root, id) {
      ReachesAgrees(g, objects, blobs, root, id);
      NotBothKinds(g, blobs, id);
      if ReachableLeaf(g, there, root, id) {
        LeafAgrees(g, objects, blobs, root, id);
      }
    }
  }

  /**
   * Push until a walk succeeds, at most `attempts` times, then check what the
   * remote holds. Whatever the interrupted walks left behind, a later success
   * closes the remote and the checker passes it. Where nothing fails and the two
   * stores hold everything between them, the first walk succeeds.
   */
  method PushThenCheck(g: Git, store: LocalStore, remote: Remote, root: Id, writeFails: nat -> bool, attempts: nat,
                       ghost universe: set<Id>)
    returns (pushed: bool, tries: nat, r: CheckResult)
    requires GitPromises(g) && Keyed(g, store.objects) && FiniteGraph(g, universe) && root in universe
    requires KeepsSound(g, universe, remote) && Sound(g, remote.blobs)
    modifies store, remote
    ensures Grows(old(store.objects), store.objects) && Grows(old(remote.blobs), remote.blobs)
    ensures pushed ==> Closed(g, store.objects, remote.blobs, root) && IsOk(r)
    ensures attempts > 0 && Smooth(g, remote, writeFails, (old(store.objects), old(remote.blobs)), root) ==> pushed && tries == 1
    ensures !pushed ==> tries == attempts
  {
    tries := 0;
    pushed := false;
    ghost var smooth := Smooth(g, remote, writeFails, (store.objects, remote.blobs), root);
    while tries < attempts && !pushed
      invariant tries <= attempts && (pushed ==> tries > 0)
      invariant tries == 0 ==> store.objects == old(store.objects) && remote.blobs == old(remote.blobs)
      invariant smooth && tries > 0 ==> pushed && tries == 1
      invariant Keyed(g, store.objects) && Sound(g, remote.blobs)
      invariant Grows(old(store.objects), store.objects) && Grows(old(remote.blobs), remote.blobs)
      invariant pushed ==> Closed(g, store.objects, remote.blobs, root)
      decreases attempts - tries
    {
      var outcome := PushReachable(g, store, remote, root, writeFails, universe);
      pushed := outcome.Ok?;
      tries := tries + 1;
    }
    r := CheckTreeComplete(g, RemoteObjects(remote.blobs), root);
    if pushed {
      ClosedIsComplete(g, store.objects, remote.blobs, root);
    }
  }

  // ---- The hypotheses can be met --------------------------------------------

  function KindCode(k: ObjectKind): byte {
    match k case BlobObject => 0 case TreeObject => 1 case CommitObject => 2 case TagObject => 3
  }

  function PlainHash(o: Object): Id {
    Id([KindCode(o.kind)] + o.data)
  }

  /** A tree of 19 bytes holds one file, whose content is those bytes. */
  function PlainParse(data: Bytes): Option<seq<Entry>> {
    if |data| == 19 then Some([Entry(Name([102]), EntryKind.File(false), PlainHash(Object(BlobObject, data)))]) else None
  }

  const PLAIN: Git := Git(PlainHash, PlainParse, Id([]))

  lemma PlainHashInjective(a: Object, b: Object)
    requires PlainHash(a) == PlainHash(b)
    ensures a == b
  {
    assert ([KindCode(a.kind)] + a.data)[0] == ([KindCode(b.kind)] + b.data)[0];
    assert ([KindCode(a.kind)] + a.data)[1..] == a.data && ([KindCode(b.kind)] + b.data)[1..] == b.data;
  }

  lemma PlainPromises()
    ensures GitPromises(PLAIN)
  {
    forall a, b | PLAIN.hash(a) == PLAIN.hash(b) ensures a == b { PlainHashInjective(a, b); }
  }

  lemma PlainKinds(data: Bytes)
    ensures var root := PlainHash(Object(TreeObject, data)); FiniteGraph(PLAIN, {root}) && WellKinded(PLAIN, {root})
  {
    forall o: Object | PlainHash(o) == PlainHash(Object(TreeObject, data)) ensures o == Object(TreeObject, data) {
      PlainHashInjective(o, Object(TreeObject, data));
    }
    forall o: Object, b: Object | NamesAsBlob(PLAIN, o, PlainHash(b)) ensures b.kind.BlobObject? {
      PlainHashInjective(b, Object(BlobObject, o.data));
    }
  }

  /**
   * A git, a tree with a file in it, a local store and a remote that meet every
   * hypothesis of `ClosedIsComplete`, and those of `PushThenCheck` on git and the graph.
   */
  lemma HypothesesCanBeMet(data: Bytes)
    requires |data| == 19
    ensures var tree, file := Object(TreeObject, data), Object(BlobObject, data);
            var root, leaf := PlainHash(tree), PlainHash(file);
            var objects, blobs := map[root := tree, leaf := file], map[(TreeBlob, root) := data, (FileBlob, leaf) := data];
            && GitPromises(PLAIN) && FiniteGraph(PLAIN, {root}) && WellKinded(PLAIN, {root})
            && Keyed(PLAIN, objects) && Sound(PLAIN, blobs)
            && Leaf(PLAIN, objects, root, leaf) && Closed(PLAIN, objects, blobs, root)
  {
    var tree, file := Object(TreeObject, data), Object(BlobObject, data);
    var root, leaf := PlainHash(tree), PlainHash(file);
    var objects, blobs := map[root := tree, leaf := file], map[(TreeBlob, root) := data, (FileBlob, leaf) := data];
    PlainPromises();
    PlainKinds(data);
    assert root != leaf by { if root == leaf { PlainHashInjective(tree, file); } }
    var e := Entry(Name([102]), EntryKind.File(false), leaf);
    assert Readable(PLAIN, objects, root) && Entries(PLAIN, objects, root) == [e];
    assert e in Entries(PLAIN, objects, root);
    forall id | Reaches(PLAIN, objects, root, id) ensures id == root {
      var path :| Descent(PLAIN, objects, root, path) && path[|path| - 1] == id;
      ClosedSetCovers(PLAIN, objects, root, {root}, path);
    }
  }
}
