/** Content-addressed objects: what the daemon stores and what trees refer to. */
module GitObjects {
  import opened Common

  /** An object id: the bytes of a hash. */
  datatype Id = Id(bytes: Bytes)

  const ID_LENGTH: nat := 20

  datatype ObjectKind = BlobObject | TreeObject | CommitObject | TagObject

  datatype Object = Object(kind: ObjectKind, data: Bytes)

  datatype EntryKind = File(executable: bool) | Tree | Symlink | Submodule

  /** A path component, as UTF-8. */
  datatype Name = Name(utf8: Bytes)

  datatype Entry = Entry(name: Name, kind: EntryKind, id: Id)

  /** The git library's contract: object hashing, tree parsing, and the well-known empty tree. */
  datatype Git = Git(hash: Object -> Id, parse: Bytes -> Option<seq<Entry>>, emptyTree: Id)

  ghost predicate HashInjective(g: Git) {
    forall a, b :: g.hash(a) == g.hash(b) ==> a == b
  }

  type Objects = map<Id, Object>

  /** Every object is stored under its own hash. */
  ghost predicate Keyed(g: Git, objects: Objects) {
    forall id :: id in objects ==> g.hash(objects[id]) == id
  }

  /** Nothing is removed or replaced. */
  ghost predicate Grows<K, V>(m: map<K, V>, m': map<K, V>) {
    forall k :: k in m ==> k in m' && m'[k] == m[k]
  }

  datatype StoreError = InvalidId | NotATree | NotABlob | Malformed

  /** `GitContentStore::read_tree`: the empty tree is known without being stored. */
  function ReadTree(g: Git, objects: Objects, id: Id): Result<Option<seq<Entry>>, StoreError> {
    if id == g.emptyTree then Ok(Some([]))
    else if |id.bytes| != ID_LENGTH then Err(InvalidId)
    else if id !in objects then Ok(None)
    else if !objects[id].kind.TreeObject? then Err(NotATree)
    else
      match g.parse(objects[id].data)
      case None => Err(Malformed)
      case Some(entries) => Ok(Some(entries))
  }

  /** `GitContentStore::read_file`. */
  function ReadFile(objects: Objects, id: Id): Result<Option<Bytes>, StoreError> {
    if |id.bytes| != ID_LENGTH then Err(InvalidId)
    else if id !in objects then Ok(None)
    else if !objects[id].kind.BlobObject? then Err(NotABlob)
    else Ok(Some(objects[id].data))
  }

  /** `GitContentStore::has_object`. */
  function HasObject(objects: Objects, id: Id): Result<bool, StoreError> {
    if |id.bytes| != ID_LENGTH then Err(InvalidId) else Ok(id in objects)
  }

  predicate Readable(g: Git, objects: Objects, id: Id) {
    ReadTree(g, objects, id).Ok? && ReadTree(g, objects, id).value.Some?
  }

  function Entries(g: Git, objects: Objects, id: Id): seq<Entry>
    requires Readable(g, objects, id)
  {
    ReadTree(g, objects, id).value.value
  }

  predicate RefersToBlob(e: Entry) {
    e.kind.File? || e.kind.Symlink?
  }

  // ---- The graph ----------------------------------------------------------

  /** `child` is a subtree of the readable tree `id`. */
  predicate Subtree(g: Git, objects: Objects, id: Id, child: Id) {
    Readable(g, objects, id) && exists e :: e in Entries(g, objects, id) && e.kind.Tree? && e.id == child
  }

  /** `blob` is a file or symlink of the readable tree `id`. */
  predicate Leaf(g: Git, objects: Objects, id: Id, blob: Id) {
    Readable(g, objects, id) && exists e :: e in Entries(g, objects, id) && RefersToBlob(e) && e.id == blob
  }

  /** A walk from `root` down subtree entries; graphs may be shared or cyclic. */
  ghost predicate Descent(g: Git, objects: Objects, root: Id, path: seq<Id>) {
    && path != []
    && var n := |path| - 1;
       if n == 0 then path[0] == root
       else Subtree(g, objects, path[n - 1], path[n]) && Descent(g, objects, root, path[..n])
  }

  ghost predicate Reaches(g: Git, objects: Objects, root: Id, id: Id) {
    exists path :: Descent(g, objects, root, path) && path[|path| - 1] == id
  }

  lemma ReachesRoot(g: Git, objects: Objects, root: Id)
    ensures Reaches(g, objects, root, root)
  {
    assert Descent(g, objects, root, [root]);
  }

  lemma ReachesChild(g: Git, objects: Objects, root: Id, id: Id, child: Id)
    requires Reaches(g, objects, root, id) && Subtree(g, objects, id, child)
    ensures Reaches(g, objects, root, child)
  {
    var path :| Descent(g, objects, root, path) && path[|path| - 1] == id;
    var longer := path + [child];
    assert longer[..|longer| - 1] == path;
    assert Descent(g, objects, root, longer);
  }

  /** A set that holds the root and every subtree of its members holds everything reachable. */
  lemma {:induction false} ClosedSetCovers(g: Git, objects: Objects, root: Id, closed: set<Id>, path: seq<Id>)
    requires root in closed
    requires forall id, child :: id in closed && Subtree(g, objects, id, child) ==> child in closed
    requires Descent(g, objects, root, path)
    ensures path[|path| - 1] in closed
    decreases |path|
  {
    if |path| > 1 {
      var n := |path| - 1;
      ClosedSetCovers(g, objects, root, closed, path[..n]);
      assert Subtree(g, objects, path[n - 1], path[n]);
    }
  }

  /** A finite set of tree ids that no tree content leads out of. */
  ghost predicate FiniteGraph(g: Git, universe: set<Id>) {
    forall o: Object, e: Entry ::
      g.hash(o) in universe && o.kind.TreeObject? && g.parse(o.data).Some? && e in g.parse(o.data).value && e.kind.Tree?
      ==> e.id in universe
  }

  lemma ReadTreeKept(g: Git, objects: Objects, objects': Objects, id: Id)
    requires Grows(objects, objects') && Readable(g, objects, id)
    ensures ReadTree(g, objects', id) == ReadTree(g, objects, id)
  {
  }
}
