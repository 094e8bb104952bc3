/** The daemon's local object store and the remote it replicates to. */
module Stores {
  import opened Common
  import opened GitObjects

  datatype BlobKind = TreeBlob | FileBlob | CommitBlob | ViewBlob | OperationBlob | ExtraBlob

  type Blobs = map<(BlobKind, Id), Bytes>

  /** The local git object database. */
  class LocalStore {
    var objects: Objects

    constructor (objects: Objects)
      ensures this.objects == objects
    {
      this.objects := objects;
    }

    /** `write_git_object_bytes`: the id is whatever the content hashes to. */
    method WriteObject(g: Git, o: Object) returns (id: Id)
      requires HashInjective(g) && Keyed(g, objects)
      modifies this
      ensures id == g.hash(o)
      ensures objects == old(objects)[id := o]
      ensures Keyed(g, objects) && Grows(old(objects), objects)
    {
      id := g.hash(o);
      objects := objects[id := o];
    }
  }

  datatype RemoteError = RemoteError

  /**
   * A remote. Before its k-th request other daemons add `peers(k)`; the request
   * fails if `faults(k)`, and a failed put may still have taken effect. If the
   * k-th request is a get, `lies(k)` may replace the true answer by any other.
   */
  class Remote {
    var blobs: Blobs
    var clock: nat
    const peers: nat -> Blobs
    const faults: nat -> bool
    const late: nat -> bool
    const lies: nat -> Option<Option<Bytes>>

    constructor (blobs: Blobs, peers: nat -> Blobs, faults: nat -> bool, late: nat -> bool, lies: nat -> Option<Option<Bytes>>)
      ensures this.blobs == blobs && clock == 0 && this.peers == peers && this.faults == faults && this.late == late
      ensures this.lies == lies
    {
      this.blobs := blobs;
      this.clock := 0;
      this.peers := peers;
      this.faults := faults;
      this.late := late;
      this.lies := lies;
    }

    /** Content-addressed puts never replace an existing key. */
    function WithPeers(): Blobs
      reads this
    {
      peers(clock) + blobs
    }

    /** What a get would be answered now. */
    function Answer(kind: BlobKind, id: Id): Result<Option<Bytes>, RemoteError>
      reads this
    {
      if faults(clock) then Err(RemoteError.RemoteError)
      else if lies(clock).Some? then Ok(lies(clock).value)
      else if (kind, id) in WithPeers() then Ok(Some(WithPeers()[(kind, id)])) else Ok(None)
    }

    method HasBlob(kind: BlobKind, id: Id) returns (r: Result<bool, RemoteError>)
      modifies this
      ensures blobs == old(WithPeers()) && clock == old(clock) + 1
      ensures r == if faults(old(clock)) then Err(RemoteError.RemoteError) else Ok((kind, id) in blobs)
    {
      blobs := WithPeers();
      var failed := faults(clock);
      clock := clock + 1;
      r := if failed then Err(RemoteError.RemoteError) else Ok((kind, id) in blobs);
    }

    method GetBlob(kind: BlobKind, id: Id) returns (r: Result<Option<Bytes>, RemoteError>)
      modifies this
      ensures blobs == old(WithPeers()) && clock == old(clock) + 1
      ensures r == old(Answer(kind, id))
    {
      blobs := WithPeers();
      var failed, lie := faults(clock), lies(clock);
      clock := clock + 1;
      r := if failed then Err(RemoteError.RemoteError)
           else if lie.Some? then Ok(lie.value)
           else if (kind, id) in blobs then Ok(Some(blobs[(kind, id)])) else Ok(None);
    }

    method PutBlob(kind: BlobKind, id: Id, data: Bytes) returns (r: Result<(), RemoteError>)
      modifies this
      ensures clock == old(clock) + 1 && (r.Err? <==> faults(old(clock)))
      ensures blobs == if r.Err? && !late(old(clock)) then old(WithPeers()) else map[(kind, id) := data] + old(WithPeers())
    {
      blobs := WithPeers();
      var failed, applied := faults(clock), late(clock);
      clock := clock + 1;
      if !failed || applied {
        blobs := map[(kind, id) := data] + blobs;
      }
      r := if failed then Err(RemoteError.RemoteError) else Ok(());
    }
  }

  function ObjectKindOf(kind: BlobKind): Option<ObjectKind> {
    match kind
    case TreeBlob => Some(TreeObject)
    case FileBlob => Some(BlobObject)
    case CommitBlob => Some(CommitObject)
    case _ => None
  }

  /** Every git blob on the remote is the content its id names. */
  ghost predicate Sound(g: Git, blobs: Blobs) {
    forall kind, id {:trigger (kind, id) in blobs} :: (kind, id) in blobs && ObjectKindOf(kind).Some? ==>
      g.hash(Object(ObjectKindOf(kind).value, blobs[(kind, id)])) == id
  }
}
