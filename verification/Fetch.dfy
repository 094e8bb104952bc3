/** Read-through: local miss, remote get, verified local write, re-read. */
module Fetch {
  import opened Common
  import opened GitObjects
  import opened Stores

  datatype FetchError = NotFound | DataLoss(got: Id) | LocalWrite | RemoteFailure | Store(error: StoreError)

  /** An answer that is the content `id` names. */
  predicate Genuine(g: Git, kind: BlobKind, id: Id, answer: Result<Option<Bytes>, RemoteError>) {
    && ObjectKindOf(kind).Some? && answer.Ok? && answer.value.Some?
    && g.hash(Object(ObjectKindOf(kind).value, answer.value.value)) == id
  }

  /**
   * `fetch_git_object`. Whatever bytes the remote returns are stored under their
   * own hash, so the cache stays keyed even when the answer was wrong.
   */
  method FetchGitObject(g: Git, store: LocalStore, remote: Remote, kind: BlobKind, id: Id, writeFails: bool)
    returns (r: Result<(), FetchError>)
    requires HashInjective(g) && Keyed(g, store.objects)
    modifies store, remote
    ensures Keyed(g, store.objects) && Grows(old(store.objects), store.objects)
    ensures Grows(old(remote.blobs), remote.blobs)
    ensures remote.blobs == old(remote.blobs) || remote.blobs == old(remote.WithPeers())
    ensures r.Ok? <==> Genuine(g, kind, id, old(remote.Answer(kind, id))) && !writeFails
    ensures r.Ok? ==> store.objects == old(store.objects)[id := Object(ObjectKindOf(kind).value, old(remote.Answer(kind, id).value.value))]
    ensures ObjectKindOf(kind).Some? ==>
              && (r == Err(NotFound) <==> old(remote.Answer(kind, id)) == Ok(None))
              && (r == Err(RemoteFailure) <==> old(remote.Answer(kind, id)).Err?)
              && (r == Err(LocalWrite) <==> writeFails && old(remote.Answer(kind, id)).Ok? && old(remote.Answer(kind, id)).value.Some?)
    ensures r.Err? && r.error.DataLoss? ==> r.error.got != id && r.error.got in store.objects
    ensures r.Err? ==> !r.error.Store?
    ensures r.Ok? ==>
              && (store.objects[id].kind.TreeObject? <==> kind.TreeBlob?) && (store.objects[id].kind.BlobObject? <==> kind.FileBlob?)
              && (store.objects[id].kind.CommitObject? <==> kind.CommitBlob?)
    ensures r.Err? && !r.error.DataLoss? ==> store.objects == old(store.objects)
  {
    if ObjectKindOf(kind).None? { return Err(RemoteFailure); }
    var bytes := remote.GetBlob(kind, id);
    if bytes.Err? { return Err(RemoteFailure); }
    if bytes.value.None? { return Err(NotFound); }
    if writeFails { return Err(LocalWrite); }
    var got := store.WriteObject(g, Object(ObjectKindOf(kind).value, bytes.value.value));
    if got != id { return Err(DataLoss(got)); }
    return Ok(());
  }

  /** A tree through the cache: `read_tree`, and on a miss `fetch_tree`. */
  method ReadTreeThrough(g: Git, store: LocalStore, remote: Remote, id: Id, writeFails: bool)
    returns (r: Result<seq<Entry>, FetchError>)
    requires HashInjective(g) && Keyed(g, store.objects)
    modifies store, remote
    ensures Keyed(g, store.objects) && Grows(old(store.objects), store.objects)
    ensures Grows(old(remote.blobs), remote.blobs)
    ensures remote.blobs == old(remote.blobs) || remote.blobs == old(remote.WithPeers())
    ensures r.Ok? ==> ReadTree(g, store.objects, id) == Ok(Some(r.value))
    ensures r.Ok? <==>
              || old(Readable(g, store.objects, id))
              || (!writeFails && old(ReadTree(g, store.objects, id)) == Ok(None)
                  && var answer := old(remote.Answer(TreeBlob, id));
                     Genuine(g, TreeBlob, id, answer) && g.parse(answer.value.value).Some?)
    ensures r == Err(NotFound) <==> old(ReadTree(g, store.objects, id)) == Ok(None) && old(remote.Answer(TreeBlob, id)) == Ok(None)
    ensures r == Err(RemoteFailure) <==> old(ReadTree(g, store.objects, id)) == Ok(None) && old(remote.Answer(TreeBlob, id)).Err?
    ensures old(ReadTree(g, store.objects, id)).Err? ==>
              r == Err(Store(old(ReadTree(g, store.objects, id)).error)) && remote.clock == old(remote.clock)
    ensures r.Ok? && !old(Readable(g, store.objects, id)) ==>
              store.objects == old(store.objects)[id := Object(TreeObject, old(remote.Answer(TreeBlob, id).value.value))]
    ensures old(Readable(g, store.objects, id)) ==>
              && r == Ok(old(Entries(g, store.objects, id)))
              && remote.clock == old(remote.clock) && store.objects == old(store.objects)
  {
    var local := ReadTree(g, store.objects, id);
    if local.Err? { return Err(Store(local.error)); }
    if local.value.Some? { return Ok(local.value.value); }
    var fetched := FetchGitObject(g, store, remote, TreeBlob, id, writeFails);
    if fetched.Err? { return Err(fetched.error); }
    return match ReadTree(g, store.objects, id)
      case Err(e) => Err(Store(e))
      case Ok(None) => Err(NotFound)
      case Ok(Some(entries)) => Ok(entries);
  }

  predicate HasFile(objects: Objects, id: Id) {
    ReadFile(objects, id).Ok? && ReadFile(objects, id).value.Some?
  }

  /**
   * A file through the cache. A successful read returns the one content with
   * that id, and from then on the local store answers alone.
   */
  method ReadFileThrough(g: Git, store: LocalStore, remote: Remote, id: Id, writeFails: bool)
    returns (r: Result<Bytes, FetchError>)
    requires HashInjective(g) && Keyed(g, store.objects)
    modifies store, remote
    ensures Keyed(g, store.objects) && Grows(old(store.objects), store.objects)
    ensures Grows(old(remote.blobs), remote.blobs)
    ensures r.Ok? ==> g.hash(Object(BlobObject, r.value)) == id && ReadFile(store.objects, id) == Ok(Some(r.value))
    ensures r.Ok? <==>
              || old(HasFile(store.objects, id))
              || (!writeFails && old(ReadFile(store.objects, id)) == Ok(None) && Genuine(g, FileBlob, id, old(remote.Answer(FileBlob, id))))
    ensures r == Err(NotFound) <==> old(ReadFile(store.objects, id)) == Ok(None) && old(remote.Answer(FileBlob, id)) == Ok(None)
    ensures r == Err(RemoteFailure) <==> old(ReadFile(store.objects, id)) == Ok(None) && old(remote.Answer(FileBlob, id)).Err?
    ensures old(ReadFile(store.objects, id)).Err? ==>
              r == Err(Store(old(ReadFile(store.objects, id)).error)) && remote.clock == old(remote.clock)
    ensures old(HasFile(store.objects, id)) ==>
              && r == Ok(old(ReadFile(store.objects, id).value.value))
              && remote.clock == old(remote.clock) && store.objects == old(store.objects)
  {
    var local := ReadFile(store.objects, id);
    if local.Err? { return Err(Store(local.error)); }
    if local.value.Some? { return Ok(local.value.value); }
    var fetched := FetchGitObject(g, store, remote, FileBlob, id, writeFails);
    if fetched.Err? { return Err(fetched.error); }
    return match ReadFile(store.objects, id)
      case Err(e) => Err(Store(e))
      case Ok(None) => Err(NotFound)
      case Ok(Some(data)) => Ok(data);
  }

  // ---- Views and operations -------------------------------------------------

  /** Decode, re-encode, hash: the id under which a view or operation may be stored. */
  datatype OpStoreCodec = OpStoreCodec(canonicalId: (BlobKind, Bytes) -> Option<Id>)

  const OP_ID_LENGTH: nat := 64

  predicate AllZero(id: Id) {
    forall i :: 0 <= i < |id.bytes| ==> id.bytes[i] == 0
  }

  /** `validate_op_store_blob_id`. */
  predicate ValidBlob(c: OpStoreCodec, kind: BlobKind, id: Id, data: Bytes) {
    |id.bytes| == OP_ID_LENGTH && !AllZero(id) && c.canonicalId(kind, data) == Some(id)
  }

  datatype WriteReply = Written | Rejected | PutFailed

  datatype OpStoreReply = Found(data: Bytes) | Absent | InvalidArgument | Corrupt | Internal

  /** What a remote's answer is worth: only bytes whose canonical id was asked for are handed on. */
  function Judged(c: OpStoreCodec, kind: BlobKind, id: Id, answer: Result<Option<Bytes>, RemoteError>): OpStoreReply {
    match answer
    case Err(_) => Internal
    case Ok(None) => Absent
    case Ok(Some(data)) => if ValidBlob(c, kind, id, data) then Found(data) else Corrupt
  }

  /** The redb tables of views and operations. */
  class OpStoreTables {
    var rows: Blobs

    ghost predicate Valid(c: OpStoreCodec)
      reads this
    {
      forall kind, id {:trigger (kind, id) in rows} :: (kind, id) in rows ==> ValidBlob(c, kind, id, rows[(kind, id)])
    }

    constructor ()
      ensures rows == map[]
    {
      rows := map[];
    }

    /**
     * `write_view` and `write_operation`: a rejected write touches nothing, an
     * accepted one leaves its row even if the remote put fails, and an
     * acknowledged one has its bytes on the remote, unless the key was there before.
     */
    method Write(c: OpStoreCodec, remote: Option<Remote>, kind: BlobKind, id: Id, data: Bytes) returns (r: WriteReply)
      requires Valid(c)
      modifies this, if remote.Some? then {remote.value} else {}
      ensures Valid(c)
      ensures r == Rejected <==> !ValidBlob(c, kind, id, data)
      ensures |id.bytes| != OP_ID_LENGTH || (forall i :: 0 <= i < |id.bytes| ==> id.bytes[i] == 0) ==> r == Rejected
      ensures rows == if r == Rejected then old(rows) else old(rows)[(kind, id) := data]
      ensures remote.Some? ==> Grows(old(remote.value.blobs), remote.value.blobs)
      ensures remote.Some? && r == Written ==>
                remote.value.blobs == map[(kind, id) := data] + old(remote.value.WithPeers())
      ensures remote.Some? && r == Rejected ==> remote.value.blobs == old(remote.value.blobs)
      ensures r == PutFailed <==>
                ValidBlob(c, kind, id, data) && remote.Some? && old(remote.Some? && remote.value.faults(remote.value.clock))
    {
      if !ValidBlob(c, kind, id, data) { return Rejected; }
      rows := rows[(kind, id) := data];
      if remote.Some? {
        var put := remote.value.PutBlob(kind, id, data);
        if put.Err? { return PutFailed; }
      }
      return Written;
    }

    /**
     * `read_view` and `read_operation`: whatever the remote holds, a reply is
     * content of the requested id, and the row answers the next read by itself.
     */
    method Read(c: OpStoreCodec, remote: Option<Remote>, kind: BlobKind, id: Id) returns (r: OpStoreReply)
      requires Valid(c)
      modifies this, if remote.Some? then {remote.value} else {}
      ensures Valid(c) && Grows(old(rows), rows)
      ensures remote.Some? ==> Grows(old(if remote.Some? then remote.value.blobs else map[]), remote.value.blobs)
      ensures r.Found? ==> c.canonicalId(kind, r.data) == Some(id) && (kind, id) in rows && rows[(kind, id)] == r.data
      ensures rows == if r.Found? then old(rows)[(kind, id) := r.data] else old(rows)
      ensures r == InvalidArgument <==> |id.bytes| != OP_ID_LENGTH
      ensures |id.bytes| == OP_ID_LENGTH && (kind, id) !in old(rows) ==>
                && (remote.None? ==> r == Absent)
                && (remote.Some? ==> r == Judged(c, kind, id, old(if remote.Some? then remote.value.Answer(kind, id) else Ok(None))))
      ensures old((kind, id) in rows) && |id.bytes| == OP_ID_LENGTH ==>
                r == Found(old(rows)[(kind, id)]) && rows == old(rows)
                && (remote.Some? ==> remote.value.clock == old(if remote.Some? then remote.value.clock else 0))
    {
      if |id.bytes| != OP_ID_LENGTH { return InvalidArgument; }
      if (kind, id) in rows { return Found(rows[(kind, id)]); }
      if remote.None? { return Absent; }
      var fetched := remote.value.GetBlob(kind, id);
      if fetched.Err? { return Internal; }
      if fetched.value.None? { return Absent; }
      if !ValidBlob(c, kind, id, fetched.value.value) { return Corrupt; }
      rows := rows[(kind, id) := fetched.value.value];
      return Found(fetched.value.value);
    }
  }

  // ---- Runs of reads --------------------------------------------------------

  datatype Request = FileRead(id: Id) | TreeRead(id: Id) | OpStoreRead(kind: BlobKind, id: Id)

  datatype Answer = FileAnswer(data: Bytes) | TreeAnswer(entries: seq<Entry>) | OpStoreAnswer(data: Bytes) | Refused

  /** The tree content that `id` names. */
  ghost predicate NamesTree(g: Git, id: Id, entries: seq<Entry>) {
    || (id == g.emptyTree && entries == [])
    || exists data :: g.hash(Object(TreeObject, data)) == id && g.parse(data) == Some(entries)
  }

  /** A refusal, or content that the requested id names and that the local stores now answer. */
  ghost predicate Served(g: Git, c: OpStoreCodec, objects: Objects, rows: Blobs, q: Request, a: Answer) {
    match q
    case FileRead(id) =>
      a.Refused? || (a.FileAnswer? && g.hash(Object(BlobObject, a.data)) == id && ReadFile(objects, id) == Ok(Some(a.data)))
    case TreeRead(id) =>
      a.Refused? || (a.TreeAnswer? && NamesTree(g, id, a.entries) && ReadTree(g, objects, id) == Ok(Some(a.entries)))
    case OpStoreRead(kind, id) =>
      a.Refused? ||
      (a.OpStoreAnswer? && c.canonicalId(kind, a.data) == Some(id) && (kind, id) in rows && rows[(kind, id)] == a.data)
  }

  /** The content that `q` asks for is in the local stores, or on the remote under its kind. */
  ghost predicate Held(g: Git, c: OpStoreCodec, objects: Objects, rows: Blobs, blobs: Blobs, q: Request) {
    match q
    case FileRead(id) =>
      |id.bytes| == ID_LENGTH && exists data {:trigger Object(BlobObject, data)} ::
        g.hash(Object(BlobObject, data)) == id && Has(objects, blobs, FileBlob, id, Object(BlobObject, data))
    case TreeRead(id) =>
      id == g.emptyTree || (|id.bytes| == ID_LENGTH && exists data {:trigger Object(TreeObject, data)} ::
        g.parse(data).Some? && g.hash(Object(TreeObject, data)) == id && Has(objects, blobs, TreeBlob, id, Object(TreeObject, data)))
    case OpStoreRead(kind, id) =>
      || (|id.bytes| == OP_ID_LENGTH && (kind, id) in rows)
      || ((kind, id) in blobs && ValidBlob(c, kind, id, blobs[(kind, id)]))
  }

  predicate Has(objects: Objects, blobs: Blobs, kind: BlobKind, id: Id, o: Object) {
    (id in objects && objects[id] == o) || ((kind, id) in blobs && blobs[(kind, id)] == o.data)
  }

  lemma HeldKept(g: Git, c: OpStoreCodec, objects: Objects, objects': Objects, rows: Blobs, rows': Blobs, blobs: Blobs, blobs': Blobs, q: Request)
    requires Held(g, c, objects, rows, blobs, q) && Grows(objects, objects') && Grows(rows, rows') && Grows(blobs, blobs')
    ensures Held(g, c, objects', rows', blobs', q)
  {
    match q
    case FileRead(id) =>
      var data :| g.hash(Object(BlobObject, data)) == id && Has(objects, blobs, FileBlob, id, Object(BlobObject, data));
      assert Has(objects', blobs', FileBlob, id, Object(BlobObject, data));
    case TreeRead(id) =>
      if id != g.emptyTree {
        var data :| g.parse(data).Some? && g.hash(Object(TreeObject, data)) == id && Has(objects, blobs, TreeBlob, id, Object(TreeObject, data));
        assert Has(objects', blobs', TreeBlob, id, Object(TreeObject, data));
      }
    case OpStoreRead(_, _) =>
  }

  /** The next request, if it is a get, is answered truthfully. */
  ghost predicate Truthful(remote: Remote)
    reads remote
  {
    !remote.faults(remote.clock) && remote.lies(remote.clock).None?
  }

  /** A held file or tree that is not in the local store is what a truthful remote sends. */
  lemma HeldIsGenuine(g: Git, objects: Objects, remote: Remote, kind: BlobKind, o: Object)
    requires HashInjective(g) && Keyed(g, objects) && Truthful(remote)
    requires ObjectKindOf(kind) == Some(o.kind) && Has(objects, remote.blobs, kind, g.hash(o), o)
    ensures g.hash(o) in objects ==> objects[g.hash(o)] == o
    ensures g.hash(o) !in objects ==> remote.Answer(kind, g.hash(o)) == Ok(Some(o.data))
  {
  }

  lemma HeldCanBeServed(g: Git, c: OpStoreCodec, objects: Objects, rows: Blobs, remote: Remote, q: Request)
    requires HashInjective(g) && Keyed(g, objects) && Truthful(remote) && Held(g, c, objects, rows, remote.blobs, q)
    ensures q.FileRead? ==>
              HasFile(objects, q.id) || (ReadFile(objects, q.id) == Ok(None) && Genuine(g, FileBlob, q.id, remote.Answer(FileBlob, q.id)))
    ensures q.TreeRead? ==>
              || Readable(g, objects, q.id)
              || (ReadTree(g, objects, q.id) == Ok(None) && Genuine(g, TreeBlob, q.id, remote.Answer(TreeBlob, q.id))
                  && g.parse(remote.Answer(TreeBlob, q.id).value.value).Some?)
    ensures q.OpStoreRead? ==>
              |q.id.bytes| == OP_ID_LENGTH && ((q.kind, q.id) in rows || Judged(c, q.kind, q.id, remote.Answer(q.kind, q.id)).Found?)
  {
    match q
    case FileRead(id) =>
      var data :| g.hash(Object(BlobObject, data)) == id && Has(objects, remote.blobs, FileBlob, id, Object(BlobObject, data));
      HeldIsGenuine(g, objects, remote, FileBlob, Object(BlobObject, data));
    case TreeRead(id) =>
      if id != g.emptyTree {
        var data :| g.parse(data).Some? && g.hash(Object(TreeObject, data)) == id && Has(objects, remote.blobs, TreeBlob, id, Object(TreeObject, data));
        HeldIsGenuine(g, objects, remote, TreeBlob, Object(TreeObject, data));
      }
    case OpStoreRead(_, _) =>
  }

  lemma ServedKept(g: Git, c: OpStoreCodec, objects: Objects, objects': Objects, rows: Blobs, rows': Blobs, q: Request, a: Answer)
    requires Served(g, c, objects, rows, q, a) && Grows(objects, objects') && Grows(rows, rows')
    ensures Served(g, c, objects', rows', q, a)
  {
    if q.TreeRead? && a.TreeAnswer? { ReadTreeKept(g, objects, objects', q.id); }
  }

  lemma ReadTreeIsNamed(g: Git, objects: Objects, id: Id)
    requires Keyed(g, objects) && Readable(g, objects, id)
    ensures NamesTree(g, id, Entries(g, objects, id))
  {
    if id != g.emptyTree {
      assert objects[id] == Object(TreeObject, objects[id].data);
    }
  }

  /** One request of any kind. A question answered before gets the same answer, and the remote is not asked. */
  method ServeOne(g: Git, c: OpStoreCodec, store: LocalStore, tables: OpStoreTables, remote: Remote, q: Request, writeFails: bool)
    returns (a: Answer)
    requires HashInjective(g) && Keyed(g, store.objects) && tables.Valid(c)
    modifies store, tables, remote
    ensures Keyed(g, store.objects) && tables.Valid(c)
    ensures Grows(old(store.objects), store.objects) && Grows(old(tables.rows), tables.rows)
    ensures Served(g, c, store.objects, tables.rows, q, a)
    ensures Grows(old(remote.blobs), remote.blobs)
    ensures old(Truthful(remote) && Held(g, c, store.objects, tables.rows, remote.blobs, q)) && !writeFails ==> !a.Refused?
    ensures forall was: Answer :: !was.Refused? && old(Served(g, c, store.objects, tables.rows, q, was)) ==>
              a == was && remote.clock == old(remote.clock)
  {
    if Truthful(remote) && Held(g, c, store.objects, tables.rows, remote.blobs, q) {
      HeldCanBeServed(g, c, store.objects, tables.rows, remote, q);
    }
    match q {
      case FileRead(id) =>
        var r := ReadFileThrough(g, store, remote, id, writeFails);
        a := if r.Ok? then FileAnswer(r.value) else Refused;
      case TreeRead(id) =>
        var r := ReadTreeThrough(g, store, remote, id, writeFails);
        if r.Ok? { ReadTreeIsNamed(g, store.objects, id); }
        a := if r.Ok? then TreeAnswer(r.value) else Refused;
      case OpStoreRead(kind, id) =>
        var r := tables.Read(c, Some(remote), kind, id);
        a := if r.Found? then OpStoreAnswer(r.data) else Refused;
    }
  }

  /** Later answers to a question agree with the first one given. */
  ghost predicate Consistent(qs: seq<Request>, answers: seq<Answer>)
    requires |answers| <= |qs|
  {
    forall i, j :: 0 <= i < j < |answers| && !answers[i].Refused? && qs[j] == qs[i] ==> answers[j] == answers[i]
  }

  ghost predicate AllServed(g: Git, c: OpStoreCodec, objects: Objects, rows: Blobs, qs: seq<Request>, answers: seq<Answer>)
    requires |answers| <= |qs|
  {
    forall i :: 0 <= i < |answers| ==> Served(g, c, objects, rows, qs[i], answers[i])
  }

  lemma OneMoreServed(g: Git, c: OpStoreCodec, objects: Objects, objects': Objects, rows: Blobs, rows': Blobs,
                      qs: seq<Request>, answers: seq<Answer>, a: Answer)
    requires |answers| < |qs| && AllServed(g, c, objects, rows, qs, answers) && Consistent(qs, answers)
    requires Grows(objects, objects') && Grows(rows, rows') && Served(g, c, objects', rows', qs[|answers|], a)
    requires forall was: Answer :: !was.Refused? && Served(g, c, objects, rows, qs[|answers|], was) ==> a == was
    ensures AllServed(g, c, objects', rows', qs, answers + [a]) && Consistent(qs, answers + [a])
  {
    forall i | 0 <= i < |answers| ensures Served(g, c, objects', rows', qs[i], answers[i]) {
      ServedKept(g, c, objects, objects', rows, rows', qs[i], answers[i]);
    }
  }

  /** No request fails, no answer is false, and no local write fails. */
  ghost predicate Faultless(remote: Remote, writeFails: nat -> bool) {
    forall k :: !remote.faults(k) && remote.lies(k).None? && !writeFails(k)
  }

  /** The positions of the requests whose content is held somewhere. */
  ghost function HeldOf(g: Git, c: OpStoreCodec, objects: Objects, rows: Blobs, blobs: Blobs, qs: seq<Request>): set<nat> {
    set i: nat | i < |qs| && Held(g, c, objects, rows, blobs, qs[i])
  }

  ghost predicate AllAnswered(held: set<nat>, answers: seq<Answer>) {
    forall i :: i in held && i < |answers| ==> !answers[i].Refused?
  }

  /**
   * Any run of reads, of files, trees, views and operations, against a remote
   * that may fail, change or give any answer to any request: replies agree with
   * the plain id-to-content function, the cache stays keyed, and a question once
   * answered is answered ever after the same way. Without faults every question
   * whose content is held locally or on the remote is answered.
   */
  method ServeReads(g: Git, c: OpStoreCodec, store: LocalStore, tables: OpStoreTables, remote: Remote,
                    qs: seq<Request>, writeFails: nat -> bool)
    returns (answers: seq<Answer>)
    requires HashInjective(g) && Keyed(g, store.objects) && tables.Valid(c)
    modifies store, tables, remote
    ensures |answers| == |qs|
    ensures Keyed(g, store.objects) && tables.Valid(c)
    ensures AllServed(g, c, store.objects, tables.rows, qs, answers) && Consistent(qs, answers)
    ensures Faultless(remote, writeFails) ==>
              AllAnswered(old(HeldOf(g, c, store.objects, tables.rows, remote.blobs, qs)), answers)
  {
    answers := [];
    ghost var held := HeldOf(g, c, store.objects, tables.rows, remote.blobs, qs);
    for n := 0 to |qs|
      invariant |answers| == n
      invariant Keyed(g, store.objects) && tables.Valid(c)
      invariant AllServed(g, c, store.objects, tables.rows, qs, answers) && Consistent(qs, answers)
      invariant Grows(old(store.objects), store.objects) && Grows(old(tables.rows), tables.rows) && Grows(old(remote.blobs), remote.blobs)
      invariant Faultless(remote, writeFails) ==> AllAnswered(held, answers)
    {
      ghost var objects, rows := store.objects, tables.rows;
      if n in held {
        HeldKept(g, c, old(store.objects), objects, old(tables.rows), rows, old(remote.blobs), remote.blobs, qs[n]);
      }
      var a := ServeOne(g, c, store, tables, remote, qs[n], writeFails(n));
      OneMoreServed(g, c, objects, store.objects, rows, tables.rows, qs, answers, a);
      answers := answers + [a];
    }
  }
}
