/** `check_tree_complete`: the recursive walk that reports what a tree graph lacks. */
module TreeCheck {
  import opened Common
  import opened GitObjects

  datatype CheckResult = CheckResult(objectsVisited: nat, missing: seq<Id>, corrupt: seq<Id>)

  predicate IsOk(r: CheckResult) {
    r.missing == [] && r.corrupt == []
  }

  /** A report names exactly the given ids, each once. */
  ghost predicate Reports(found: seq<Id>, ids: set<Id>) {
    (set id | id in found) == ids && |found| == |ids|
  }

  lemma ReportsOneMore(found: seq<Id>, ids: set<Id>, id: Id)
    requires Reports(found, ids) && id !in ids
    ensures Reports(found + [id], ids + {id})
  {
  }

  // ---- What the graph lacks, by definition ----------------------------------

  datatype Health = Present | Missing | Corrupt

  function TreeHealth(g: Git, objects: Objects, id: Id): Health {
    match ReadTree(g, objects, id)
    case Err(_) => Corrupt
    case Ok(None) => Missing
    case Ok(Some(_)) => Present
  }

  function BlobHealth(objects: Objects, id: Id): Health {
    match HasObject(objects, id)
    case Err(_) => Corrupt
    case Ok(false) => Missing
    case Ok(true) => Present
  }

  /** An id that the store does not hold, though it could. */
  predicate Unstored(objects: Objects, id: Id) {
    |id.bytes| == ID_LENGTH && id !in objects
  }

  /** An id of the wrong length, or one whose object is not a tree or does not parse. */
  predicate BadTree(g: Git, objects: Objects, id: Id) {
    |id.bytes| != ID_LENGTH || (id in objects && !(objects[id].kind.TreeObject? && g.parse(objects[id].data).Some?))
  }

  /** What the three states are, in terms of the store alone. */
  lemma HealthMeans(g: Git, objects: Objects, id: Id)
    ensures TreeHealth(g, objects, id) == Missing <==> id != g.emptyTree && Unstored(objects, id)
    ensures TreeHealth(g, objects, id) == Corrupt <==> id != g.emptyTree && BadTree(g, objects, id)
    ensures BlobHealth(objects, id) == Missing <==> Unstored(objects, id)
    ensures BlobHealth(objects, id) == Corrupt <==> |id.bytes| != ID_LENGTH
  {
  }

  /** Ids any tree entry in the store names. */
  ghost function Mentioned(g: Git, objects: Objects): set<Id> {
    set t, e | t in objects && Readable(g, objects, t) && e in Entries(g, objects, t) :: e.id
  }

  ghost function ReachableTrees(g: Git, objects: Objects, root: Id): set<Id> {
    set t | t in Mentioned(g, objects) + {root} && Reaches(g, objects, root, t)
  }

  ghost predicate ReachableLeaf(g: Git, objects: Objects, root: Id, blob: Id) {
    exists t :: Reaches(g, objects, root, t) && Leaf(g, objects, t, blob)
  }

  ghost function ReachableBlobs(g: Git, objects: Objects, root: Id): set<Id> {
    set b | b in Mentioned(g, objects) && ReachableLeaf(g, objects, root, b)
  }

  predicate SubmoduleAt(g: Git, objects: Objects, t: Id, i: nat) {
    Readable(g, objects, t) && i < |Entries(g, objects, t)| && Entries(g, objects, t)[i].kind.Submodule?
  }

  /** Submodule entries, by tree and position. */
  ghost function SubmoduleSites(g: Git, objects: Objects, trees: set<Id>): set<(Id, nat)> {
    set t, i: nat | t in trees && Readable(g, objects, t) && i < |Entries(g, objects, t)| && SubmoduleAt(g, objects, t, i) :: (t, i)
  }

  /** No id is met both as a tree and as a file or symlink. */
  ghost predicate Separated(g: Git, objects: Objects, root: Id) {
    forall id :: Reaches(g, objects, root, id) ==> !ReachableLeaf(g, objects, root, id)
  }

  /** Every reachable tree can be read and every file and symlink in one exists. */
  ghost predicate Complete(g: Git, objects: Objects, root: Id) {
    && (forall t :: Reaches(g, objects, root, t) ==> Readable(g, objects, t))
    && (forall b :: ReachableLeaf(g, objects, root, b) ==> HasObject(objects, b) == Ok(true))
  }

  lemma {:induction false} ReachableIsFinite(g: Git, objects: Objects, root: Id, t: Id)
    requires Reaches(g, objects, root, t)
    ensures t in ReachableTrees(g, objects, root)
  {
    var path :| Descent(g, objects, root, path) && path[|path| - 1] == t;
    if |path| > 1 {
      SubtreeMentioned(g, objects, path[|path| - 2], t);
    }
  }

  lemma SubtreeMentioned(g: Git, objects: Objects, t: Id, child: Id)
    requires Subtree(g, objects, t, child)
    ensures child in Mentioned(g, objects)
  {
    var e :| e in Entries(g, objects, t) && e.kind.Tree? && e.id == child;
    assert t in objects;
  }

  lemma LeafMentioned(g: Git, objects: Objects, t: Id, blob: Id)
    requires Leaf(g, objects, t, blob)
    ensures blob in Mentioned(g, objects)
  {
    var e :| e in Entries(g, objects, t) && RefersToBlob(e) && e.id == blob;
    assert t in objects;
  }

  // ---- What the walk has established about the ids it has visited -----------

  /**
   * The history of a walk: trees entered, blobs probed, submodule entries passed
   * over, and the ids reported missing and corrupt.
   */
  datatype Trail = Trail(trees: set<Id>, blobs: set<Id>, sites: set<(Id, nat)>, lost: set<Id>, bad: set<Id>)

  /** `lost` and `bad` are exactly the unhealthy ids among the trees and blobs. */
  ghost predicate Classified(g: Git, objects: Objects, trees: set<Id>, blobs: set<Id>, lost: set<Id>, bad: set<Id>) {
    && lost + bad <= trees + blobs
    && (forall t :: t in trees ==>
          (t in lost <==> TreeHealth(g, objects, t) == Missing) && (t in bad <==> TreeHealth(g, objects, t) == Corrupt))
    && (forall b :: b in blobs ==>
          (b in lost <==> BlobHealth(objects, b) == Missing) && (b in bad <==> BlobHealth(objects, b) == Corrupt))
  }

  /** Only reachable trees were entered and only their leaves probed. */
  ghost predicate Reachable(g: Git, objects: Objects, root: Id, trees: set<Id>, blobs: set<Id>) {
    && (forall t :: t in trees ==> Reaches(g, objects, root, t))
    && (forall b :: b in blobs ==> ReachableLeaf(g, objects, root, b))
  }

  /** The counters and reports agree with the history. */
  ghost predicate Tallied(visited: set<Id>, r: CheckResult, h: Trail) {
    && visited == h.trees + h.blobs && h.trees !! h.blobs
    && r.objectsVisited == |visited| + |h.sites|
    && Reports(r.missing, h.lost) && Reports(r.corrupt, h.bad)
  }

  /** The sites are real and belong to entered trees. */
  ghost predicate RealSites(g: Git, objects: Objects, trees: set<Id>, sites: set<(Id, nat)>) {
    forall s {:trigger s in sites} :: s in sites ==> s.0 in trees && SubmoduleAt(g, objects, s.0, s.1)
  }

  ghost predicate Honest(g: Git, objects: Objects, root: Id, h: Trail) {
    && Classified(g, objects, h.trees, h.blobs, h.lost, h.bad)
    && Reachable(g, objects, root, h.trees, h.blobs)
    && RealSites(g, objects, h.trees, h.sites)
  }

  function Note(r: CheckResult, id: Id, health: Health): CheckResult {
    CheckResult(r.objectsVisited + 1,
                if health == Missing then r.missing + [id] else r.missing,
                if health == Corrupt then r.corrupt + [id] else r.corrupt)
  }

  ghost function WithTree(h: Trail, id: Id, health: Health): Trail {
    Trail(h.trees + {id}, h.blobs, h.sites,
          if health == Missing then h.lost + {id} else h.lost, if health == Corrupt then h.bad + {id} else h.bad)
  }

  ghost function WithBlob(h: Trail, id: Id, health: Health): Trail {
    Trail(h.trees, h.blobs + {id}, h.sites,
          if health == Missing then h.lost + {id} else h.lost, if health == Corrupt then h.bad + {id} else h.bad)
  }

  lemma TalliedWithTree(visited: set<Id>, r: CheckResult, h: Trail, id: Id, health: Health)
    requires Tallied(visited, r, h) && id !in visited && h.lost + h.bad <= h.trees + h.blobs
    ensures Tallied(visited + {id}, Note(r, id, health), WithTree(h, id, health))
  {
    if health == Missing { ReportsOneMore(r.missing, h.lost, id); }
    if health == Corrupt { ReportsOneMore(r.corrupt, h.bad, id); }
  }

  lemma TalliedWithBlob(visited: set<Id>, r: CheckResult, h: Trail, id: Id, health: Health)
    requires Tallied(visited, r, h) && id !in visited && h.lost + h.bad <= h.trees + h.blobs
    ensures Tallied(visited + {id}, Note(r, id, health), WithBlob(h, id, health))
  {
    if health == Missing { ReportsOneMore(r.missing, h.lost, id); }
    if health == Corrupt { ReportsOneMore(r.corrupt, h.bad, id); }
  }

  lemma HonestWithTree(g: Git, objects: Objects, root: Id, h: Trail, id: Id)
    requires Honest(g, objects, root, h) && id !in h.trees && id !in h.blobs && Reaches(g, objects, root, id)
    ensures Honest(g, objects, root, WithTree(h, id, TreeHealth(g, objects, id)))
  {
  }

  lemma HonestWithBlob(g: Git, objects: Objects, root: Id, h: Trail, id: Id)
    requires Honest(g, objects, root, h) && id !in h.trees && id !in h.blobs && ReachableLeaf(g, objects, root, id)
    ensures Honest(g, objects, root, WithBlob(h, id, BlobHealth(objects, id)))
  {
  }

  lemma SubmoduleTallied(visited: set<Id>, r: CheckResult, h: Trail, t: Id, i: nat)
    requires Tallied(visited, r, h) && (t, i) !in h.sites
    ensures Tallied(visited, r.(objectsVisited := r.objectsVisited + 1), h.(sites := h.sites + {(t, i)}))
  {
  }

  lemma SubmoduleHonest(g: Git, objects: Objects, root: Id, h: Trail, t: Id, i: nat)
    requires Honest(g, objects, root, h) && t in h.trees && SubmoduleAt(g, objects, t, i)
    ensures Honest(g, objects, root, h.(sites := h.sites + {(t, i)}))
  {
  }

  /** What holds between any two steps of a walk. */
  ghost predicate Sane(g: Git, objects: Objects, root: Id, visited: set<Id>, r: CheckResult, h: Trail) {
    Tallied(visited, r, h) && Honest(g, objects, root, h)
  }

  lemma SaneWithTree(g: Git, objects: Objects, root: Id, visited: set<Id>, r: CheckResult, h: Trail, id: Id)
    requires Sane(g, objects, root, visited, r, h) && id !in visited && Reaches(g, objects, root, id)
    ensures var health := TreeHealth(g, objects, id);
            Sane(g, objects, root, visited + {id}, Note(r, id, health), WithTree(h, id, health))
  {
    TalliedWithTree(visited, r, h, id, TreeHealth(g, objects, id));
    HonestWithTree(g, objects, root, h, id);
  }

  lemma SaneWithBlob(g: Git, objects: Objects, root: Id, visited: set<Id>, r: CheckResult, h: Trail, id: Id)
    requires Sane(g, objects, root, visited, r, h) && id !in visited && ReachableLeaf(g, objects, root, id)
    ensures var health := BlobHealth(objects, id);
            Sane(g, objects, root, visited + {id}, Note(r, id, health), WithBlob(h, id, health))
  {
    TalliedWithBlob(visited, r, h, id, BlobHealth(objects, id));
    HonestWithBlob(g, objects, root, h, id);
  }

  lemma SaneWithSubmodule(g: Git, objects: Objects, root: Id, visited: set<Id>, r: CheckResult, h: Trail, t: Id, i: nat)
    requires Sane(g, objects, root, visited, r, h) && t in h.trees && SubmoduleAt(g, objects, t, i) && (t, i) !in h.sites
    ensures Sane(g, objects, root, visited, r.(objectsVisited := r.objectsVisited + 1), h.(sites := h.sites + {(t, i)}))
  {
    SubmoduleTallied(visited, r, h, t, i);
    SubmoduleHonest(g, objects, root, h, t, i);
  }

  /** The first `n` entries have been dealt with. */
  ghost predicate Handled(entries: seq<Entry>, n: nat, t: Id, visited: set<Id>, sites: set<(Id, nat)>)
    requires n <= |entries|
  {
    forall i: nat {:trigger entries[i]} :: i < n ==>
      if entries[i].kind.Submodule? then (t, i) in sites else entries[i].id in visited
  }

  /** Everything tree `t` refers to has been dealt with. */
  ghost predicate Done(g: Git, objects: Objects, t: Id, visited: set<Id>, sites: set<(Id, nat)>) {
    Readable(g, objects, t) ==>
      var entries := Entries(g, objects, t); Handled(entries, |entries|, t, visited, sites)
  }

  ghost predicate AllDone(g: Git, objects: Objects, trees: set<Id>, visited: set<Id>, sites: set<(Id, nat)>) {
    forall t :: t in trees ==> Done(g, objects, t, visited, sites)
  }

  /** From one trail to a later one: growth, everything newly entered is finished, and new sites lie in new trees. */
  ghost predicate Progress(g: Git, objects: Objects, visited: set<Id>, h: Trail, visited': set<Id>, h': Trail) {
    && visited <= visited' && h.trees <= h'.trees && h.sites <= h'.sites
    && AllDone(g, objects, h'.trees - h.trees, visited', h'.sites)
    && forall s :: s in h'.sites - h.sites ==> s.0 in h'.trees - h.trees
  }

  lemma AllDoneKept(g: Git, objects: Objects, trees: set<Id>, visited: set<Id>, sites: set<(Id, nat)>,
                    visited': set<Id>, sites': set<(Id, nat)>)
    requires AllDone(g, objects, trees, visited, sites) && visited <= visited' && sites <= sites'
    ensures AllDone(g, objects, trees, visited', sites')
  {
    forall t | t in trees ensures Done(g, objects, t, visited', sites') {
      assert Done(g, objects, t, visited, sites);
    }
  }

  /** Part-way through the entries of `t`, which was entered between `h` and now. */
  ghost predicate Midway(g: Git, objects: Objects, t: Id, entries: seq<Entry>, n: nat,
                         visited: set<Id>, h: Trail, visited': set<Id>, h': Trail)
    requires n <= |entries|
  {
    && visited <= visited' && h.trees <= h'.trees && h.sites <= h'.sites && t in h'.trees - h.trees
    && AllDone(g, objects, h'.trees - h.trees - {t}, visited', h'.sites)
    && (forall s :: s in h'.sites - h.sites ==> s.0 in h'.trees - h.trees)
    && Handled(entries, n, t, visited', h'.sites)
    && (forall s :: s in h'.sites && s.0 == t ==> s.1 < n)
  }

  lemma MidwayNext(g: Git, objects: Objects, t: Id, entries: seq<Entry>, n: nat, visited: set<Id>, h: Trail,
                   visited1: set<Id>, h1: Trail, visited2: set<Id>, h2: Trail)
    requires n < |entries| && Midway(g, objects, t, entries, n, visited, h, visited1, h1)
    requires Progress(g, objects, visited1, h1, visited2, h2) && !entries[n].kind.Submodule? && entries[n].id in visited2
    ensures Midway(g, objects, t, entries, n + 1, visited, h, visited2, h2)
  {
    AllDoneKept(g, objects, h1.trees - h.trees - {t}, visited1, h1.sites, visited2, h2.sites);
  }

  lemma MidwaySubmodule(g: Git, objects: Objects, t: Id, entries: seq<Entry>, n: nat, visited: set<Id>, h: Trail,
                        visited1: set<Id>, h1: Trail)
    requires n < |entries| && Midway(g, objects, t, entries, n, visited, h, visited1, h1)
    requires entries[n].kind.Submodule?
    ensures (t, n) !in h1.sites
    ensures Midway(g, objects, t, entries, n + 1, visited, h, visited1, h1.(sites := h1.sites + {(t, n)}))
  {
    AllDoneKept(g, objects, h1.trees - h.trees - {t}, visited1, h1.sites, visited1, h1.sites + {(t, n)});
  }

  lemma MidwayEnds(g: Git, objects: Objects, t: Id, entries: seq<Entry>, visited: set<Id>, h: Trail,
                   visited': set<Id>, h': Trail)
    requires Readable(g, objects, t) && entries == Entries(g, objects, t)
    requires Midway(g, objects, t, entries, |entries|, visited, h, visited', h')
    ensures Progress(g, objects, visited, h, visited', h')
  {
  }

  // ---- The walk as a function -----------------------------------------------

  /** What the recursion threads through: the visited set and the result so far. */
  datatype Walk = Walk(visited: set<Id>, result: CheckResult)

  /** First meeting of a file or symlink; a second one is passed over. */
  ghost function ProbeOf(objects: Objects, id: Id, w: Walk): Walk {
    if id in w.visited then w else Walk(w.visited + {id}, Note(w.result, id, BlobHealth(objects, id)))
  }

  /** The walk from tree `id`, over ids in `universe`. */
  ghost function WalkOf(g: Git, objects: Objects, universe: set<Id>, id: Id, w: Walk): (w': Walk)
    ensures w.visited <= w'.visited
    decreases |universe - w.visited|, 0
  {
    if id in w.visited || id !in universe then w
    else
      FewerLeftStrictly(universe, w.visited, id);
      var w1 := Walk(w.visited + {id}, Note(w.result, id, TreeHealth(g, objects, id)));
      if Readable(g, objects, id) then WalkEntriesOf(g, objects, universe, Entries(g, objects, id), w1) else w1
  }

  ghost function WalkEntryOf(g: Git, objects: Objects, universe: set<Id>, e: Entry, w: Walk): (w': Walk)
    ensures w.visited <= w'.visited
    decreases |universe - w.visited|, 1
  {
    match e.kind
    case Tree => WalkOf(g, objects, universe, e.id, w)
    case Submodule => w.(result := w.result.(objectsVisited := w.result.objectsVisited + 1))
    case _ => ProbeOf(objects, e.id, w)
  }

  ghost function WalkEntriesOf(g: Git, objects: Objects, universe: set<Id>, entries: seq<Entry>, w: Walk): (w': Walk)
    ensures w.visited <= w'.visited
    decreases |universe - w.visited|, 2 + |entries|
  {
    if entries == [] then w
    else
      var w1 := WalkEntryOf(g, objects, universe, entries[0], w);
      FewerLeft(universe, w.visited, w1.visited);
      WalkEntriesOf(g, objects, universe, entries[1..], w1)
  }

  // ---- The walk -------------------------------------------------------------

  class Checker {
    const g: Git
    const objects: Objects
    ghost const root: Id
    var visited: set<Id>
    var result: CheckResult
    ghost var trail: Trail

    constructor (g: Git, objects: Objects, ghost root: Id)
      ensures this.g == g && this.objects == objects && this.root == root
      ensures Valid() && visited == {} && trail == Trail({}, {}, {}, {}, {})
    {
      this.g := g;
      this.objects := objects;
      this.root := root;
      visited := {};
      result := CheckResult(0, [], []);
      trail := Trail({}, {}, {}, {}, {});
    }

    ghost function Here(): Walk
      reads this
    {
      Walk(visited, result)
    }

    ghost predicate Valid()
      reads this
    {
      Sane(g, objects, root, visited, result, trail)
    }

    method Record(visited': set<Id>, result': CheckResult, ghost trail': Trail)
      requires Sane(g, objects, root, visited', result', trail')
      modifies this
      ensures Valid() && visited == visited' && result == result' && trail == trail'
    {
      visited := visited';
      result := result';
      trail := trail';
    }

    /** First meeting of a file or symlink: mark, count, probe, report. */
    method ProbeBlob(id: Id)
      requires Valid() && id !in visited && ReachableLeaf(g, objects, root, id)
      modifies this
      ensures Valid()
      ensures visited == old(visited) + {id} && result == Note(old(result), id, BlobHealth(objects, id))
      ensures trail == WithBlob(old(trail), id, BlobHealth(objects, id))
    {
      var health := BlobHealth(objects, id);
      SaneWithBlob(g, objects, root, visited, result, trail, id);
      Record(visited + {id}, Note(result, id, health), WithBlob(trail, id, health));
    }

    /** First meeting of a tree whose state has just been read: mark, count, report. */
    method MarkTree(id: Id, health: Health)
      requires Valid() && id !in visited && Reaches(g, objects, root, id) && health == TreeHealth(g, objects, id)
      modifies this
      ensures Valid()
      ensures visited == old(visited) + {id} && result == Note(old(result), id, health)
      ensures trail == WithTree(old(trail), id, health)
    {
      SaneWithTree(g, objects, root, visited, result, trail, id);
      Record(visited + {id}, Note(result, id, health), WithTree(trail, id, health));
    }

    method PassSubmodule(ghost t: Id, ghost i: nat)
      requires Valid() && t in trail.trees && SubmoduleAt(g, objects, t, i) && (t, i) !in trail.sites
      modifies this
      ensures Valid() && visited == old(visited) && trail == old(trail).(sites := old(trail).sites + {(t, i)})
      ensures result == old(result).(objectsVisited := old(result).objectsVisited + 1)
    {
      SaneWithSubmodule(g, objects, root, visited, result, trail, t, i);
      Record(visited, result.(objectsVisited := result.objectsVisited + 1), trail.(sites := trail.sites + {(t, i)}));
    }

    /**
     * `walk_tree`. It ends on every graph, cyclic or shared, computes the walk, and
     * whatever it newly enters is finished when it returns.
     */
    method WalkTree(id: Id, ghost universe: set<Id>)
      requires Valid() && Reaches(g, objects, root, id)
      requires universe == Mentioned(g, objects) + {root} && id in universe
      modifies this
      ensures Valid() && id in visited
      ensures Progress(g, objects, old(visited), old(trail), visited, trail)
      ensures Here() == WalkOf(g, objects, universe, id, old(Here()))
      decreases |universe - visited|, 0
    {
      if id in visited { return; }
      ghost var visited0, trail0 := visited, trail;
      var read := ReadTree(g, objects, id);
      MarkTree(id, TreeHealth(g, objects, id));
      FewerLeftStrictly(universe, visited0, id);
      Entered(g, objects, id, visited0, trail0, visited, trail);
      if read.Err? || read.value.None? { return; }
      WalkEntries(id, read.value.value, universe, visited0, trail0);
      MidwayEnds(g, objects, id, read.value.value, visited0, trail0, visited, trail);
    }

    /** A file or symlink entry: probed at its first meeting. */
    method MeetBlob(id: Id)
      requires Valid() && ReachableLeaf(g, objects, root, id)
      modifies this
      ensures Valid() && id in visited && Progress(g, objects, old(visited), old(trail), visited, trail)
      ensures Here() == ProbeOf(objects, id, old(Here()))
    {
      ghost var visited0, trail0 := visited, trail;
      if id !in visited { ProbeBlob(id); }
      NoNewTrees(g, objects, visited0, trail0, visited, trail);
    }

    method WalkEntry(t: Id, entries: seq<Entry>, i: nat, ghost universe: set<Id>)
      requires Valid() && t in trail.trees && Readable(g, objects, t) && entries == Entries(g, objects, t)
      requires universe == Mentioned(g, objects) + {root} && i < |entries|
      requires (t, i) !in trail.sites
      modifies this
      ensures Valid()
      ensures entries[i].kind.Submodule? ==>
                visited == old(visited) && trail == old(trail).(sites := old(trail).sites + {(t, i)})
      ensures !entries[i].kind.Submodule? ==>
                Progress(g, objects, old(visited), old(trail), visited, trail) && entries[i].id in visited
      ensures Here() == WalkEntryOf(g, objects, universe, entries[i], old(Here()))
      decreases |universe - visited|, 1
    {
      var e := entries[i];
      match e.kind {
        case Tree =>
          SubtreeReached(g, objects, root, t, e);
          WalkTree(e.id, universe);
        case Submodule =>
          PassSubmodule(t, i);
        case _ =>
          LeafReached(g, objects, root, t, e);
          MeetBlob(e.id);
      }
    }

    /** One turn of the loop over the entries of `t`. */
    method Turn(t: Id, entries: seq<Entry>, i: nat, ghost universe: set<Id>, ghost visited0: set<Id>, ghost trail0: Trail)
      requires Valid() && Readable(g, objects, t) && entries == Entries(g, objects, t)
      requires universe == Mentioned(g, objects) + {root} && i < |entries|
      requires Midway(g, objects, t, entries, i, visited0, trail0, visited, trail)
      modifies this
      ensures Valid() && old(visited) <= visited
      ensures Midway(g, objects, t, entries, i + 1, visited0, trail0, visited, trail)
      ensures Here() == WalkEntryOf(g, objects, universe, entries[i], old(Here()))
      decreases |universe - visited|, 2
    {
      ghost var visited1, trail1 := visited, trail;
      WalkEntry(t, entries, i, universe);
      if entries[i].kind.Submodule? {
        MidwaySubmodule(g, objects, t, entries, i, visited0, trail0, visited1, trail1);
      } else {
        MidwayNext(g, objects, t, entries, i, visited0, trail0, visited1, trail1, visited, trail);
      }
    }

    /** The loop over the entries of a tree just entered. */
    method WalkEntries(t: Id, entries: seq<Entry>, ghost universe: set<Id>, ghost visited0: set<Id>, ghost trail0: Trail)
      requires Valid() && Readable(g, objects, t) && entries == Entries(g, objects, t)
      requires universe == Mentioned(g, objects) + {root}
      requires Midway(g, objects, t, entries, 0, visited0, trail0, visited, trail)
      modifies this
      ensures Valid()
      ensures Midway(g, objects, t, entries, |entries|, visited0, trail0, visited, trail)
      ensures Here() == WalkEntriesOf(g, objects, universe, entries, old(Here()))
      decreases |universe - visited|, 3
    {
      ghost var goal := WalkEntriesOf(g, objects, universe, entries, Here());
      assert entries[0..] == entries;
      for i := 0 to |entries|
        invariant Valid() && old(visited) <= visited
        invariant Midway(g, objects, t, entries, i, visited0, trail0, visited, trail)
        invariant WalkEntriesOf(g, objects, universe, entries[i..], Here()) == goal
      {
        FewerLeft(universe, old(visited), visited);
        EntriesStep(g, objects, universe, entries, i, Here());
        Turn(t, entries, i, universe, visited0, trail0);
      }
    }
  }

  lemma SubtreeReached(g: Git, objects: Objects, root: Id, t: Id, e: Entry)
    requires Reaches(g, objects, root, t) && Readable(g, objects, t) && e in Entries(g, objects, t) && e.kind.Tree?
    ensures Reaches(g, objects, root, e.id) && e.id in Mentioned(g, objects)
  {
    assert Subtree(g, objects, t, e.id);
    ReachesChild(g, objects, root, t, e.id);
    SubtreeMentioned(g, objects, t, e.id);
  }

  lemma LeafReached(g: Git, objects: Objects, root: Id, t: Id, e: Entry)
    requires Reaches(g, objects, root, t) && Readable(g, objects, t) && e in Entries(g, objects, t) && RefersToBlob(e)
    ensures ReachableLeaf(g, objects, root, e.id)
  {
    assert Leaf(g, objects, t, e.id);
  }

  lemma NoNewTrees(g: Git, objects: Objects, visited: set<Id>, h: Trail, visited': set<Id>, h': Trail)
    requires visited <= visited' && h'.trees == h.trees && h'.sites == h.sites
    ensures Progress(g, objects, visited, h, visited', h')
  {
  }

  lemma EntriesStep(g: Git, objects: Objects, universe: set<Id>, entries: seq<Entry>, i: nat, w: Walk)
    requires i < |entries|
    ensures WalkEntriesOf(g, objects, universe, entries[i..], w) ==
            WalkEntriesOf(g, objects, universe, entries[i + 1..], WalkEntryOf(g, objects, universe, entries[i], w))
  {
    assert entries[i..][0] == entries[i] && entries[i..][1..] == entries[i + 1..];
  }

  lemma FewerLeft(universe: set<Id>, visited: set<Id>, visited': set<Id>)
    requires visited <= visited'
    ensures |universe - visited'| <= |universe - visited|
  {
    var rest := universe - visited;
    assert universe - visited' == rest - visited';
    assert |rest| == |rest - visited'| + |rest * visited'|;
  }

  lemma FewerLeftStrictly(universe: set<Id>, visited: set<Id>, id: Id)
    requires id in universe && id !in visited
    ensures |universe - (visited + {id})| < |universe - visited|
  {
    assert universe - (visited + {id}) == universe - visited - {id};
  }

  /** A tree that cannot be read is finished at once; the entries of another are all still to do. */
  lemma Entered(g: Git, objects: Objects, t: Id, visited: set<Id>, h: Trail, visited': set<Id>, h': Trail)
    requires RealSites(g, objects, h.trees, h.sites) && t !in h.trees
    requires visited' == visited + {t} && h'.trees == h.trees + {t} && h'.sites == h.sites
    ensures !Readable(g, objects, t) ==> Progress(g, objects, visited, h, visited', h')
    ensures Readable(g, objects, t) ==> Midway(g, objects, t, Entries(g, objects, t), 0, visited, h, visited', h')
  {
    assert h'.trees - h.trees == {t};
    assert forall s :: s in h.sites ==> s.0 in h.trees;
  }

  // ---- Exactness ------------------------------------------------------------

  /** A finished walk has met every reachable tree and every leaf, as a tree or as a blob. */
  lemma FinishedCovers(g: Git, objects: Objects, root: Id, visited: set<Id>, h: Trail)
    requires visited == h.trees + h.blobs && root in visited && Reachable(g, objects, root, h.trees, h.blobs)
    requires AllDone(g, objects, h.trees, visited, h.sites) && Separated(g, objects, root)
    ensures h.trees == ReachableTrees(g, objects, root)
    ensures h.blobs == ReachableBlobs(g, objects, root)
  {
    ReachesRoot(g, objects, root);
    forall t, child | t in h.trees && Subtree(g, objects, t, child) ensures child in h.trees {
      SubtreeVisited(g, objects, t, child, visited, h.sites);
      ReachesChild(g, objects, root, t, child);
    }
    forall t ensures t in h.trees <==> t in ReachableTrees(g, objects, root) {
      if t in h.trees { ReachableIsFinite(g, objects, root, t); }
      if Reaches(g, objects, root, t) {
        var path :| Descent(g, objects, root, path) && path[|path| - 1] == t;
        ClosedSetCovers(g, objects, root, h.trees, path);
      }
    }
    forall b ensures b in h.blobs <==> b in ReachableBlobs(g, objects, root) {
      if ReachableLeaf(g, objects, root, b) {
        var t :| Reaches(g, objects, root, t) && Leaf(g, objects, t, b);
        LeafMentioned(g, objects, t, b);
        ReachableIsFinite(g, objects, root, t);
        LeafVisited(g, objects, t, b, visited, h.sites);
      }
    }
  }

  lemma SubtreeVisited(g: Git, objects: Objects, t: Id, child: Id, visited: set<Id>, sites: set<(Id, nat)>)
    requires Done(g, objects, t, visited, sites) && Subtree(g, objects, t, child)
    ensures child in visited
  {
    var e :| e in Entries(g, objects, t) && e.kind.Tree? && e.id == child;
    var i: nat :| i < |Entries(g, objects, t)| && Entries(g, objects, t)[i] == e;
  }

  lemma LeafVisited(g: Git, objects: Objects, t: Id, blob: Id, visited: set<Id>, sites: set<(Id, nat)>)
    requires Done(g, objects, t, visited, sites) && Leaf(g, objects, t, blob)
    ensures blob in visited
  {
    var e :| e in Entries(g, objects, t) && RefersToBlob(e) && e.id == blob;
    var i: nat :| i < |Entries(g, objects, t)| && Entries(g, objects, t)[i] == e;
  }

  lemma FinishedSites(g: Git, objects: Objects, trees: set<Id>, visited: set<Id>, sites: set<(Id, nat)>)
    requires AllDone(g, objects, trees, visited, sites) && RealSites(g, objects, trees, sites)
    ensures sites == SubmoduleSites(g, objects, trees)
  {
    forall t, i: nat | t in trees && SubmoduleAt(g, objects, t, i) ensures (t, i) in sites {
      assert Done(g, objects, t, visited, sites);
      assert Entries(g, objects, t)[i].kind.Submodule?;
    }
    forall s ensures s in sites <==> s in SubmoduleSites(g, objects, trees) {
    }
  }

  /** The ids a check of `root` must report missing, and those it must report corrupt. */
  ghost function Unhealthy(g: Git, objects: Objects, root: Id, health: Health): set<Id> {
    (set t | t in ReachableTrees(g, objects, root) && TreeHealth(g, objects, t) == health)
    + (set b | b in ReachableBlobs(g, objects, root) && BlobHealth(objects, b) == health)
  }

  lemma FinishedReports(g: Git, objects: Objects, root: Id, h: Trail)
    requires Classified(g, objects, h.trees, h.blobs, h.lost, h.bad)
    requires h.trees == ReachableTrees(g, objects, root) && h.blobs == ReachableBlobs(g, objects, root)
    ensures h.lost == Unhealthy(g, objects, root, Missing)
    ensures h.bad == Unhealthy(g, objects, root, Corrupt)
  {
  }

  lemma OkIffComplete(g: Git, objects: Objects, root: Id)
    ensures (Unhealthy(g, objects, root, Missing) == {} && Unhealthy(g, objects, root, Corrupt) == {})
            <==> Complete(g, objects, root)
  {
    var lost, bad := Unhealthy(g, objects, root, Missing), Unhealthy(g, objects, root, Corrupt);
    if lost == {} && bad == {} {
      forall t | Reaches(g, objects, root, t) ensures Readable(g, objects, t) {
        ReachableIsFinite(g, objects, root, t);
        assert t !in lost && t !in bad;
      }
      forall b | ReachableLeaf(g, objects, root, b) ensures HasObject(objects, b) == Ok(true) {
        var t :| Reaches(g, objects, root, t) && Leaf(g, objects, t, b);
        LeafMentioned(g, objects, t, b);
        assert b !in lost && b !in bad;
      }
    }
  }

  /**
   * `check_tree_complete`. On every graph only ids that are missing or corrupt are
   * reported, each once, and a complete graph passes. Where no id is met both as a
   * tree and as a blob, all of them are reported, the check passes exactly when
   * the graph is complete, and the count is distinct trees plus distinct blobs
   * plus submodule entries. On any graph a check that passes is right exactly when
   * every id met both ways is itself complete as a tree and present as a blob.
   */
  method CheckTreeComplete(g: Git, objects: Objects, root: Id) returns (r: CheckResult)
    ensures ReportsSome(r.missing, Unhealthy(g, objects, root, Missing))
    ensures ReportsSome(r.corrupt, Unhealthy(g, objects, root, Corrupt))
    ensures forall id :: id in r.missing ==> Unstored(objects, id)
    ensures forall id :: id in r.corrupt ==> BadTree(g, objects, id)
    ensures Complete(g, objects, root) <==> IsOk(r) && BothWaysSound(g, objects, root)
    ensures r == Checked(g, objects, root)
    ensures Separated(g, objects, root) ==>
              && Reports(r.missing, Unhealthy(g, objects, root, Missing))
              && Reports(r.corrupt, Unhealthy(g, objects, root, Corrupt))
              && (IsOk(r) <==> Complete(g, objects, root))
    ensures Separated(g, objects, root) ==>
              r.objectsVisited == |ReachableTrees(g, objects, root)| + |ReachableBlobs(g, objects, root)|
                                  + |SubmoduleSites(g, objects, ReachableTrees(g, objects, root))|
  {
    var checker := new Checker(g, objects, root);
    ReachesRoot(g, objects, root);
    checker.WalkTree(root, Mentioned(g, objects) + {root});
    r := checker.result;
    WalkSound(g, objects, root, r, checker.trail);
    ReportedMeans(g, objects, root, r);
    PassedIsRightIff(g, objects, root, checker.visited, r, checker.trail);
    if Separated(g, objects, root) {
      Finished(g, objects, root, checker.visited, r, checker.trail);
    }
  }

  lemma ReportedMeans(g: Git, objects: Objects, root: Id, r: CheckResult)
    requires ReportsSome(r.missing, Unhealthy(g, objects, root, Missing)) && ReportsSome(r.corrupt, Unhealthy(g, objects, root, Corrupt))
    ensures forall id :: id in r.missing ==> Unstored(objects, id)
    ensures forall id :: id in r.corrupt ==> BadTree(g, objects, id)
  {
    forall id | id in r.missing ensures Unstored(objects, id) {
      assert id in Unhealthy(g, objects, root, Missing);
      HealthMeans(g, objects, id);
    }
    forall id | id in r.corrupt ensures BadTree(g, objects, id) {
      assert id in Unhealthy(g, objects, root, Corrupt);
      HealthMeans(g, objects, id);
    }
  }

  /** The result of the walk from `root`, as a function of the graph. */
  ghost function Checked(g: Git, objects: Objects, root: Id): CheckResult {
    WalkOf(g, objects, Mentioned(g, objects) + {root}, root, Walk({}, CheckResult(0, [], []))).result
  }

  /** `id` is reachable as a tree and referred to as a file or symlink. */
  ghost predicate MetBothWays(g: Git, objects: Objects, root: Id, id: Id) {
    Reaches(g, objects, root, id) && ReachableLeaf(g, objects, root, id)
  }

  /** Ids met both ways are complete as trees and present as blobs. */
  ghost predicate BothWaysSound(g: Git, objects: Objects, root: Id) {
    forall id :: MetBothWays(g, objects, root, id) ==> Complete(g, objects, id) && HasObject(objects, id) == Ok(true)
  }

  /** A tree that was entered, or lies below an id that was met both ways. */
  ghost predicate Covered(g: Git, objects: Objects, root: Id, trees: set<Id>, t: Id) {
    t in trees || exists top :: MetBothWays(g, objects, root, top) && Reaches(g, objects, top, t)
  }

  lemma VisitedIsCovered(g: Git, objects: Objects, root: Id, h: Trail, t: Id)
    requires Reachable(g, objects, root, h.trees, h.blobs) && Reaches(g, objects, root, t) && t in h.trees + h.blobs
    ensures Covered(g, objects, root, h.trees, t)
  {
    if t !in h.trees {
      ReachesRoot(g, objects, t);
      assert MetBothWays(g, objects, root, t);
    }
  }

  lemma ChildIsCovered(g: Git, objects: Objects, root: Id, h: Trail, t: Id, child: Id)
    requires Reachable(g, objects, root, h.trees, h.blobs) && AllDone(g, objects, h.trees, h.trees + h.blobs, h.sites)
    requires Reaches(g, objects, root, t) && Covered(g, objects, root, h.trees, t) && Subtree(g, objects, t, child)
    ensures Reaches(g, objects, root, child) && Covered(g, objects, root, h.trees, child)
  {
    ReachesChild(g, objects, root, t, child);
    if t in h.trees {
      SubtreeVisited(g, objects, t, child, h.trees + h.blobs, h.sites);
      VisitedIsCovered(g, objects, root, h, child);
    } else {
      var top :| MetBothWays(g, objects, root, top) && Reaches(g, objects, top, t);
      ReachesChild(g, objects, top, t, child);
    }
  }

  lemma {:induction false} ReachableIsCovered(g: Git, objects: Objects, root: Id, h: Trail, path: seq<Id>)
    requires Reachable(g, objects, root, h.trees, h.blobs) && AllDone(g, objects, h.trees, h.trees + h.blobs, h.sites)
    requires root in h.trees + h.blobs && Descent(g, objects, root, path)
    ensures Reaches(g, objects, root, path[|path| - 1]) && Covered(g, objects, root, h.trees, path[|path| - 1])
    decreases |path|
  {
    var n := |path| - 1;
    if n == 0 {
      ReachesRoot(g, objects, root);
      VisitedIsCovered(g, objects, root, h, root);
    } else {
      ReachableIsCovered(g, objects, root, h, path[..n]);
      ChildIsCovered(g, objects, root, h, path[n - 1], path[n]);
    }
  }

  /** Everything reachable from a reachable tree is reachable. */
  lemma {:induction false} ReachesThrough(g: Git, objects: Objects, root: Id, id: Id, path: seq<Id>)
    requires Reaches(g, objects, root, id) && Descent(g, objects, id, path)
    ensures Reaches(g, objects, root, path[|path| - 1])
    decreases |path|
  {
    var n := |path| - 1;
    if n > 0 {
      ReachesThrough(g, objects, root, id, path[..n]);
      ReachesChild(g, objects, root, path[n - 1], path[n]);
    }
  }

  lemma CompleteBelow(g: Git, objects: Objects, root: Id, id: Id)
    requires Complete(g, objects, root) && Reaches(g, objects, root, id)
    ensures Complete(g, objects, id)
  {
    forall t | Reaches(g, objects, id, t) ensures Reaches(g, objects, root, t) {
      var path :| Descent(g, objects, id, path) && path[|path| - 1] == t;
      ReachesThrough(g, objects, root, id, path);
    }
    forall b | ReachableLeaf(g, objects, id, b) ensures ReachableLeaf(g, objects, root, b) {
      var t :| Reaches(g, objects, id, t) && Leaf(g, objects, t, b);
      assert Reaches(g, objects, root, t);
    }
  }

  /** The tree can be read and its leaves exist. */
  ghost predicate Whole(g: Git, objects: Objects, t: Id) {
    Readable(g, objects, t) && forall b :: Leaf(g, objects, t, b) ==> HasObject(objects, b) == Ok(true)
  }

  lemma EnteredIsWhole(g: Git, objects: Objects, root: Id, h: Trail, t: Id)
    requires Honest(g, objects, root, h) && h.lost == {} && h.bad == {} && BothWaysSound(g, objects, root)
    requires t in h.trees && Done(g, objects, t, h.trees + h.blobs, h.sites)
    ensures Whole(g, objects, t)
  {
    assert TreeHealth(g, objects, t) == Present;
    forall b | Leaf(g, objects, t, b) ensures HasObject(objects, b) == Ok(true) {
      LeafVisited(g, objects, t, b, h.trees + h.blobs, h.sites);
      if b in h.trees {
        assert ReachableLeaf(g, objects, root, b);
        assert MetBothWays(g, objects, root, b);
      } else {
        assert BlobHealth(objects, b) == Present;
      }
    }
  }

  lemma BelowIsWhole(g: Git, objects: Objects, top: Id, t: Id)
    requires Complete(g, objects, top) && Reaches(g, objects, top, t)
    ensures Whole(g, objects, t)
  {
    forall b | Leaf(g, objects, t, b) ensures HasObject(objects, b) == Ok(true) {
      assert ReachableLeaf(g, objects, top, b);
    }
  }

  lemma PassedIsComplete(g: Git, objects: Objects, root: Id, h: Trail)
    requires Honest(g, objects, root, h) && h.lost == {} && h.bad == {} && BothWaysSound(g, objects, root)
    requires AllDone(g, objects, h.trees, h.trees + h.blobs, h.sites) && root in h.trees + h.blobs
    ensures Complete(g, objects, root)
  {
    forall t | Reaches(g, objects, root, t) ensures Whole(g, objects, t) {
      var path :| Descent(g, objects, root, path) && path[|path| - 1] == t;
      ReachableIsCovered(g, objects, root, h, path);
      if t in h.trees {
        EnteredIsWhole(g, objects, root, h, t);
      } else {
        var top :| MetBothWays(g, objects, root, top) && Reaches(g, objects, top, t);
        BelowIsWhole(g, objects, top, t);
      }
    }
    forall b | ReachableLeaf(g, objects, root, b) ensures HasObject(objects, b) == Ok(true) {
      var t :| Reaches(g, objects, root, t) && Leaf(g, objects, t, b);
      assert Whole(g, objects, t);
    }
  }

  lemma CompleteIsSound(g: Git, objects: Objects, root: Id)
    requires Complete(g, objects, root)
    ensures BothWaysSound(g, objects, root)
  {
    forall id | MetBothWays(g, objects, root, id) ensures Complete(g, objects, id) && HasObject(objects, id) == Ok(true) {
      CompleteBelow(g, objects, root, id);
    }
  }

  lemma PassedIsRightIff(g: Git, objects: Objects, root: Id, visited: set<Id>, r: CheckResult, h: Trail)
    requires Tallied(visited, r, h) && Honest(g, objects, root, h) && root in visited
    requires Progress(g, objects, {}, Trail({}, {}, {}, {}, {}), visited, h)
    ensures Complete(g, objects, root) <==> IsOk(r) && BothWaysSound(g, objects, root)
  {
    assert h.trees - {} == h.trees;
    EmptyReport(r.missing, h.lost);
    EmptyReport(r.corrupt, h.bad);
    if Complete(g, objects, root) {
      WalkSound(g, objects, root, r, h);
      CompleteIsSound(g, objects, root);
    } else if IsOk(r) && BothWaysSound(g, objects, root) {
      PassedIsComplete(g, objects, root, h);
    }
  }

  /**
   * Why the condition is needed: a tree that lists an existing id first as a file
   * and then as a subtree passes, whatever is missing below that subtree.
   */
  lemma ShadowedSubtreePasses(g: Git, objects: Objects, root: Id, x: Id, file: Entry, subtree: Entry)
    requires ReadTree(g, objects, root) == Ok(Some([file, subtree])) && root != x
    requires RefersToBlob(file) && file.id == x && subtree.kind.Tree? && subtree.id == x && HasObject(objects, x) == Ok(true)
    ensures IsOk(Checked(g, objects, root))
    ensures Complete(g, objects, root) ==> Complete(g, objects, x)
  {
    var universe, entries := Mentioned(g, objects) + {root}, [file, subtree];
    var w0 := Walk({root}, CheckResult(1, [], []));
    assert Walk({} + {root}, Note(CheckResult(0, [], []), root, Present)) == w0;
    var w1 := ProbeOf(objects, x, w0);
    assert WalkEntryOf(g, objects, universe, file, w0) == w1 && w1.result.missing == [] && w1.result.corrupt == [];
    assert WalkEntryOf(g, objects, universe, subtree, w1) == w1;
    EntriesStep(g, objects, universe, entries, 0, w0);
    EntriesStep(g, objects, universe, entries, 1, w1);
    assert entries[0..] == entries && entries[2..] == [];
    assert subtree in entries && Subtree(g, objects, root, x);
    ReachesRoot(g, objects, root);
    ReachesChild(g, objects, root, root, x);
    if Complete(g, objects, root) { CompleteBelow(g, objects, root, x); }
  }

  function TwentyOf(b: byte): Id {
    Id([b, b, b, b, b, b, b, b, b, b, b, b, b, b, b, b, b, b, b, b])
  }

  const SHADOW_FILE: Entry := Entry(Name([97]), EntryKind.File(false), TwentyOf(2))
  const SHADOW_TREE: Entry := Entry(Name([98]), EntryKind.Tree, TwentyOf(2))
  const LOST_FILE: Entry := Entry(Name([99]), EntryKind.File(false), TwentyOf(3))

  function ShadowParse(data: Bytes): Option<seq<Entry>> {
    if data == [1] then Some([SHADOW_FILE, SHADOW_TREE]) else if data == [2] then Some([LOST_FILE]) else None
  }

  lemma ShadowHides(g: Git, objects: Objects, root: Id, x: Id, file: Entry, subtree: Entry, lost: Entry)
    requires ReadTree(g, objects, root) == Ok(Some([file, subtree])) && root != x
    requires RefersToBlob(file) && file.id == x && subtree.kind.Tree? && subtree.id == x && HasObject(objects, x) == Ok(true)
    requires ReadTree(g, objects, x) == Ok(Some([lost])) && RefersToBlob(lost) && HasObject(objects, lost.id) == Ok(false)
    ensures IsOk(Checked(g, objects, root)) && !Complete(g, objects, root)
  {
    ShadowedSubtreePasses(g, objects, root, x, file, subtree);
    ReachesRoot(g, objects, x);
    assert lost in Entries(g, objects, x) && Leaf(g, objects, x, lost.id);
    assert ReachableLeaf(g, objects, x, lost.id);
  }

  lemma ShadowFacts(hash: Object -> Id)
    ensures var g := Git(hash, ShadowParse, Id([]));
            var objects := map[TwentyOf(1) := Object(TreeObject, [1]), TwentyOf(2) := Object(TreeObject, [2])];
            && TwentyOf(1) != TwentyOf(2) && HasObject(objects, TwentyOf(2)) == Ok(true) && HasObject(objects, TwentyOf(3)) == Ok(false)
            && ReadTree(g, objects, TwentyOf(1)) == Ok(Some([SHADOW_FILE, SHADOW_TREE]))
            && ReadTree(g, objects, TwentyOf(2)) == Ok(Some([LOST_FILE]))
  {
    assert TwentyOf(1).bytes[0] == 1 && TwentyOf(2).bytes[0] == 2 && TwentyOf(3).bytes[0] == 3;
  }

  /** A graph that passes although a file is missing. */
  lemma PassesThoughIncomplete(hash: Object -> Id)
    ensures var g := Git(hash, ShadowParse, Id([]));
            var objects := map[TwentyOf(1) := Object(TreeObject, [1]), TwentyOf(2) := Object(TreeObject, [2])];
            IsOk(Checked(g, objects, TwentyOf(1))) && !Complete(g, objects, TwentyOf(1))
  {
    var g := Git(hash, ShadowParse, Id([]));
    var objects := map[TwentyOf(1) := Object(TreeObject, [1]), TwentyOf(2) := Object(TreeObject, [2])];
    ShadowFacts(hash);
    ShadowHides(g, objects, TwentyOf(1), TwentyOf(2), SHADOW_FILE, SHADOW_TREE, LOST_FILE);
  }

  /** A report names some of the given ids, none twice. */
  ghost predicate ReportsSome(found: seq<Id>, ids: set<Id>) {
    exists some :: some <= ids && Reports(found, some)
  }

  lemma WalkSound(g: Git, objects: Objects, root: Id, r: CheckResult, h: Trail)
    requires Reports(r.missing, h.lost) && Reports(r.corrupt, h.bad) && Honest(g, objects, root, h)
    ensures ReportsSome(r.missing, Unhealthy(g, objects, root, Missing))
    ensures ReportsSome(r.corrupt, Unhealthy(g, objects, root, Corrupt))
    ensures Complete(g, objects, root) ==> IsOk(r)
  {
    forall id | id in h.lost + h.bad
      ensures id in h.lost ==> id in Unhealthy(g, objects, root, Missing)
      ensures id in h.bad ==> id in Unhealthy(g, objects, root, Corrupt)
    {
      TrailedIsReachable(g, objects, root, h, id);
    }
    OkIffComplete(g, objects, root);
    EmptyReport(r.missing, h.lost);
    EmptyReport(r.corrupt, h.bad);
  }

  lemma TrailedIsReachable(g: Git, objects: Objects, root: Id, h: Trail, id: Id)
    requires Reachable(g, objects, root, h.trees, h.blobs)
    ensures id in h.trees ==> id in ReachableTrees(g, objects, root)
    ensures id in h.blobs ==> id in ReachableBlobs(g, objects, root)
  {
    if id in h.trees { ReachableIsFinite(g, objects, root, id); }
    if id in h.blobs {
      var t :| Reaches(g, objects, root, t) && Leaf(g, objects, t, id);
      LeafMentioned(g, objects, t, id);
    }
  }

  lemma Finished(g: Git, objects: Objects, root: Id, visited: set<Id>, r: CheckResult, h: Trail)
    requires Tallied(visited, r, h) && Honest(g, objects, root, h) && root in visited
    requires Progress(g, objects, {}, Trail({}, {}, {}, {}, {}), visited, h) && Separated(g, objects, root)
    ensures Reports(r.missing, Unhealthy(g, objects, root, Missing))
    ensures Reports(r.corrupt, Unhealthy(g, objects, root, Corrupt))
    ensures IsOk(r) <==> Complete(g, objects, root)
    ensures r.objectsVisited == |ReachableTrees(g, objects, root)| + |ReachableBlobs(g, objects, root)|
                                + |SubmoduleSites(g, objects, ReachableTrees(g, objects, root))|
  {
    assert h.trees - {} == h.trees;
    FinishedCovers(g, objects, root, visited, h);
    FinishedSites(g, objects, h.trees, visited, h.sites);
    FinishedReports(g, objects, root, h);
    OkIffComplete(g, objects, root);
    EmptyReport(r.missing, h.lost);
    EmptyReport(r.corrupt, h.bad);
  }

  lemma EmptyReport(found: seq<Id>, ids: set<Id>)
    requires Reports(found, ids)
    ensures found == [] <==> ids == {}
  {
    if found != [] { assert found[0] in ids; }
  }
}
