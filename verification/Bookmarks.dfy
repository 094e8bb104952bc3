/** Bookmark sync with plain git: export to the branch refs, detect outside edits, import them. */
module Bookmarks {
  import opened Common

  type Name = string
  type Refs = map<Name, Bytes>

  /** `GitBookmarkChange`: an empty commit id means the ref was deleted. */
  datatype Change = Change(name: Name, commitId: Bytes)

  /** A jj bookmark's local target; names without one are not in the view map. */
  datatype Target = Normal(commitId: Bytes) | Conflicted

  type View = map<Name, Target>

  /** `bookmarks_from_view_bytes`: only resolved targets are exported. */
  function Exportable(view: View): Refs {
    map n | n in view && view[n].Normal? :: view[n].commitId
  }

  /** A list of pairs read as a map; a repeated name takes its last value. */
  function MapOf(list: seq<(Name, Bytes)>): Refs {
    if list == [] then map[] else MapOf(list[..|list| - 1])[list[|list| - 1].0 := list[|list| - 1].1]
  }

  ghost predicate RealIds(refs: Refs) {
    forall n :: n in refs ==> refs[n] != []
  }

  function At(refs: Refs, n: Name): Option<Bytes> {
    if n in refs then Some(refs[n]) else None
  }

  // ---- Detection ------------------------------------------------------------

  /** What a change says the ref has become. */
  function Says(c: Change): Option<Bytes> {
    if c.commitId == [] then None else Some(c.commitId)
  }

  /** One change for each name on which the two maps differ, with the new value. */
  ghost predicate Difference(changes: seq<Change>, before: Refs, after: Refs) {
    && DistinctNames(changes)
    && (forall c :: c in changes ==> At(before, c.name) != At(after, c.name) && Says(c) == At(after, c.name))
    && (forall n :: At(before, n) != At(after, n) ==> exists c :: c in changes && c.name == n)
  }

  /** The names whose ref was added or moved. */
  function Moved(before: Refs, after: Refs): set<Name> {
    set n | n in after && !(n in before && before[n] == after[n])
  }

  ghost predicate Collected(changes: seq<Change>, after: Refs, names: set<Name>) {
    && DistinctNames(changes)
    && (forall c :: c in changes ==> c.name in names && Says(c) == At(after, c.name))
    && (forall n :: n in names ==> exists c :: c in changes && c.name == n)
  }

  lemma CollectedOneMore(changes: seq<Change>, after: Refs, names: set<Name>, c: Change)
    requires Collected(changes, after, names) && c.name !in names && Says(c) == At(after, c.name)
    ensures Collected(changes + [c], after, names + {c.name})
  {
    var more := changes + [c];
    forall n | n in names + {c.name} ensures exists d :: d in more && d.name == n {
      if n in names {
        var d :| d in changes && d.name == n;
        assert d in more;
      } else {
        assert c in more;
      }
    }
    forall i | 0 <= i < |changes| ensures more[i].name != c.name {
      assert changes[i] in changes;
    }
  }

  /** The refs detection works with: a listing that fails reads as no refs at all. */
  function Listed(listing: Option<Refs>): Refs {
    if listing.Some? then listing.value else map[]
  }

  /**
   * `git_detect_head_change`, bookmark part: two passes over hash maps, in any
   * order. Nothing was exported yet: nothing is reported.
   */
  method Detect(exported: Option<Refs>, listing: Option<Refs>) returns (changes: seq<Change>)
    requires RealIds(Listed(listing))
    ensures exported.None? ==> changes == []
    ensures exported.Some? ==> Difference(changes, exported.value, Listed(listing))
  {
    changes := [];
    if exported.None? { return; }
    var before, current := exported.value, Listed(listing);
    changes := Additions(before, current);
    changes := Deletions(before, current, changes, Moved(before, current));
    CollectedIsDifference(changes, before, current, Moved(before, current) + (before.Keys - current.Keys));
  }

  method Additions(before: Refs, current: Refs) returns (changes: seq<Change>)
    requires RealIds(current)
    ensures Collected(changes, current, Moved(before, current))
  {
    changes := [];
    var todo := current.Keys;
    ghost var seen: set<Name> := {};
    assert Moved(before, current) - todo == {};
    while todo != {}
      invariant todo <= current.Keys && seen == Moved(before, current) - todo
      invariant Collected(changes, current, seen)
      decreases |todo|
    {
      var n :| n in todo;
      MovedStep(before, current, todo, n);
      if !(n in before && before[n] == current[n]) {
        CollectedOneMore(changes, current, seen, Change(n, current[n]));
        changes := changes + [Change(n, current[n])];
        seen := seen + {n};
      }
      todo := todo - {n};
    }
    assert Moved(before, current) - {} == Moved(before, current);
  }

  lemma MovedStep(before: Refs, current: Refs, todo: set<Name>, n: Name)
    requires n in todo && todo <= current.Keys
    ensures var moved, seen := Moved(before, current), Moved(before, current) - todo;
            && n !in seen
            && moved - (todo - {n}) == if n in before && before[n] == current[n] then seen else seen + {n}
  {
  }

  method Deletions(before: Refs, current: Refs, found: seq<Change>, ghost moved: set<Name>) returns (changes: seq<Change>)
    requires Collected(found, current, moved) && moved <= current.Keys
    ensures Collected(changes, current, moved + (before.Keys - current.Keys))
  {
    changes := found;
    var todo := before.Keys;
    ghost var seen := moved;
    NothingLeft(moved, before.Keys, current.Keys);
    while todo != {}
      invariant todo <= before.Keys && seen == Seen(moved, before.Keys, current.Keys, todo)
      invariant Collected(changes, current, seen)
      decreases |todo|
    {
      var n :| n in todo;
      GoneStep(moved, before.Keys, current.Keys, todo, n);
      if n !in current.Keys {
        CollectedOneMore(changes, current, seen, Change(n, []));
        changes := changes + [Change(n, [])];
        seen := seen + {n};
      }
      todo := todo - {n};
    }
  }

  /** The names reported once only `todo` is left to look at. */
  ghost function Seen(moved: set<Name>, before: set<Name>, current: set<Name>, todo: set<Name>): set<Name> {
    moved + (before - current - todo)
  }

  lemma NothingLeft(moved: set<Name>, before: set<Name>, current: set<Name>)
    ensures Seen(moved, before, current, before) == moved
    ensures Seen(moved, before, current, {}) == moved + (before - current)
  {
  }

  lemma GoneStep(moved: set<Name>, before: set<Name>, current: set<Name>, todo: set<Name>, n: Name)
    requires n in todo && todo <= before && moved <= current
    ensures n !in current ==> n !in Seen(moved, before, current, todo)
    ensures Seen(moved, before, current, todo - {n}) ==
            Seen(moved, before, current, todo) + if n in current then {} else {n}
  {
  }

  lemma CollectedIsDifference(changes: seq<Change>, before: Refs, after: Refs, names: set<Name>)
    requires Collected(changes, after, names) && names == Moved(before, after) + (before.Keys - after.Keys)
    ensures Difference(changes, before, after)
  {
    forall n | At(before, n) != At(after, n) ensures exists c :: c in changes && c.name == n {
      assert n in names;
    }
  }

  // ---- Import: patching -----------------------------------------------------

  function PatchOne(refs: Refs, c: Change): Refs {
    if c.commitId == [] then refs - {c.name} else refs[c.name := c.commitId]
  }

  function Patch(refs: Refs, changes: seq<Change>): Refs {
    if changes == [] then refs else PatchOne(Patch(refs, changes[..|changes| - 1]), changes[|changes| - 1])
  }

  ghost predicate DistinctNames(changes: seq<Change>) {
    forall i, j :: 0 <= i < j < |changes| ==> changes[i].name != changes[j].name
  }

  lemma {:induction false} PatchSkips(refs: Refs, changes: seq<Change>, n: Name)
    requires forall c :: c in changes ==> c.name != n
    ensures At(Patch(refs, changes), n) == At(refs, n)
    decreases |changes|
  {
    if changes != [] {
      var k := |changes| - 1;
      assert changes[k] in changes;
      forall c | c in changes[..k] ensures c.name != n { assert c in changes; }
      PatchSkips(refs, changes[..k], n);
    }
  }

  lemma {:induction false} PatchHits(refs: Refs, changes: seq<Change>, i: nat)
    requires DistinctNames(changes) && i < |changes|
    ensures At(Patch(refs, changes), changes[i].name) == Says(changes[i])
    decreases |changes|
  {
    var k := |changes| - 1;
    if i < k {
      assert changes[i].name != changes[k].name;
      PatchHits(refs, changes[..k], i);
    }
  }

  lemma SameAtEqual(a: Refs, b: Refs)
    requires forall n :: At(a, n) == At(b, n)
    ensures a == b
  {
    forall n ensures n in a <==> n in b { assert At(a, n) == At(b, n); }
    forall n | n in a ensures a[n] == b[n] { assert At(a, n) == At(b, n); }
  }

  /** The changes turn the exported map into the current refs. */
  lemma PatchGivesCurrent(changes: seq<Change>, before: Refs, after: Refs)
    requires Difference(changes, before, after)
    ensures Patch(before, changes) == after
  {
    forall n ensures At(Patch(before, changes), n) == At(after, n) {
      if At(before, n) != At(after, n) {
        var c :| c in changes && c.name == n;
        var i: nat :| i < |changes| && changes[i] == c;
        PatchHits(before, changes, i);
      } else {
        PatchSkips(before, changes, n);
      }
    }
    SameAtEqual(Patch(before, changes), after);
  }

  /** ... in whatever order they arrive. */
  lemma PatchInAnyOrder(changes: seq<Change>, order: seq<Change>, before: Refs, after: Refs)
    requires Difference(changes, before, after) && multiset(order) == multiset(changes)
    ensures Difference(order, before, after) && Patch(before, order) == after
  {
    forall c ensures c in order <==> c in changes {
      assert c in order <==> c in multiset(order);
      assert c in changes <==> c in multiset(changes);
    }
    forall i, j | 0 <= i < j < |order| ensures order[i].name != order[j].name {
      OccursOnce(changes, order[i]);
      if order[i] == order[j] {
        TwiceCounts(order, i, j);
      } else {
        var a :| 0 <= a < |changes| && changes[a] == order[i];
        var b :| 0 <= b < |changes| && changes[b] == order[j];
      }
    }
    PatchGivesCurrent(order, before, after);
  }

  lemma {:induction false} OccursOnce(changes: seq<Change>, c: Change)
    requires DistinctNames(changes)
    ensures multiset(changes)[c] <= 1
    decreases |changes|
  {
    if changes != [] {
      var k := |changes| - 1;
      assert changes == changes[..k] + [changes[k]];
      OccursOnce(changes[..k], c);
      if changes[k] == c { assert c !in changes[..k]; }
    }
  }

  lemma TwiceCounts(order: seq<Change>, i: nat, j: nat)
    requires i < j < |order| && order[i] == order[j]
    ensures multiset(order)[order[i]] >= 2
  {
    assert order == order[..j] + order[j..];
    assert order[i] in order[..j] && order[j] in order[j..];
  }

  /** Nothing is reported exactly when nothing differs. */
  lemma NoChangeIffEqual(changes: seq<Change>, before: Refs, after: Refs)
    requires Difference(changes, before, after)
    ensures changes == [] <==> before == after
  {
    if changes == [] {
      PatchGivesCurrent(changes, before, after);
    } else {
      assert changes[0] in changes;
    }
  }

  // ---- Import into the jj view ----------------------------------------------

  function ImportOne(view: View, c: Change): View {
    if c.commitId == [] then view - {c.name} else view[c.name := Normal(c.commitId)]
  }

  function Imported(view: View, changes: seq<Change>): View {
    if changes == [] then view else ImportOne(Imported(view, changes[..|changes| - 1]), changes[|changes| - 1])
  }

  /** Importing patches the exported part of the view. */
  lemma {:induction false} ImportIsPatch(view: View, changes: seq<Change>)
    ensures Exportable(Imported(view, changes)) == Patch(Exportable(view), changes)
    decreases |changes|
  {
    if changes != [] {
      var k := |changes| - 1;
      ImportIsPatch(view, changes[..k]);
      ImportOneIsPatch(Imported(view, changes[..k]), changes[k]);
    }
  }

  lemma ImportOneIsPatch(view: View, c: Change)
    ensures Exportable(ImportOne(view, c)) == PatchOne(Exportable(view), c)
  {
  }

  /** Every commit the changes name can be read. */
  ghost predicate CommitsReadable(changes: seq<Change>, odb: set<Bytes>) {
    forall c :: c in changes && c.commitId != [] ==> c.commitId in odb
  }

  /** `apply_git_imports`, bookmark loop: an unreadable commit abandons the whole transaction. */
  method ApplyImports(view: View, changes: seq<Change>, odb: set<Bytes>) returns (r: Option<View>)
    ensures r.Some? <==> CommitsReadable(changes, odb)
    ensures r.Some? ==> r.value == Imported(view, changes)
  {
    var out := view;
    for i := 0 to |changes|
      invariant out == Imported(view, changes[..i])
      invariant CommitsReadable(changes[..i], odb)
    {
      var c := changes[i];
      assert changes[..i + 1] == changes[..i] + [c] && changes[..i + 1][..i] == changes[..i];
      if c.commitId != [] && c.commitId !in odb {
        assert c in changes;
        return None;
      }
      out := ImportOne(out, c);
    }
    assert changes[..|changes|] == changes;
    return Some(out);
  }

  // ---- Export ---------------------------------------------------------------

  type Bookmark = (Name, Bytes)

  function NamesOf(list: seq<Bookmark>): set<Name> {
    set b | b in list :: b.0
  }

  /** A ref git lets be set: the commit exists, and the write does not fail. */
  predicate Settable(b: Bookmark, odb: set<Bytes>, blocked: set<Name>) {
    b.1 in odb && b.0 !in blocked
  }

  /** How many bookmarks an export sets before the first it cannot. */
  function Exported(list: seq<Bookmark>, odb: set<Bytes>, blocked: set<Name>): (n: nat)
    ensures n <= |list|
  {
    if list == [] || !Settable(list[0], odb, blocked) then 0 else 1 + Exported(list[1..], odb, blocked)
  }

  /**
   * An export gets through all bookmarks iff the repo opens and every commit is
   * there and every ref can be written; it stops at the first for which that fails.
   */
  ghost predicate GotAsFarAs(list: seq<Bookmark>, odb: set<Bytes>, blocked: set<Name>, opens: bool, done: nat) {
    && done <= |list|
    && (forall b :: b in list[..done] ==> b.1 in odb && b.0 !in blocked)
    && (!opens ==> done == 0)
    && (opens && done < |list| ==> list[done].1 !in odb || list[done].0 in blocked)
  }

  lemma {:induction false} ExportedStops(list: seq<Bookmark>, odb: set<Bytes>, blocked: set<Name>, k: nat)
    requires k <= |list| && forall i :: 0 <= i < k ==> Settable(list[i], odb, blocked)
    requires k < |list| ==> !Settable(list[k], odb, blocked)
    ensures Exported(list, odb, blocked) == k
    decreases |list|
  {
    if k > 0 { ExportedStops(list[1..], odb, blocked, k - 1); }
  }

  function Kept(refs: Refs, names: set<Name>): Refs {
    map n | n in refs && n in names :: refs[n]
  }

  /** How the git commands of one export fare. */
  datatype Luck = Luck(opens: bool, lists: bool, starts: nat -> bool)

  /** Whether a clean-up gets rid of all stale refs. */
  ghost predicate CleansUp(luck: Luck, stale: set<Name>, stuck: set<Name>) {
    stale == {} || (luck.lists && stale !! stuck && forall i :: 0 <= i < |stale| ==> luck.starts(i))
  }

  /** Without a listing nothing is cleaned; if every process starts, exactly the refs that cannot be deleted stay. */
  ghost predicate LeavesOnly(luck: Luck, stale: set<Name>, stuck: set<Name>, left: set<Name>) {
    && (!luck.lists ==> left == stale)
    && (luck.lists && (forall i :: 0 <= i < |stale| ==> luck.starts(i)) ==> left == stale * stuck)
  }

  /** Halfway through a clean-up: the names still to visit, and the git processes started so far. */
  ghost predicate Cleaning(before: Refs, now: Refs, active: set<Name>, stuck: set<Name>, todo: set<Name>, luck: Luck, runs: nat) {
    && todo <= before.Keys && runs == |before.Keys - active - todo|
    && now == Kept(before, todo + active + stuck)
    && forall i :: 0 <= i < runs ==> luck.starts(i)
  }

  /** The shared git repo, and what this workspace last exported to it. */
  class GitRepo {
    var refs: Refs
    var exported: Option<Refs>
    const odb: set<Bytes>
    /** Refs that cannot be written, and refs that `git update-ref -d` fails to delete. */
    const blocked: set<Name>
    const stuck: set<Name>

    constructor (refs: Refs, odb: set<Bytes>, blocked: set<Name>, stuck: set<Name>)
      ensures this.refs == refs && exported == None
      ensures this.odb == odb && this.blocked == blocked && this.stuck == stuck
    {
      this.refs := refs;
      exported := None;
      this.odb := odb;
      this.blocked := blocked;
      this.stuck := stuck;
    }

    /** `export_bookmarks`: set the refs one by one; the first that cannot be set stops the loop. */
    method ExportBookmarks(list: seq<Bookmark>, opens: bool) returns (done: nat)
      modifies this`refs
      ensures done == if opens then Exported(list, odb, blocked) else 0
      ensures GotAsFarAs(list, odb, blocked, opens, done)
      ensures refs == old(refs) + MapOf(list[..done])
    {
      done := 0;
      if !opens { return; }
      while done < |list| && Settable(list[done], odb, blocked)
        invariant done <= |list| && forall i :: 0 <= i < done ==> Settable(list[i], odb, blocked)
        invariant refs == old(refs) + MapOf(list[..done])
      {
        OneMoreRef(old(refs), list, done);
        refs := refs[list[done].0 := list[done].1];
        done := done + 1;
      }
      ExportedStops(list, odb, blocked, done);
      assert forall b :: b in list[..done] ==> exists i :: 0 <= i < done && list[i] == b;
    }

    /** With no bookmarks the repo is not even opened. */
    method ExportAny(list: seq<Bookmark>, opens: bool) returns (done: nat)
      modifies this`refs
      ensures done == if opens then Exported(list, odb, blocked) else 0
      ensures GotAsFarAs(list, odb, blocked, opens, done)
      ensures refs == old(refs) + MapOf(list[..done])
    {
      if list == [] {
        assert refs + MapOf([]) == refs;
        return 0;
      }
      done := ExportBookmarks(list, opens);
    }

    /**
     * `cleanup_stale_refs`: one git process per stale ref; a listing that fails or
     * a process that does not start abandons the rest. Returns what is left over.
     */
    method CleanupStaleRefs(active: set<Name>, luck: Luck) returns (left: set<Name>)
      modifies this`refs
      ensures left <= old(refs).Keys - active && refs == Kept(old(refs), active + left)
      ensures left == {} <==> CleansUp(luck, old(refs).Keys - active, stuck)
      ensures LeavesOnly(luck, old(refs).Keys - active, stuck, left)
    {
      if !luck.lists {
        left := refs.Keys - active;
        NothingCleaned(refs, active);
        return;
      }
      var todo, runs := refs.Keys, 0;
      AllToDo(refs, active, stuck, luck);
      while todo != {}
        invariant Cleaning(old(refs), refs, active, stuck, todo, luck, runs)
        decreases |todo|
      {
        var n :| n in todo;
        OneCleaned(old(refs), refs, active, stuck, todo, luck, runs, n);
        if n !in active {
          if !luck.starts(runs) { break; }
          runs := runs + 1;
          if n !in stuck { refs := refs - {n}; }
        }
        todo := todo - {n};
      }
      left := refs.Keys - active;
      CleaningEnds(old(refs), refs, active, stuck, todo, luck, runs);
    }

    /** The export part of `write_view`; what is remembered does not depend on how it went. */
    method WriteView(list: seq<Bookmark>, luck: Luck) returns (done: nat, left: set<Name>)
      modifies this
      ensures exported == Some(MapOf(list))
      ensures done == if luck.opens then Exported(list, odb, blocked) else 0
      ensures GotAsFarAs(list, odb, blocked, luck.opens, done)
      ensures left <= old(refs).Keys - NamesOf(list)
      ensures left == {} <==> CleansUp(luck, old(refs).Keys - NamesOf(list), stuck)
      ensures LeavesOnly(luck, old(refs).Keys - NamesOf(list), stuck, left)
      ensures refs == Kept(old(refs) + MapOf(list[..done]), NamesOf(list) + left)
    {
      done := ExportAny(list, luck.opens);
      StaleUnmoved(old(refs), list, done);
      left := CleanupStaleRefs(NamesOf(list), luck);
      exported := Some(MapOf(list));
    }
  }

  lemma OneFewer(stale: set<Name>, todo: set<Name>, n: Name)
    requires n in todo
    ensures n in stale ==> |stale - (todo - {n})| == |stale - todo| + 1 && |stale - todo| < |stale|
    ensures n !in stale ==> stale - (todo - {n}) == stale - todo
  {
    if n in stale {
      assert stale - (todo - {n}) == (stale - todo) + {n};
      assert stale == (stale - todo) + (stale * todo) && n in stale * todo;
    }
  }

  lemma NothingCleaned(refs: Refs, active: set<Name>)
    ensures refs == Kept(refs, active + (refs.Keys - active))
  {
  }

  lemma AllToDo(refs: Refs, active: set<Name>, stuck: set<Name>, luck: Luck)
    ensures Cleaning(refs, refs, active, stuck, refs.Keys, luck, 0)
  {
    assert refs.Keys - active - refs.Keys == {};
  }

  lemma OneCleaned(before: Refs, now: Refs, active: set<Name>, stuck: set<Name>, todo: set<Name>, luck: Luck, runs: nat, n: Name)
    requires Cleaning(before, now, active, stuck, todo, luck, runs) && n in todo
    ensures n in active ==> Cleaning(before, now, active, stuck, todo - {n}, luck, runs)
    ensures n !in active && luck.starts(runs) ==>
              Cleaning(before, if n in stuck then now else now - {n}, active, stuck, todo - {n}, luck, runs + 1)
    ensures n !in active ==> runs < |before.Keys - active|
  {
    OneFewer(before.Keys - active, todo, n);
    if n in active || n in stuck { assert todo - {n} + active + stuck == todo + active + stuck; }
  }

  lemma KeptLeft(before: Refs, todo: set<Name>, active: set<Name>, stuck: set<Name>)
    ensures var after := Kept(before, todo + active + stuck);
            && after.Keys - active == (before.Keys - active) * (todo + stuck)
            && after == Kept(before, active + (after.Keys - active))
  {
  }

  /** Why a clean-up ended tells what it left. */
  lemma Leftover(stale: set<Name>, stuck: set<Name>, todo: set<Name>, luck: Luck, runs: nat)
    requires luck.lists && runs == |stale - todo| && forall i :: 0 <= i < runs ==> luck.starts(i)
    requires todo != {} ==> !luck.starts(runs) && runs < |stale| && exists n :: n in todo && n in stale
    ensures stale * (todo + stuck) == {} <==> CleansUp(luck, stale, stuck)
  {
    if todo == {} {
      assert stale - {} == stale && stale * ({} + stuck) == stale * stuck;
    } else {
      var n :| n in todo && n in stale;
      assert n in stale * (todo + stuck);
    }
  }

  lemma CleaningEnds(before: Refs, now: Refs, active: set<Name>, stuck: set<Name>, todo: set<Name>, luck: Luck, runs: nat)
    requires luck.lists && Cleaning(before, now, active, stuck, todo, luck, runs)
    requires todo != {} ==> !luck.starts(runs) && runs < |before.Keys - active| && exists n :: n in todo && n !in active
    ensures var left := now.Keys - active;
            && left <= before.Keys - active && now == Kept(before, active + left)
            && (left == {} <==> CleansUp(luck, before.Keys - active, stuck))
            && LeavesOnly(luck, before.Keys - active, stuck, left)
  {
    var stale := before.Keys - active;
    if todo != {} {
      var n :| n in todo && n !in active;
      assert n in stale;
    }
    KeptLeft(before, todo, active, stuck);
    Leftover(stale, stuck, todo, luck, runs);
  }

  lemma OneMoreRef(before: Refs, list: seq<Bookmark>, k: nat)
    requires k < |list|
    ensures before + MapOf(list[..k + 1]) == (before + MapOf(list[..k]))[list[k].0 := list[k].1]
  {
    assert list[..k + 1][..k] == list[..k];
  }

  lemma {:induction false} MapNames(list: seq<Bookmark>)
    ensures MapOf(list).Keys == NamesOf(list)
    ensures forall n :: n in MapOf(list) ==> (n, MapOf(list)[n]) in list
    decreases |list|
  {
    if list != [] {
      var k := |list| - 1;
      MapNames(list[..k]);
      assert list == list[..k] + [list[k]];
    }
  }

  /** The export touches no stale ref. */
  lemma StaleUnmoved(before: Refs, list: seq<Bookmark>, done: nat)
    requires done <= |list|
    ensures (before + MapOf(list[..done])).Keys - NamesOf(list) == before.Keys - NamesOf(list)
  {
    MapNames(list[..done]);
    assert forall b :: b in list[..done] ==> b in list;
  }

  lemma {:induction false} MapOfSplit(a: seq<Bookmark>, b: seq<Bookmark>)
    ensures MapOf(a + b) == MapOf(a) + MapOf(b)
    decreases |b|
  {
    if b == [] {
      assert a + b == a;
    } else {
      var k := |b| - 1;
      assert (a + b)[..|a + b| - 1] == a + b[..k];
      MapOfSplit(a, b[..k]);
    }
  }

  lemma StillReal(before: Refs, list: seq<Bookmark>, done: nat, names: set<Name>)
    requires done <= |list| && RealIds(before) && forall b :: b in list ==> b.1 != []
    ensures RealIds(Kept(before + MapOf(list[..done]), names))
  {
    MapNames(list[..done]);
    assert forall b :: b in list[..done] ==> b in list;
  }

  /** The list holds exactly the refs that are no longer to do. */
  ghost predicate Lists(list: seq<Bookmark>, refs: Refs, todo: set<Name>) {
    && MapOf(list) == (map n | n in refs && n !in todo :: refs[n])
    && forall b :: b in list ==> b.0 in refs && refs[b.0] == b.1
  }

  lemma ListsOneMore(list: seq<Bookmark>, refs: Refs, todo: set<Name>, n: Name)
    requires Lists(list, refs, todo) && n in todo && n in refs
    ensures Lists(list + [(n, refs[n])], refs, todo - {n})
  {
    var more := list + [(n, refs[n])];
    assert more[..|more| - 1] == list;
    assert MapOf(more) == MapOf(list)[n := refs[n]];
  }

  /** Some list form of the bookmarks of a view. */
  method ListBookmarks(refs: Refs) returns (list: seq<Bookmark>)
    ensures MapOf(list) == refs && forall b :: b in list ==> b.0 in refs && refs[b.0] == b.1
  {
    list := [];
    var todo := refs.Keys;
    while todo != {}
      invariant todo <= refs.Keys && Lists(list, refs, todo)
      decreases |todo|
    {
      var n :| n in todo;
      ListsOneMore(list, refs, todo, n);
      list := list + [(n, refs[n])];
      todo := todo - {n};
    }
  }

  // ---- When an export is followed by silence ---------------------------------

  /** Every bookmark the export did not get to already had its value. */
  ghost predicate CaughtUp(before: Refs, list: seq<Bookmark>, done: nat)
    requires done <= |list|
  {
    forall n :: n in NamesOf(list[done..]) ==> At(before + MapOf(list[..done]), n) == At(MapOf(list), n)
  }

  lemma ExportExactIff(before: Refs, list: seq<Bookmark>, done: nat, left: set<Name>)
    requires done <= |list| && left <= before.Keys - NamesOf(list)
    ensures Kept(before + MapOf(list[..done]), NamesOf(list) + left) == MapOf(list) <==> CaughtUp(before, list, done) && left == {}
  {
    var first, rest := list[..done], list[done..];
    var after := Kept(before + MapOf(first), NamesOf(list) + left);
    assert list == first + rest;
    MapOfSplit(first, rest);
    MapNames(list);
    MapNames(first);
    MapNames(rest);
    if CaughtUp(before, list, done) && left == {} {
      forall n ensures At(after, n) == At(MapOf(list), n) {
        if n in NamesOf(list) && n !in NamesOf(rest) { assert n in MapOf(first); }
      }
      SameAtEqual(after, MapOf(list));
    }
    if after == MapOf(list) {
      forall n | n in NamesOf(rest) ensures At(before + MapOf(first), n) == At(MapOf(list), n) {
        assert n in MapOf(list);
      }
      assert left <= after.Keys;
    }
  }

  /**
   * After any export of any bookmarks, detection is silent iff everything the
   * export did not get to was there already and no stale ref is left. In
   * particular an export in which nothing fails is always followed by silence.
   */
  method ExportThenDetect(git: GitRepo, list: seq<Bookmark>, luck: Luck) returns (done: nat, left: set<Name>, changes: seq<Change>)
    requires RealIds(git.refs) && forall b :: b in list ==> b.1 != []
    modifies git
    ensures done == if luck.opens then Exported(list, git.odb, git.blocked) else 0
    ensures GotAsFarAs(list, git.odb, git.blocked, luck.opens, done)
    ensures git.exported == Some(MapOf(list)) && RealIds(git.refs)
    ensures git.refs == Kept(old(git.refs) + MapOf(list[..done]), NamesOf(list) + left)
    ensures left <= old(git.refs).Keys - NamesOf(list)
    ensures left == {} <==> CleansUp(luck, old(git.refs).Keys - NamesOf(list), git.stuck)
    ensures Difference(changes, MapOf(list), git.refs)
    ensures changes == [] <==>
              CaughtUp(old(git.refs), list, done) && CleansUp(luck, old(git.refs).Keys - NamesOf(list), git.stuck)
    ensures done == |list| && CleansUp(luck, old(git.refs).Keys - NamesOf(list), git.stuck) ==> changes == []
  {
    ghost var before := git.refs;
    done, left := git.WriteView(list, luck);
    StillReal(before, list, done, NamesOf(list) + left);
    changes := Detect(git.exported, Some(git.refs));
    NoChangeIffEqual(changes, MapOf(list), git.refs);
    ExportExactIff(before, list, done, left);
  }

  // ---- The fixpoint ---------------------------------------------------------

  /** After detecting and importing, what would be exported is what git already has. */
  lemma ImportCatchesUp(view: View, refs: Refs, changes: seq<Change>)
    requires Difference(changes, Exportable(view), refs)
    ensures Exportable(Imported(view, changes)) == refs
  {
    ImportIsPatch(view, changes);
    PatchGivesCurrent(changes, Exportable(view), refs);
  }

  lemma {:induction false} ImportSkips(view: View, changes: seq<Change>, n: Name)
    requires forall c :: c in changes ==> c.name != n
    ensures (n in Imported(view, changes) <==> n in view) && (n in view ==> Imported(view, changes)[n] == view[n])
    decreases |changes|
  {
    if changes != [] {
      var k := |changes| - 1;
      assert changes[k] in changes && forall c :: c in changes[..k] ==> c in changes;
      ImportSkips(view, changes[..k], n);
    }
  }

  /** A conflicted bookmark is not exported, so a ref that is missing in git says nothing about it. */
  lemma ConflictKept(view: View, refs: Refs, changes: seq<Change>, n: Name)
    requires Difference(changes, Exportable(view), refs) && n in view && view[n].Conflicted? && n !in refs
    ensures n in Imported(view, changes) && Imported(view, changes)[n].Conflicted?
  {
    forall c | c in changes ensures c.name != n {
      assert At(Exportable(view), c.name) != At(refs, c.name);
    }
    ImportSkips(view, changes, n);
  }

  /**
   * Detect, import, export and clean up in one workspace, then detect again.
   * With every commit readable nothing more is reported, however the export
   * fares; the outside edits have all reached the view, and no ref was moved back.
   */
  method SyncRound(git: GitRepo, view: View, luck: Luck) returns (view': View, again: seq<Change>)
    requires RealIds(git.refs) && git.exported == Some(Exportable(view))
    modifies git
    ensures (forall n :: n in old(git.refs) ==> old(git.refs)[n] in git.odb) ==>
              && again == [] && git.refs == old(git.refs)
              && Exportable(view') == git.refs && git.exported == Some(Exportable(view'))
    ensures forall n :: n in view && view[n].Conflicted? && n !in old(git.refs) ==> n in view' && view'[n].Conflicted?
  {
    var changes := Detect(git.exported, Some(git.refs));
    ChangesReadable(changes, Exportable(view), git.refs, git.odb);
    var imported := ApplyImports(view, changes, git.odb);
    if imported.None? {
      view', again := view, changes;
      return;
    }
    view' := imported.value;
    ghost var before := git.refs;
    ImportCatchesUp(view, before, changes);
    forall n | n in view && view[n].Conflicted? && n !in before ensures n in view' && view'[n].Conflicted? {
      ConflictKept(view, before, changes, n);
    }
    var list := ListBookmarks(Exportable(view'));
    var done, left;
    done, left, again := ExportThenDetect(git, list, luck);
    NothingToExport(before, list, done);
    NoChangeIffEqual(again, before, git.refs);
  }

  lemma NothingToExport(before: Refs, list: seq<Bookmark>, done: nat)
    requires done <= |list| && before == MapOf(list) && forall b :: b in list ==> b.0 in before && before[b.0] == b.1
    ensures CaughtUp(before, list, done) && before.Keys - NamesOf(list) == {}
  {
    MapNames(list);
    MapNames(list[..done]);
    assert forall b :: b in list[..done] ==> b in list;
    assert before + MapOf(list[..done]) == before;
  }

  lemma ChangesReadable(changes: seq<Change>, before: Refs, after: Refs, odb: set<Bytes>)
    requires Difference(changes, before, after)
    ensures (forall n :: n in after ==> after[n] in odb) ==> CommitsReadable(changes, odb)
  {
    forall c | c in changes && c.commitId != [] ensures c.name in after && after[c.name] == c.commitId {
      assert Says(c) == At(after, c.name);
    }
  }

  // ---- When it fails --------------------------------------------------------

  /**
   * After an export of the view's bookmarks, however it fared, the next import
   * that succeeds leaves the view with exactly git's refs: a bookmark is lost iff
   * the export did not get to it and git had no such ref, one git had is put back
   * to git's value, and a stale ref that was not deleted returns.
   */
  method ExportThenImport(git: GitRepo, view: View, list: seq<Bookmark>, luck: Luck)
    returns (done: nat, left: set<Name>, r: Option<View>)
    requires RealIds(git.refs) && (forall b :: b in list ==> b.1 != []) && MapOf(list) == Exportable(view)
    modifies git
    ensures done == if luck.opens then Exported(list, git.odb, git.blocked) else 0
    ensures left == {} <==> CleansUp(luck, old(git.refs).Keys - NamesOf(list), git.stuck)
    ensures r.Some? ==> forall n :: n in Exportable(view) ==>
              At(Exportable(r.value), n) == At(old(git.refs) + MapOf(list[..done]), n)
    ensures r.Some? ==> forall n :: n in Exportable(view) ==> (n !in r.value <==> n !in old(git.refs) + MapOf(list[..done]))
    ensures r.Some? ==> forall n :: n in left ==> n in r.value
    ensures r.Some? ==> Exportable(r.value) == git.refs
  {
    ghost var before := git.refs;
    var changes;
    done, left, changes := ExportThenDetect(git, list, luck);
    r := ApplyImports(view, changes, git.odb);
    if r.Some? {
      MapNames(list);
      ImportAfterExport(view, changes, before + MapOf(list[..done]), NamesOf(list), left);
    }
  }

  /** Importing what detection reports when git holds `refs` under the names `names` and `left`. */
  lemma ImportAfterExport(view: View, changes: seq<Change>, refs: Refs, names: set<Name>, left: set<Name>)
    requires Difference(changes, Exportable(view), Kept(refs, names + left))
    requires names == Exportable(view).Keys && left <= refs.Keys
    ensures var view' := Imported(view, changes);
            && Exportable(view') == Kept(refs, names + left)
            && (forall n :: n in names ==> At(Exportable(view'), n) == At(refs, n))
            && (forall n :: n in names ==> (n !in view' <==> n !in refs))
            && (forall n :: n in left ==> n in view')
  {
    var view' := Imported(view, changes);
    ImportCatchesUp(view, Kept(refs, names + left), changes);
    forall n | n in names && n in view' ensures n in refs {
      StaysNormal(view, changes, n);
      assert n in Exportable(view');
    }
    forall n | n in left ensures n in view' {
      assert n in Exportable(view');
    }
  }

  /** A bookmark that was resolved before an import is resolved or gone after it. */
  lemma {:induction false} StaysNormal(view: View, changes: seq<Change>, n: Name)
    requires n in view ==> view[n].Normal?
    ensures n in Imported(view, changes) ==> Imported(view, changes)[n].Normal?
    decreases |changes|
  {
    if changes != [] { StaysNormal(view, changes[..|changes| - 1], n); }
  }

  /** A bookmark the export did not get to, and that git did not have, is reported deleted. */
  lemma FailedExportReadsAsDeletion(before: Refs, list: seq<Bookmark>, done: nat, left: set<Name>, changes: seq<Change>, n: Name)
    requires done <= |list| && Difference(changes, MapOf(list), Kept(before + MapOf(list[..done]), NamesOf(list) + left))
    requires n in NamesOf(list[done..]) && n !in before + MapOf(list[..done])
    ensures Change(n, []) in changes
  {
    MapNames(list);
    assert forall b :: b in list[done..] ==> b in list;
    var after := Kept(before + MapOf(list[..done]), NamesOf(list) + left);
    assert At(MapOf(list), n) != At(after, n);
    var c :| c in changes && c.name == n;
    assert c == Change(n, []);
  }

  /** A listing that fails is reported as the deletion of every exported bookmark, and importing that deletes them all. */
  method FailedListingDeletesAll(exported: Refs, view: View, odb: set<Bytes>) returns (changes: seq<Change>, r: Option<View>)
    requires Exportable(view) == exported
    ensures Difference(changes, exported, map[])
    ensures forall n :: n in exported ==> Change(n, []) in changes
    ensures r.Some? && Exportable(r.value) == map[]
  {
    changes := Detect(Some(exported), None);
    forall n | n in exported ensures Change(n, []) in changes {
      assert At(exported, n) != At(map[], n);
      var c :| c in changes && c.name == n;
      assert c == Change(n, []);
    }
    ChangesReadable(changes, exported, map[], odb);
    r := ApplyImports(view, changes, odb);
    ImportCatchesUp(view, map[], changes);
  }
}
