/** Trees on the wire: the CLI's codec and the daemon's, composed through the store. */
module WireTrees {
  import opened ByteOrder
  import opened Common
  import G = GitObjects

  type Name = G.Name

  /** `RepoPathComponentBuf::new` refuses an empty name and one with a slash. */
  predicate ValidName(n: Name) {
    n.utf8 != [] && SLASH !in n.utf8
  }

  // The CLI's tree (jj-lib).
  datatype TreeValue =
    | File(id: Bytes, executable: bool, copyId: Bytes)
    | Symlink(id: Bytes)
    | Tree(id: Bytes)
    | GitSubmodule(id: Bytes)

  datatype Entry = Entry(name: Name, value: TreeValue)

  // The wire message.
  datatype WireValue =
    | WireFile(id: Bytes, executable: bool, copyId: Bytes)
    | WireSymlink(id: Bytes)
    | WireTree(id: Bytes)
    | WireConflict(id: Bytes)

  /** Both levels of `oneof` may be absent. */
  datatype WireEntry = WireEntry(name: Name, value: Option<Option<WireValue>>)

  // The daemon's entries.
  type GitEntry = G.Entry

  // ---- The CLI's codec ------------------------------------------------------

  function ValueToWire(v: TreeValue): Option<WireValue> {
    match v
    case File(id, executable, copyId) => Some(WireFile(id, executable, copyId))
    case Symlink(id) => Some(WireSymlink(id))
    case Tree(id) => Some(WireTree(id))
    case GitSubmodule(_) => None
  }

  function ValueFromWire(w: WireValue): Option<TreeValue> {
    match w
    case WireFile(id, executable, copyId) => Some(File(id, executable, copyId))
    case WireSymlink(id) => Some(Symlink(id))
    case WireTree(id) => Some(Tree(id))
    case WireConflict(_) => None
  }

  predicate SubmoduleFree(tree: seq<Entry>) {
    forall e :: e in tree ==> !e.value.GitSubmodule?
  }

  /** `tree_to_proto`; submodules are unsupported. */
  function TreeToWire(tree: seq<Entry>): Option<seq<WireEntry>> {
    if !SubmoduleFree(tree) then None
    else Some(seq(|tree|, i requires 0 <= i < |tree| => WireEntry(tree[i].name, Some(ValueToWire(tree[i].value)))))
  }

  function EntryFromWire(w: WireEntry): Option<Entry> {
    if !ValidName(w.name) || w.value.None? || w.value.value.None? then None
    else
      match ValueFromWire(w.value.value.value)
      case None => None
      case Some(v) => Some(Entry(w.name, v))
  }

  /** `tree_from_proto`: any bad entry is an error; the rest is sorted by name. */
  function TreeFromWire(ws: seq<WireEntry>): Option<seq<Entry>> {
    if exists w :: w in ws && EntryFromWire(w).None? then None
    else Some(SortEntries(Decoded(ws)))
  }

  function Decoded(ws: seq<WireEntry>): (es: seq<Entry>)
    requires forall w :: w in ws ==> EntryFromWire(w).Some?
    ensures |es| == |ws| && forall i :: 0 <= i < |ws| ==> Some(es[i]) == EntryFromWire(ws[i])
  {
    seq(|ws|, i requires 0 <= i < |ws| => EntryFromWire(ws[i]).value)
  }

  /** Where a new entry goes: after every entry whose name is not greater. */
  function Insert(s: seq<Entry>, e: Entry): seq<Entry> {
    if s == [] then [e]
    else
      var n := |s| - 1;
      if Less(e.name.utf8, s[n].name.utf8) then Insert(s[..n], e) + [s[n]] else s + [e]
  }

  /** The stable sort by name. */
  function SortEntries(s: seq<Entry>): seq<Entry> {
    if s == [] then [] else Insert(SortEntries(s[..|s| - 1]), s[|s| - 1])
  }

  // ---- The daemon's codec ---------------------------------------------------

  function GitValue(w: WireValue): (G.EntryKind, Bytes) {
    match w
    case WireTree(id) => (G.EntryKind.Tree, id)
    case WireSymlink(id) => (G.EntryKind.Symlink, id)
    case WireConflict(id) => (G.EntryKind.File(false), id)
    case WireFile(id, executable, _) => (G.EntryKind.File(executable), id)
  }

  predicate Present(w: WireEntry) {
    w.value.Some? && w.value.value.Some?
  }

  function GitFromWire(ws: seq<WireEntry>): Option<seq<GitEntry>> {
    if exists w :: w in ws && !Present(w) then None
    else Some(seq(|ws|, i requires 0 <= i < |ws| && Present(ws[i]) =>
      var v := GitValue(ws[i].value.value.value); G.Entry(ws[i].name, v.0, G.Id(v.1))))
  }

  /** `entries_to_jj_tree` refuses a tree with an invalid name. */
  predicate StoreAccepts(gs: seq<GitEntry>) {
    forall g :: g in gs ==> ValidName(g.name)
  }

  function GitToWireValue(g: GitEntry): WireValue {
    match g.kind
    case File(executable) => WireFile(g.id.bytes, executable, [])
    case Tree => WireTree(g.id.bytes)
    case Symlink => WireSymlink(g.id.bytes)
    case Submodule => WireTree(g.id.bytes)
  }

  function GitToWire(gs: seq<GitEntry>): (ws: seq<WireEntry>)
    ensures |ws| == |gs| && forall i :: 0 <= i < |gs| ==> ws[i] == WireEntry(gs[i].name, Some(Some(GitToWireValue(gs[i]))))
  {
    seq(|gs|, i requires 0 <= i < |gs| => WireEntry(gs[i].name, Some(Some(GitToWireValue(gs[i])))))
  }

  /** What git keeps of an entry: everything but the copy id. */
  function Stripped(e: Entry): Entry {
    match e.value
    case File(id, executable, _) => e.(value := File(id, executable, []))
    case _ => e
  }

  function StrippedTree(tree: seq<Entry>): (t: seq<Entry>)
    ensures |t| == |tree| && forall i :: 0 <= i < |t| ==> t[i] == Stripped(tree[i])
  {
    seq(|tree|, i requires 0 <= i < |tree| => Stripped(tree[i]))
  }

  // ---- Sorted sequences -----------------------------------------------------

  /** A jj tree: strictly ascending valid names. */
  ghost predicate StrictlySorted(s: seq<Entry>) {
    forall i, j :: 0 <= i < j < |s| ==> Less(s[i].name.utf8, s[j].name.utf8)
  }

  ghost predicate WellNamed(s: seq<Entry>) {
    forall e :: e in s ==> ValidName(e.name)
  }

  ghost function Elements(s: seq<Entry>): set<Entry> {
    set e | e in s
  }

  ghost predicate DistinctNames(s: seq<Entry>) {
    forall i, j :: 0 <= i < j < |s| ==> s[i].name != s[j].name
  }

  lemma AppendElements(s: seq<Entry>, e: Entry)
    ensures Elements(s + [e]) == Elements(s) + {e}
  {
  }

  lemma {:induction false} InsertKeeps(s: seq<Entry>, e: Entry)
    ensures Elements(Insert(s, e)) == Elements(s) + {e}
    decreases |s|
  {
    if s != [] {
      var n := |s| - 1;
      InsertKeeps(s[..n], e);
      AppendElements(s[..n], s[n]);
      assert s == s[..n] + [s[n]];
      if Less(e.name.utf8, s[n].name.utf8) { AppendElements(Insert(s[..n], e), s[n]); } else { AppendElements(s, e); }
    }
  }

  lemma SortedAppend(s: seq<Entry>, e: Entry)
    requires StrictlySorted(s) && forall x :: x in s ==> Less(x.name.utf8, e.name.utf8)
    ensures StrictlySorted(s + [e])
  {
  }

  lemma {:induction false} InsertSorts(s: seq<Entry>, e: Entry)
    requires StrictlySorted(s) && forall x :: x in s ==> x.name != e.name
    ensures StrictlySorted(Insert(s, e))
    decreases |s|, 1
  {
    if s != [] {
      var n := |s| - 1;
      assert s[n] in s;
      LessTotal(s[n].name.utf8, e.name.utf8);
      if Less(e.name.utf8, s[n].name.utf8) {
        InsertBelow(s, e);
      } else {
        forall x | x in s ensures Less(x.name.utf8, e.name.utf8) {
          var i :| 0 <= i < |s| && s[i] == x;
          if i < n { LessTransitive(x.name.utf8, s[n].name.utf8, e.name.utf8); }
        }
        SortedAppend(s, e);
      }
    }
  }

  lemma InsertBelow(s: seq<Entry>, e: Entry)
    requires StrictlySorted(s) && s != [] && Less(e.name.utf8, s[|s| - 1].name.utf8)
    requires forall x :: x in s ==> x.name != e.name
    ensures StrictlySorted(Insert(s, e))
    decreases |s|, 0
  {
    var n := |s| - 1;
    forall x | x in s[..n] ensures x.name != e.name { assert x in s; }
    InsertSorts(s[..n], e);
    InsertKeeps(s[..n], e);
    var rest := Insert(s[..n], e);
    forall x | x in rest ensures Less(x.name.utf8, s[n].name.utf8) {
      assert x in Elements(rest);
      if x != e {
        var j :| 0 <= j < n && s[j] == x;
      }
    }
    SortedAppend(rest, s[n]);
  }

  lemma {:induction false} SortSorts(s: seq<Entry>)
    requires DistinctNames(s)
    ensures StrictlySorted(SortEntries(s)) && Elements(SortEntries(s)) == Elements(s)
    decreases |s|
  {
    if s != [] {
      var n := |s| - 1;
      var init := s[..n];
      SortSorts(init);
      assert s == init + [s[n]];
      forall x | x in SortEntries(init) ensures x.name != s[n].name {
        assert x in Elements(init);
        var i :| 0 <= i < n && s[i] == x;
      }
      InsertSorts(SortEntries(init), s[n]);
      InsertKeeps(SortEntries(init), s[n]);
    }
  }

  lemma SortedHead(s: seq<Entry>, x: Entry)
    requires StrictlySorted(s) && x in s && x != s[0]
    ensures Less(s[0].name.utf8, x.name.utf8)
  {
    var i :| 0 <= i < |s| && s[i] == x;
  }

  /** A set of entries has one strictly sorted form. */
  lemma {:induction false} SortedUnique(a: seq<Entry>, b: seq<Entry>)
    requires StrictlySorted(a) && StrictlySorted(b) && Elements(a) == Elements(b)
    ensures a == b
    decreases |a|
  {
    NoElements(a);
    NoElements(b);
    if a != [] {
      assert a[0] in Elements(b);
      assert b[0] in Elements(a);
      if a[0] != b[0] {
        SortedHead(a, b[0]);
        SortedHead(b, a[0]);
        LessTransitive(a[0].name.utf8, b[0].name.utf8, a[0].name.utf8);
        LessIrreflexive(a[0].name.utf8);
      }
      TailElements(a);
      TailElements(b);
      SortedUnique(a[1..], b[1..]);
      assert a == [a[0]] + a[1..] && b == [b[0]] + b[1..];
    }
  }

  lemma NoElements(s: seq<Entry>)
    ensures Elements(s) == {} <==> s == []
  {
    if s != [] { assert s[0] in Elements(s); }
  }

  lemma TailElements(s: seq<Entry>)
    requires StrictlySorted(s) && s != []
    ensures Elements(s[1..]) == Elements(s) - {s[0]}
  {
    assert s == [s[0]] + s[1..];
    forall x | x in s[1..] ensures x != s[0] {
      var i :| 1 <= i < |s| && s[i] == x;
      LessIrreflexive(s[0].name.utf8);
    }
  }

  // ---- The round trip -------------------------------------------------------

  /** The store gives back the same entries, each once, in an order of its own. */
  ghost predicate SameEntries(stored: seq<GitEntry>, written: seq<GitEntry>) {
    && (forall g :: g in stored <==> g in written)
    && forall i, j :: 0 <= i < j < |stored| ==> stored[i] != stored[j]
  }

  /** What the CLI reads for one entry of the store. */
  function BackOf(g: GitEntry): Option<Entry> {
    EntryFromWire(WireEntry(g.name, Some(Some(GitToWireValue(g)))))
  }

  lemma EntryRoundTrip(e: Entry)
    requires ValidName(e.name) && !e.value.GitSubmodule?
    ensures BackOf(GitOf(e)) == Some(Stripped(e))
  {
  }

  /** The daemon's entries for a CLI tree. */
  function Written(tree: seq<Entry>): (gs: seq<GitEntry>)
    requires SubmoduleFree(tree)
    ensures |gs| == |tree|
    ensures forall i :: 0 <= i < |tree| ==> gs[i] == GitOf(tree[i])
  {
    seq(|tree|, i requires 0 <= i < |tree| => GitOf(tree[i]))
  }

  function GitOf(e: Entry): GitEntry {
    if e.value.GitSubmodule? then G.Entry(e.name, G.EntryKind.Submodule, G.Id(e.value.id))
    else var v := GitValue(ValueToWire(e.value).value); G.Entry(e.name, v.0, G.Id(v.1))
  }

  lemma WrittenIsDecoded(tree: seq<Entry>)
    ensures SubmoduleFree(tree) <==> TreeToWire(tree).Some?
    ensures SubmoduleFree(tree) ==> GitFromWire(TreeToWire(tree).value) == Some(Written(tree))
  {
    if SubmoduleFree(tree) {
      var ws := TreeToWire(tree).value;
      forall w | w in ws ensures Present(w) {
        var i :| 0 <= i < |ws| && ws[i] == w;
        assert tree[i] in tree;
      }
      var gs := GitFromWire(ws).value;
      forall i | 0 <= i < |tree| ensures gs[i] == Written(tree)[i] {
        assert tree[i] in tree;
        assert Present(ws[i]);
      }
      assert gs == Written(tree);
    }
  }

  /**
   * CLI to daemon to store to daemon to CLI: a submodule-free tree comes back
   * equal but for copy ids, however the store orders its entries.
   */
  lemma TreeRoundTrip(tree: seq<Entry>, stored: seq<GitEntry>)
    requires StrictlySorted(tree) && WellNamed(tree) && SubmoduleFree(tree)
    requires SameEntries(stored, Written(tree))
    ensures TreeToWire(tree).Some? && GitFromWire(TreeToWire(tree).value) == Some(Written(tree))
    ensures StoreAccepts(Written(tree))
    ensures TreeFromWire(GitToWire(stored)) == Some(StrippedTree(tree))
  {
    WrittenIsDecoded(tree);
    forall g | g in Written(tree) ensures ValidName(g.name) {
      var i :| 0 <= i < |tree| && Written(tree)[i] == g;
      assert tree[i] in tree;
    }
    var ws := GitToWire(stored);
    StoredDecodes(tree, stored);
    var back := Decoded(ws);
    BackNamesDistinct(tree, stored);
    BackElements(tree, stored);
    SortSorts(back);
    StrippedSorted(tree);
    SortedUnique(SortEntries(back), StrippedTree(tree));
  }

  /** A stored entry was written for some entry of the tree, and comes back as that entry. */
  lemma StoredFrom(tree: seq<Entry>, stored: seq<GitEntry>, g: GitEntry) returns (k: nat)
    requires WellNamed(tree) && SubmoduleFree(tree) && SameEntries(stored, Written(tree)) && g in stored
    ensures k < |tree| && g == GitOf(tree[k]) && BackOf(g) == Some(Stripped(tree[k]))
  {
    assert g in Written(tree);
    k :| k < |tree| && Written(tree)[k] == g;
    assert tree[k] in tree;
    EntryRoundTrip(tree[k]);
  }

  lemma StoredDecodes(tree: seq<Entry>, stored: seq<GitEntry>)
    requires WellNamed(tree) && SubmoduleFree(tree) && SameEntries(stored, Written(tree))
    ensures forall w :: w in GitToWire(stored) ==> EntryFromWire(w).Some?
  {
    forall w | w in GitToWire(stored) ensures EntryFromWire(w).Some? {
      var i :| 0 <= i < |stored| && GitToWire(stored)[i] == w;
      var _ := StoredFrom(tree, stored, stored[i]);
    }
  }

  lemma BackNamesDistinct(tree: seq<Entry>, stored: seq<GitEntry>)
    requires StrictlySorted(tree) && WellNamed(tree) && SubmoduleFree(tree) && SameEntries(stored, Written(tree))
    requires forall w :: w in GitToWire(stored) ==> EntryFromWire(w).Some?
    ensures DistinctNames(Decoded(GitToWire(stored)))
  {
    var back := Decoded(GitToWire(stored));
    forall i, j | 0 <= i < j < |back| ensures back[i].name != back[j].name {
      var a := StoredFrom(tree, stored, stored[i]);
      var b := StoredFrom(tree, stored, stored[j]);
      NamesDistinct(tree, a, b);
      assert Some(back[i]) == BackOf(stored[i]) && Some(back[j]) == BackOf(stored[j]);
    }
  }

  lemma BackElements(tree: seq<Entry>, stored: seq<GitEntry>)
    requires WellNamed(tree) && SubmoduleFree(tree) && SameEntries(stored, Written(tree))
    requires forall w :: w in GitToWire(stored) ==> EntryFromWire(w).Some?
    ensures Elements(Decoded(GitToWire(stored))) == Elements(StrippedTree(tree))
  {
    var back, want := Decoded(GitToWire(stored)), StrippedTree(tree);
    forall e | e in back ensures e in want {
      var i :| 0 <= i < |back| && back[i] == e;
      var k := StoredFrom(tree, stored, stored[i]);
      assert Some(back[i]) == BackOf(stored[i]);
      assert want[k] == e;
    }
    forall e | e in want ensures e in back {
      var k :| 0 <= k < |want| && want[k] == e;
      assert Written(tree)[k] in stored && tree[k] in tree;
      var i :| 0 <= i < |stored| && stored[i] == Written(tree)[k];
      EntryRoundTrip(tree[k]);
      assert Some(back[i]) == BackOf(stored[i]);
      assert back[i] == e;
    }
  }

  lemma NamesDistinct(tree: seq<Entry>, a: nat, b: nat)
    requires StrictlySorted(tree) && a < |tree| && b < |tree| && a != b
    ensures tree[a].name != tree[b].name
  {
    LessIrreflexive(tree[a].name.utf8);
    if a < b { assert Less(tree[a].name.utf8, tree[b].name.utf8); } else { assert Less(tree[b].name.utf8, tree[a].name.utf8); }
  }

  lemma StrippedSorted(tree: seq<Entry>)
    requires StrictlySorted(tree)
    ensures StrictlySorted(StrippedTree(tree))
  {
    forall i, j | 0 <= i < j < |tree| ensures Less(StrippedTree(tree)[i].name.utf8, StrippedTree(tree)[j].name.utf8) {
      assert Stripped(tree[i]).name == tree[i].name;
    }
  }

  /** What the CLI sends, it would read back whole: copy ids are lost in the store, not on the wire. */
  lemma WireRoundTrip(tree: seq<Entry>)
    requires StrictlySorted(tree) && WellNamed(tree) && SubmoduleFree(tree)
    ensures TreeToWire(tree).Some? && TreeFromWire(TreeToWire(tree).value) == Some(tree)
  {
    var ws := TreeToWire(tree).value;
    forall i | 0 <= i < |tree| ensures EntryFromWire(ws[i]) == Some(tree[i]) { assert tree[i] in tree; }
    assert Decoded(ws) == tree;
    forall i, j | 0 <= i < j < |tree| ensures tree[i].name != tree[j].name { NamesDistinct(tree, i, j); }
    SortSorts(tree);
    SortedUnique(SortEntries(tree), tree);
  }

  // ---- Entry by entry ---------------------------------------------------------

  /**
   * What git is given for a tree: the same names and ids in the same order, an
   * executable file for an executable one, a subtree for a tree, a link for a symlink.
   */
  lemma KindsKept(tree: seq<Entry>, i: nat)
    requires SubmoduleFree(tree) && i < |tree|
    ensures TreeToWire(tree).Some? && GitFromWire(TreeToWire(tree).value).Some?
    ensures var gs := GitFromWire(TreeToWire(tree).value).value;
            && |gs| == |tree| && gs[i].name == tree[i].name && gs[i].id.bytes == tree[i].value.id
            && (gs[i].kind == G.EntryKind.Tree <==> tree[i].value.Tree?)
            && (gs[i].kind == G.EntryKind.Symlink <==> tree[i].value.Symlink?)
            && (tree[i].value.File? ==> gs[i].kind == G.EntryKind.File(tree[i].value.executable))
  {
    WrittenIsDecoded(tree);
    assert tree[i] in tree;
  }

  /** A conflict marker is stored as a plain file, and a submodule that git holds is read as a subtree. */
  lemma OddKinds(name: Name, id: Bytes)
    requires ValidName(name)
    ensures GitFromWire([WireEntry(name, Some(Some(WireConflict(id))))]) == Some([G.Entry(name, G.EntryKind.File(false), G.Id(id))])
    ensures TreeFromWire(GitToWire([G.Entry(name, G.EntryKind.Submodule, G.Id(id))])) == Some([Entry(name, Tree(id))])
  {
    var one := [WireEntry(name, Some(Some(WireConflict(id))))];
    assert forall w :: w in one ==> Present(w);
    assert Present(one[0]) && GitFromWire(one).value[0] == G.Entry(name, G.EntryKind.File(false), G.Id(id));
    assert GitFromWire(one).value == [G.Entry(name, G.EntryKind.File(false), G.Id(id))];
    var ws := GitToWire([G.Entry(name, G.EntryKind.Submodule, G.Id(id))]);
    assert forall w :: w in ws ==> w == WireEntry(name, Some(Some(WireTree(id))));
    assert Decoded(ws) == [Entry(name, Tree(id))];
    assert SortEntries([]) == [] && Insert([], Entry(name, Tree(id))) == [Entry(name, Tree(id))];
    assert [Entry(name, Tree(id))][..0] == [];
  }

  /** An empty name, or one with a slash in it. */
  predicate BadName(n: Name) {
    |n.utf8| == 0 || exists i :: 0 <= i < |n.utf8| && n.utf8[i] == 47
  }

  /** Each side refuses a message exactly for its own reasons. */
  lemma RefusedIff(ws: seq<WireEntry>)
    ensures TreeFromWire(ws).None? <==>
              exists w :: w in ws && (BadName(w.name) || w.value.None? || w.value.value.None? || w.value.value.value.WireConflict?)
    ensures GitFromWire(ws).None? <==> exists w :: w in ws && (w.value.None? || w.value.value.None?)
  {
    forall w | w in ws
      ensures EntryFromWire(w).None? <==> BadName(w.name) || w.value.None? || w.value.value.None? || w.value.value.value.WireConflict?
    {
    }
  }

  lemma StoreRefusesIff(gs: seq<GitEntry>)
    ensures !StoreAccepts(gs) <==> exists g :: g in gs && BadName(g.name)
  {
  }
}
