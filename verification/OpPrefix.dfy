/** Operation-id prefixes: the daemon scans its table, the CLI merges in the root operation. */
module OpPrefix {
  import opened Common
  import opened Hex

  datatype Resolution = NoMatch | SingleMatch(id: Bytes) | AmbiguousMatch

  /** What a prefix resolves to, by the number of distinct ids that match it. */
  ghost predicate Resolves(r: Resolution, matching: set<Bytes>) {
    match r
    case NoMatch => matching == {}
    case SingleMatch(id) => matching == {id}
    case AmbiguousMatch => |matching| >= 2
  }

  /** The specification: ids whose hex form starts with the text. */
  ghost function Matching(ids: set<Bytes>, prefix: string): set<Bytes> {
    set id | id in ids && prefix <= HexOf(id)
  }

  function Keys(table: seq<Bytes>): set<Bytes> {
    set k | k in table
  }

  lemma ResolvesUnique(a: Resolution, b: Resolution, matching: set<Bytes>)
    requires Resolves(a, matching) && Resolves(b, matching)
    ensures a == b
  {
    if a.SingleMatch? && b.SingleMatch? { assert a.id in matching; }
  }

  lemma TwoMembers(s: set<Bytes>, a: Bytes, b: Bytes)
    requires a in s && b in s && a != b
    ensures |s| >= 2
  {
    assert {a, b} <= s;
    assert s == {a, b} + (s - {a, b});
  }

  /** `operation_ids_matching_prefix`: a scan of the table's keys that stops at the second match. */
  method ScanTable(keys: seq<Bytes>, prefix: string) returns (r: Resolution)
    requires forall i, j :: 0 <= i < j < |keys| ==> keys[i] != keys[j]
    ensures Resolves(r, Matching(Keys(keys), prefix))
  {
    ghost var all := Matching(Keys(keys), prefix);
    var matched: Option<Bytes> := None;
    for i := 0 to |keys|
      invariant matched.None? ==> Matching(Keys(keys[..i]), prefix) == {}
      invariant matched.Some? ==> Matching(Keys(keys[..i]), prefix) == {matched.value} && matched.value in keys[..i]
    {
      assert keys[..i + 1] == keys[..i] + [keys[i]];
      assert Keys(keys[..i + 1]) == Keys(keys[..i]) + {keys[i]};
      if prefix <= HexOf(keys[i]) {
        if matched.Some? {
          assert matched.value in Matching(Keys(keys[..i]), prefix);
          TwoMembers(all, matched.value, keys[i]);
          return AmbiguousMatch;
        }
        matched := Some(keys[i]);
      }
    }
    assert keys[..|keys|] == keys;
    return match matched case Some(id) => SingleMatch(id) case None => NoMatch;
  }

  /** A hex prefix of either parity: whole bytes, and perhaps one more digit. */
  datatype HexPrefix = HexPrefix(whole: Bytes, odd: Option<nat>)

  predicate ValidPrefix(p: HexPrefix) {
    p.odd.Some? ==> p.odd.value < 16
  }

  /** The text the CLI sends to the daemon. */
  function PrefixText(p: HexPrefix): string
    requires ValidPrefix(p)
  {
    HexOf(p.whole) + if p.odd.Some? then [NibbleChar(p.odd.value)] else []
  }

  /** The bytewise test the CLI applies to the root operation. */
  predicate PrefixMatches(p: HexPrefix, id: Bytes) {
    && p.whole <= id
    && (p.odd.Some? ==> |p.whole| < |id| && id[|p.whole|] as nat / 16 == p.odd.value)
  }

  /** The two tests agree: bytes on one side, hex text on the other. */
  lemma MatchesIsTextual(p: HexPrefix, id: Bytes)
    requires ValidPrefix(p)
    ensures PrefixMatches(p, id) <==> PrefixText(p) <= HexOf(id)
  {
    var n := |p.whole|;
    if n <= |id| {
      HexOfPrefix(id, n);
      if p.whole != id[..n] && HexOf(p.whole) == HexOf(id[..n]) { HexInjective(p.whole, id[..n]); }
      if p.odd.Some? && n < |id| {
        HexAt(id, n);
        NibblesDiffer(p.odd.value, id[n] as nat / 16);
      }
    }
  }

  lemma {:induction false} HexOfPrefix(id: Bytes, n: nat)
    requires n <= |id|
    ensures HexOf(id)[..2 * n] == HexOf(id[..n])
    decreases |id|
  {
    if n < |id| {
      var k := |id| - 1;
      HexOfPrefix(id[..k], n);
      assert id[..k][..n] == id[..n];
      assert HexOf(id)[..2 * n] == HexOf(id[..k])[..2 * n];
    } else {
      assert id[..n] == id;
    }
  }

  lemma NibblesDiffer(a: nat, b: nat)
    requires a < 16 && b < 16
    ensures NibbleChar(a) == NibbleChar(b) <==> a == b
  {
  }

  /** `KikiOpStore::resolve_operation_id_prefix`: the root's answer merged with the daemon's. */
  function Merge(matchesRoot: bool, root: Bytes, daemon: Resolution): Resolution {
    if !matchesRoot then daemon
    else
      match daemon
      case NoMatch => SingleMatch(root)
      case SingleMatch(id) => if id == root then SingleMatch(id) else AmbiguousMatch
      case AmbiguousMatch => AmbiguousMatch
  }

  lemma MergeIsSpec(p: HexPrefix, root: Bytes, ids: set<Bytes>, daemon: Resolution)
    requires ValidPrefix(p) && Resolves(daemon, Matching(ids, PrefixText(p)))
    ensures Resolves(Merge(PrefixMatches(p, root), root, daemon), Matching(ids + {root}, PrefixText(p)))
  {
    MatchesIsTextual(p, root);
    var before, after := Matching(ids, PrefixText(p)), Matching(ids + {root}, PrefixText(p));
    if PrefixMatches(p, root) {
      assert after == before + {root};
      if daemon.SingleMatch? && daemon.id != root {
        TwoMembers(after, daemon.id, root);
      } else if daemon.AmbiguousMatch? {
        assert |after| == |before| + |after - before|;
      }
    } else {
      assert after == before;
    }
  }

  /**
   * The two layers together equal the specification over the table's ids and the
   * root: for every table, also one that holds the root, and every prefix.
   */
  method ResolvePrefix(keys: seq<Bytes>, root: Bytes, p: HexPrefix) returns (r: Resolution)
    requires ValidPrefix(p) && forall i, j :: 0 <= i < j < |keys| ==> keys[i] != keys[j]
    ensures Resolves(r, Matching(Keys(keys) + {root}, PrefixText(p)))
  {
    var daemon := ScanTable(keys, PrefixText(p));
    MergeIsSpec(p, root, Keys(keys), daemon);
    r := Merge(PrefixMatches(p, root), root, daemon);
  }
}
