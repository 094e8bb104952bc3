/** Byte strings in the order Rust compares them, and the ordered sets built on it. */
module ByteOrder {
  import opened Common

  /** `Ord` on byte vectors: lexicographic, a proper prefix comes first. */
  predicate Less(a: Bytes, b: Bytes) {
    |b| > 0 && (|a| == 0 || a[0] < b[0] || (a[0] == b[0] && Less(a[1..], b[1..])))
  }

  lemma {:induction false} LessIrreflexive(a: Bytes)
    ensures !Less(a, a)
  {
    if |a| > 0 { LessIrreflexive(a[1..]); }
  }

  lemma {:induction false} LessTransitive(a: Bytes, b: Bytes, c: Bytes)
    requires Less(a, b) && Less(b, c)
    ensures Less(a, c)
  {
    if |a| > 0 && a[0] == b[0] && b[0] == c[0] {
      LessTransitive(a[1..], b[1..], c[1..]);
    }
  }

  lemma {:induction false} LessTotal(a: Bytes, b: Bytes)
    ensures a == b || Less(a, b) || Less(b, a)
  {
    if |a| > 0 && |b| > 0 && a[0] == b[0] {
      LessTotal(a[1..], b[1..]);
      assert a == [a[0]] + a[1..] && b == [b[0]] + b[1..];
    }
  }

  predicate IsLeast(s: set<Bytes>, m: Bytes) {
    m in s && forall x :: x in s && x != m ==> Less(m, x)
  }

  lemma {:induction false} LeastExists(s: set<Bytes>)
    requires s != {}
    ensures exists m :: IsLeast(s, m)
  {
    var x :| x in s;
    if s == {x} {
      assert IsLeast(s, x);
    } else {
      assert s - {x} != {};
      LeastExists(s - {x});
      var m :| IsLeast(s - {x}, m);
      LessTotal(x, m);
      if Less(m, x) {
        assert IsLeast(s, m);
      } else {
        forall y | y in s && y != x ensures Less(x, y) {
          if y != m { LessTransitive(x, m, y); }
        }
        assert IsLeast(s, x);
      }
    }
  }

  lemma LeastUnique(s: set<Bytes>, m: Bytes, n: Bytes)
    requires IsLeast(s, m) && IsLeast(s, n)
    ensures m == n
  {
    if m != n {
      LessTransitive(m, n, m);
      LessIrreflexive(m);
    }
  }

  /** The elements of a BTreeSet in iteration order. */
  ghost function Order(s: set<Bytes>): seq<Bytes> {
    if s == {} then []
    else
      LeastExists(s);
      var m :| IsLeast(s, m);
      [m] + Order(s - {m})
  }

  lemma {:induction false} OrderOfLeast(s: set<Bytes>, m: Bytes)
    requires IsLeast(s, m)
    ensures Order(s) == [m] + Order(s - {m})
  {
    LeastExists(s);
    var n :| IsLeast(s, n) && Order(s) == [n] + Order(s - {n});
    LeastUnique(s, m, n);
  }

  ghost function Elems(ids: seq<Bytes>): set<Bytes> {
    set x | x in ids
  }

  predicate Ascending(ids: seq<Bytes>) {
    forall i, j {:trigger Less(ids[i], ids[j])} :: 0 <= i < j < |ids| ==> Less(ids[i], ids[j])
  }

  lemma {:induction false} OrderAscends(s: set<Bytes>)
    ensures Elems(Order(s)) == s && Ascending(Order(s))
  {
    if s != {} {
      LeastExists(s);
      var m :| IsLeast(s, m);
      OrderOfLeast(s, m);
      var rest := Order(s - {m});
      OrderAscends(s - {m});
      forall x ensures x in Elems(Order(s)) <==> x in s {
        assert x in [m] + rest <==> x == m || x in rest;
        assert x in rest <==> x in Elems(rest);
      }
      forall i, j | 0 <= i < j < |Order(s)| ensures Less(Order(s)[i], Order(s)[j]) {
        if i == 0 {
          assert rest[j - 1] in Elems(rest);
        } else {
          assert Less(rest[i - 1], rest[j - 1]);
        }
      }
    }
  }

  lemma AscendingTail(ids: seq<Bytes>)
    requires Ascending(ids) && ids != []
    ensures Ascending(ids[1..])
    ensures IsLeast(Elems(ids), ids[0])
    ensures Elems(ids[1..]) == Elems(ids) - {ids[0]}
  {
    var tail := ids[1..];
    forall i, j | 0 <= i < j < |tail| ensures Less(tail[i], tail[j]) {
      assert Less(ids[i + 1], ids[j + 1]);
    }
    forall x | x in tail ensures Less(ids[0], x) && x != ids[0] {
      var j :| 0 <= j < |tail| && tail[j] == x;
      assert Less(ids[0], ids[j + 1]);
      LessIrreflexive(x);
    }
    assert ids == [ids[0]] + tail;
  }

  /** An ascending sequence is the iteration order of its elements. */
  lemma {:induction false} AscendingIsOrder(ids: seq<Bytes>)
    requires Ascending(ids)
    ensures Order(Elems(ids)) == ids
  {
    if ids != [] {
      AscendingTail(ids);
      OrderOfLeast(Elems(ids), ids[0]);
      AscendingIsOrder(ids[1..]);
    }
  }
}
