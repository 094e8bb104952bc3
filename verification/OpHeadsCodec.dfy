/** The wire format of the `op_heads` ref: `[u32 BE len][bytes]` per operation id. */
module OpHeadsCodec {
  import opened ByteOrder
  import opened Common

  type OpId = Bytes

  const U32_LIMIT: nat := 0x1_0000_0000

  // ---- Length prefixes --------------------------------------------------

  function Be32(n: nat): (b: Bytes)
    requires n < U32_LIMIT
    ensures |b| == 4
  {
    [(n / 0x100_0000) as byte, (n / 0x1_0000 % 0x100) as byte,
     (n / 0x100 % 0x100) as byte, (n % 0x100) as byte]
  }

  function FromBe32(b: Bytes): (n: nat)
    requires |b| == 4
    ensures n < U32_LIMIT
  {
    ((b[0] as nat * 0x100 + b[1] as nat) * 0x100 + b[2] as nat) * 0x100 + b[3] as nat
  }

  lemma PrefixRoundTrip(n: nat)
    requires n < U32_LIMIT
    ensures FromBe32(Be32(n)) == n
  {
    var q := n / 0x100;
    var r := q / 0x100;
    assert n / 0x1_0000 == r && n / 0x100_0000 == r / 0x100;
  }

  lemma PrefixInverse(b: Bytes)
    requires |b| == 4
    ensures Be32(FromBe32(b)) == b
  {
    var hi := (b[0] as nat * 0x100 + b[1] as nat);
    var mid := hi * 0x100 + b[2] as nat;
    var n := mid * 0x100 + b[3] as nat;
    assert n / 0x100 == mid && n % 0x100 == b[3] as nat;
    assert n / 0x1_0000 == hi && n / 0x100_0000 == b[0] as nat;
  }

  /** The most significant byte comes first: longer entries have greater prefixes. */
  lemma PrefixOrdered(n: nat, m: nat)
    requires n < m < U32_LIMIT
    ensures Less(Be32(n), Be32(m))
  {
    var a, b := Be32(n), Be32(m);
    PrefixRoundTrip(n);
    PrefixRoundTrip(m);
    assert a[0] == b[0] ==> a[1] == b[1] ==> a[2] == b[2] ==> a[3] < b[3];
    assert a[0] == b[0] ==> a[1] == b[1] ==> Less(a[2..], b[2..]) by {
      assert a[2..] == [a[2], a[3]] && b[2..] == [b[2], b[3]] && a[2..][1..] == [a[3]] && b[2..][1..] == [b[3]];
    }
    assert a[1..][1..] == a[2..] && b[1..][1..] == b[2..];
    assert a[0] == b[0] ==> Less(a[1..], b[1..]);
  }

  // ---- encode / decode --------------------------------------------------

  predicate AllFit(ids: seq<OpId>) {
    forall i :: 0 <= i < |ids| ==> |ids[i]| < U32_LIMIT
  }

  predicate NoneEmpty(ids: seq<OpId>) {
    forall i :: 0 <= i < |ids| ==> |ids[i]| > 0
  }

  /** The byte string made of the given entries, in order. */
  function Join(ids: seq<OpId>): Bytes
    requires AllFit(ids)
  {
    if ids == [] then [] else Be32(|ids[0]|) + ids[0] + Join(ids[1..])
  }

  /** Every id fits the u32 length prefix; `encode` panics otherwise. */
  predicate Encodable(ids: set<OpId>) {
    forall id :: id in ids ==> |id| < U32_LIMIT
  }

  lemma OrderFits(ids: set<OpId>)
    requires Encodable(ids)
    ensures AllFit(Order(ids))
  {
    OrderAscends(ids);
    forall i | 0 <= i < |Order(ids)| ensures |Order(ids)[i]| < U32_LIMIT {
      assert Order(ids)[i] in Elems(Order(ids));
    }
  }

  /** The encoding of a set of ids. */
  ghost function Encoding(ids: set<OpId>): Bytes
    requires Encodable(ids)
  {
    OrderFits(ids);
    Join(Order(ids))
  }

  lemma EncodingOfLeast(ids: set<OpId>, id: OpId)
    requires Encodable(ids) && IsLeast(ids, id)
    ensures Encoding(ids) == Be32(|id|) + id + Encoding(ids - {id})
  {
    OrderOfLeast(ids, id);
    assert Order(ids)[1..] == Order(ids - {id});
  }

  lemma EncodeTurn(out: Bytes, rest: set<OpId>, id: OpId)
    requires Encodable(rest) && IsLeast(rest, id)
    ensures out + Be32(|id|) + id + Encoding(rest - {id}) == out + Encoding(rest)
  {
    EncodingOfLeast(rest, id);
  }

  method Encode(ids: set<OpId>) returns (out: Bytes)
    requires Encodable(ids)
    ensures out == Encoding(ids)
  {
    out := [];
    var rest := ids;
    ghost var goal := Encoding(ids);
    while rest != {}
      invariant Encodable(rest)
      invariant out + Encoding(rest) == goal
      decreases |rest|
    {
      LeastExists(rest);
      var id :| id in rest && IsLeast(rest, id);
      EncodeTurn(out, rest, id);
      out := out + Be32(|id|);
      out := out + id;
      rest := rest - {id};
    }
  }

  datatype DecodeError = TruncatedPrefix(trailing: nat) | TruncatedEntry(declared: nat, remaining: nat)

  /** The entry that starts at index `i` and the index after it, or why there is none. */
  function EntryAt(buf: Bytes, i: nat): (r: Result<(OpId, nat), DecodeError>)
    requires i < |buf|
    ensures r.Ok? ==> i < r.value.1 <= |buf|
  {
    if |buf| - i < 4 then Err(TruncatedPrefix(|buf| - i))
    else
      var len := FromBe32(buf[i..i + 4]);
      if |buf| - (i + 4) < len then Err(TruncatedEntry(len, |buf| - (i + 4)))
      else Ok((buf[i + 4..i + 4 + len], i + 4 + len))
  }

  lemma EntryOfJoined(pre: Bytes, id: OpId, post: Bytes)
    requires |id| < U32_LIMIT
    ensures EntryAt(pre + (Be32(|id|) + id + post), |pre|) == Ok((id, |pre| + 4 + |id|))
  {
    var b := pre + (Be32(|id|) + id + post);
    PrefixRoundTrip(|id|);
    assert b[|pre|..|pre| + 4] == Be32(|id|);
    assert b[|pre| + 4..|pre| + 4 + |id|] == id;
  }

  lemma JoinedOfEntry(buf: Bytes, i: nat)
    requires i < |buf| && EntryAt(buf, i).Ok?
    ensures var e := EntryAt(buf, i).value; |e.0| < U32_LIMIT && buf[i..] == Be32(|e.0|) + e.0 + buf[e.1..]
  {
    PrefixInverse(buf[i..i + 4]);
    var n := EntryAt(buf, i).value.1;
    assert buf[i..] == buf[i..i + 4] + buf[i + 4..n] + buf[n..];
  }

  /** Empty entries are tolerated and skipped. */
  function Admit(out: set<OpId>, id: OpId): set<OpId> {
    if |id| > 0 then out + {id} else out
  }

  /** What `decode` computes from index `i` on, given the set so far. */
  function DecodeFrom(buf: Bytes, i: nat, out: set<OpId>): Result<set<OpId>, DecodeError>
    requires i <= |buf|
    decreases |buf| - i
  {
    if i == |buf| then Ok(out)
    else
      match EntryAt(buf, i)
      case Err(e) => Err(e)
      case Ok((id, next)) => DecodeFrom(buf, next, Admit(out, id))
  }

  function Decode(buf: Bytes): Result<set<OpId>, DecodeError> {
    DecodeFrom(buf, 0, {})
  }

  lemma DecodeTurn(buf: Bytes, i: nat, out: set<OpId>)
    requires i < |buf|
    ensures EntryAt(buf, i).Err? ==> DecodeFrom(buf, i, out) == Err(EntryAt(buf, i).error)
    ensures EntryAt(buf, i).Ok? ==>
              DecodeFrom(buf, i, out) ==
                DecodeFrom(buf, EntryAt(buf, i).value.1, Admit(out, EntryAt(buf, i).value.0))
  {
  }

  method DecodeLoop(buf: Bytes) returns (r: Result<set<OpId>, DecodeError>)
    ensures r == Decode(buf)
  {
    var out: set<OpId> := {};
    var i := 0;
    ghost var goal := Decode(buf);
    while i < |buf|
      invariant 0 <= i <= |buf|
      invariant DecodeFrom(buf, i, out) == goal
    {
      DecodeTurn(buf, i, out);
      if |buf| - i < 4 {
        return Err(TruncatedPrefix(|buf| - i));
      }
      ghost var entry := EntryAt(buf, i);
      var len := FromBe32(buf[i..i + 4]);
      i := i + 4;
      if |buf| - i < len {
        return Err(TruncatedEntry(len, |buf| - i));
      }
      assert entry == Ok((buf[i..i + len], i + len));
      if len > 0 {
        out := out + {buf[i..i + len]};
      }
      i := i + len;
    }
    return Ok(out);
  }

  /** The raw entries from index `i` on if the rest is well framed, empty ones included. */
  function FramesFrom(buf: Bytes, i: nat): Option<seq<OpId>>
    requires i <= |buf|
    decreases |buf| - i
  {
    if i == |buf| then Some([])
    else
      match EntryAt(buf, i)
      case Err(_) => None
      case Ok((id, next)) =>
        match FramesFrom(buf, next)
        case None => None
        case Some(ids) => Some([id] + ids)
  }

  function Frames(buf: Bytes): Option<seq<OpId>> {
    FramesFrom(buf, 0)
  }

  lemma FramesStep(buf: Bytes, i: nat, id: OpId, next: nat, ids: seq<OpId>)
    requires i < |buf| && EntryAt(buf, i) == Ok((id, next)) && FramesFrom(buf, next) == Some(ids)
    ensures FramesFrom(buf, i) == Some([id] + ids)
  {
  }

  lemma {:induction false} FramesFromJoin(pre: Bytes, fs: seq<OpId>)
    requires AllFit(fs)
    ensures FramesFrom(pre + Join(fs), |pre|) == Some(fs)
    decreases |fs|
  {
    var buf := pre + Join(fs);
    if fs != [] {
      var head := Be32(|fs[0]|) + fs[0];
      var tail := Join(fs[1..]);
      assert pre + (head + tail) == (pre + head) + tail;
      EntryOfJoined(pre, fs[0], tail);
      FramesFromJoin(pre + head, fs[1..]);
      FramesStep(buf, |pre|, fs[0], |pre + head|, fs[1..]);
      assert fs == [fs[0]] + fs[1..];
    }
  }

  /** Framing has one reading: a buffer parses as `fs` iff it is their concatenation. */
  lemma FramesInvertJoin(fs: seq<OpId>)
    requires AllFit(fs)
    ensures Frames(Join(fs)) == Some(fs)
  {
    FramesFromJoin([], fs);
    assert [] + Join(fs) == Join(fs);
  }

  lemma {:induction false} JoinInvertsFrames(buf: Bytes, i: nat)
    requires i <= |buf| && FramesFrom(buf, i).Some?
    ensures AllFit(FramesFrom(buf, i).value) && Join(FramesFrom(buf, i).value) == buf[i..]
    decreases |buf| - i
  {
    if i < |buf| {
      JoinedOfEntry(buf, i);
      var (id, next) := EntryAt(buf, i).value;
      JoinInvertsFrames(buf, next);
      assert FramesFrom(buf, i).value[1..] == FramesFrom(buf, next).value;
    }
  }

  ghost function NonEmptyOf(fs: seq<OpId>): set<OpId> {
    set f | f in fs && |f| > 0
  }

  lemma NonEmptyOfTail(fs: seq<OpId>)
    requires fs != []
    ensures NonEmptyOf(fs) == NonEmptyOf(fs[1..]) + if |fs[0]| > 0 then {fs[0]} else {}
  {
    assert fs == [fs[0]] + fs[1..];
  }

  lemma {:induction false} DecodeFromFrames(buf: Bytes, i: nat, out: set<OpId>)
    requires i <= |buf|
    ensures DecodeFrom(buf, i, out).Ok? <==> FramesFrom(buf, i).Some?
    ensures FramesFrom(buf, i).Some? ==> DecodeFrom(buf, i, out) == Ok(out + NonEmptyOf(FramesFrom(buf, i).value))
    decreases |buf| - i
  {
    if i == |buf| {
      assert out + NonEmptyOf([]) == out;
    } else if EntryAt(buf, i).Ok? {
      var (id, next) := EntryAt(buf, i).value;
      DecodeFromFrames(buf, next, Admit(out, id));
      if FramesFrom(buf, next).Some? {
        var fs := FramesFrom(buf, i).value;
        assert fs[1..] == FramesFrom(buf, next).value;
        NonEmptyOfTail(fs);
        assert out + NonEmptyOf(fs) == Admit(out, id) + NonEmptyOf(fs[1..]);
      }
    }
  }

  /**
   * `decode` succeeds exactly on buffers it can consume completely, and then
   * yields the non-empty entries, whatever their order or multiplicity.
   */
  lemma DecodeMeaning(buf: Bytes)
    ensures Decode(buf).Ok? <==> exists fs :: AllFit(fs) && buf == Join(fs)
    ensures forall fs :: AllFit(fs) && buf == Join(fs) ==> Decode(buf) == Ok(NonEmptyOf(fs))
  {
    DecodeFromFrames(buf, 0, {});
    if Decode(buf).Ok? { JoinInvertsFrames(buf, 0); }
    forall fs | AllFit(fs) && buf == Join(fs)
      ensures Decode(buf) == Ok(NonEmptyOf(fs))
    {
      FramesInvertJoin(fs);
      assert {} + NonEmptyOf(fs) == NonEmptyOf(fs);
    }
  }

  // ---- What the errors say ----------------------------------------------

  /** A rest that is not empty and holds no whole entry. */
  predicate CutShort(tail: Bytes) {
    0 < |tail| < 4 || (|tail| >= 4 && |tail| - 4 < FromBe32(tail[..4]))
  }

  /** The error for it: how many bytes of a prefix, or how long the entry should be and what is left of it. */
  function Complaint(tail: Bytes): DecodeError
    requires CutShort(tail)
  {
    if |tail| < 4 then TruncatedPrefix(|tail|) else TruncatedEntry(FromBe32(tail[..4]), |tail| - 4)
  }

  lemma StopsHere(pre: Bytes, tail: Bytes, out: set<OpId>)
    requires CutShort(tail)
    ensures DecodeFrom(pre + tail, |pre|, out) == Err(Complaint(tail))
  {
    assert |tail| >= 4 ==> (pre + tail)[|pre|..|pre| + 4] == tail[..4];
  }

  lemma DecodePasses(pre: Bytes, id: OpId, post: Bytes, out: set<OpId>)
    requires |id| < U32_LIMIT
    ensures var head := Be32(|id|) + id;
            DecodeFrom(pre + (head + post), |pre|, out) == DecodeFrom((pre + head) + post, |pre + head|, Admit(out, id))
  {
    EntryOfJoined(pre, id, post);
    assert (pre + (Be32(|id|) + id)) + post == pre + (Be32(|id|) + id + post);
  }

  lemma {:induction false} DecodeStops(pre: Bytes, fs: seq<OpId>, tail: Bytes, out: set<OpId>)
    requires AllFit(fs) && CutShort(tail)
    ensures DecodeFrom(pre + (Join(fs) + tail), |pre|, out) == Err(Complaint(tail))
    decreases |fs|
  {
    if fs == [] {
      assert Join(fs) + tail == tail;
      StopsHere(pre, tail, out);
    } else {
      var head, post := Be32(|fs[0]|) + fs[0], Join(fs[1..]) + tail;
      assert Join(fs) + tail == head + post;
      DecodePasses(pre, fs[0], post, out);
      DecodeStops(pre + head, fs[1..], tail, Admit(out, fs[0]));
    }
  }

  /** Every buffer is some whole entries and a rest that is empty or cut short. */
  lemma {:induction false} SplitFrom(buf: Bytes, i: nat) returns (fs: seq<OpId>, tail: Bytes)
    requires i <= |buf|
    ensures AllFit(fs) && buf[i..] == Join(fs) + tail && (tail == [] || CutShort(tail))
    decreases |buf| - i
  {
    if i == |buf| {
      fs, tail := [], [];
    } else if EntryAt(buf, i).Err? {
      fs, tail := [], buf[i..];
      assert |tail| >= 4 ==> buf[i..i + 4] == tail[..4];
    } else {
      JoinedOfEntry(buf, i);
      var (id, next) := EntryAt(buf, i).value;
      var rest;
      rest, tail := SplitFrom(buf, next);
      fs := [id] + rest;
      assert fs[1..] == rest;
      assert Be32(|id|) + id + (Join(rest) + tail) == Join(fs) + tail;
    }
  }

  /**
   * Every buffer that `decode` refuses is some whole entries followed by a rest
   * that is cut short, and the error describes that rest.
   */
  lemma DecodeErrorMeans(buf: Bytes)
    ensures Decode(buf).Err? <==> exists fs, tail :: AllFit(fs) && CutShort(tail) && buf == Join(fs) + tail
    ensures forall fs, tail :: AllFit(fs) && CutShort(tail) && buf == Join(fs) + tail ==> Decode(buf) == Err(Complaint(tail))
  {
    forall fs, tail | AllFit(fs) && CutShort(tail) && buf == Join(fs) + tail ensures Decode(buf) == Err(Complaint(tail)) {
      DecodeStops([], fs, tail, {});
      assert [] + (Join(fs) + tail) == buf;
    }
    if Decode(buf).Err? {
      var fs, tail := SplitFrom(buf, 0);
      assert buf[0..] == buf;
      if tail == [] {
        assert Join(fs) + tail == Join(fs);
        DecodeMeaning(buf);
      }
      assert AllFit(fs) && CutShort(tail) && buf == Join(fs) + tail;
    }
  }

  // ---- Canonical form ---------------------------------------------------

  /** The form `encode` gives a set of real ids: strictly ascending, nothing empty. */
  predicate Canonical(buf: Bytes) {
    Frames(buf).Some? && Ascending(Frames(buf).value) && NoneEmpty(Frames(buf).value)
  }

  /** Ids the protocol handles: non-empty and short enough for the length prefix. */
  predicate RealIds(ids: set<OpId>) {
    forall id :: id in ids ==> 0 < |id| < U32_LIMIT
  }

  /** `decode` of an encoding is the set itself, minus an empty id if it held one. */
  lemma EncodeThenDecode(ids: set<OpId>)
    requires Encodable(ids)
    ensures Decode(Encoding(ids)) == Ok(ids - {[]})
    ensures RealIds(ids) ==> Decode(Encoding(ids)) == Ok(ids) && Canonical(Encoding(ids))
  {
    var order := Order(ids);
    OrderFits(ids);
    OrderAscends(ids);
    DecodeMeaning(Encoding(ids));
    assert NonEmptyOf(order) == Elems(order) - {[]};
    if RealIds(ids) {
      assert ids - {[]} == ids;
      FramesInvertJoin(order);
      forall i | 0 <= i < |order| ensures |order[i]| > 0 { assert order[i] in Elems(order); }
    }
  }

  /** `encode` separates different sets, even ones that hold an empty id. */
  lemma EncodeInjective(a: set<OpId>, b: set<OpId>)
    requires Encodable(a) && Encodable(b) && Encoding(a) == Encoding(b)
    ensures a == b
  {
    OrderFits(a);
    OrderFits(b);
    FramesInvertJoin(Order(a));
    FramesInvertJoin(Order(b));
    OrderAscends(a);
    OrderAscends(b);
  }

  lemma DecodedFrames(buf: Bytes)
    requires Decode(buf).Ok?
    ensures Frames(buf).Some? && AllFit(Frames(buf).value)
    ensures Join(Frames(buf).value) == buf
    ensures Decode(buf).value == NonEmptyOf(Frames(buf).value)
  {
    DecodeFromFrames(buf, 0, {});
    JoinInvertsFrames(buf, 0);
    assert buf[0..] == buf;
  }

  lemma DecodedIsReal(buf: Bytes)
    requires Decode(buf).Ok?
    ensures RealIds(Decode(buf).value)
  {
    DecodedFrames(buf);
    var fs := Frames(buf).value;
    forall f | f in NonEmptyOf(fs) ensures |f| < U32_LIMIT {
      var i :| 0 <= i < |fs| && fs[i] == f;
    }
  }

  lemma CanonicalIsEncoding(buf: Bytes)
    requires Canonical(buf) && Decode(buf).Ok? && RealIds(Decode(buf).value)
    ensures Encoding(Decode(buf).value) == buf
  {
    DecodedFrames(buf);
    var fs := Frames(buf).value;
    forall f | f in fs ensures |f| > 0 { var i :| 0 <= i < |fs| && fs[i] == f; }
    assert NonEmptyOf(fs) == Elems(fs);
    AscendingIsOrder(fs);
  }

  /** Re-encoding a decoded buffer gives it back exactly when it was canonical. */
  lemma DecodeThenEncode(buf: Bytes)
    requires Decode(buf).Ok?
    ensures RealIds(Decode(buf).value)
    ensures Encoding(Decode(buf).value) == buf <==> Canonical(buf)
  {
    DecodedIsReal(buf);
    if Canonical(buf) {
      CanonicalIsEncoding(buf);
    } else {
      EncodeThenDecode(Decode(buf).value);
    }
  }
}
