/**
 * `S3RemoteStore::cas_ref` on one key: a GET, a local compare, then a PUT or
 * DELETE guarded by If-None-Match or If-Match (sections 13.1.2 and 13.1.1 of
 * RFC 9110), and a second GET after a 412. Requests of any number of callers
 * interleave; the object store executes each one atomically.
 */
module S3Cas {
  import opened Common

  type CallId = nat
  type ETag = Bytes

  /** What the store holds under the key. */
  datatype Object = Absent | Present(body: Bytes, etag: ETag)

  function ValueOf(o: Object): RefValue {
    if o.Absent? then None else Some(o.body)
  }

  /** The key's history: the first object, then one entry for each effective write. */
  datatype Write = Write(stored: Object, writer: CallId)

  datatype Phase =
    | Getting
    | Comparing(seen: Object)
    | Writing(seen: Object)        // the conditional PUT or DELETE is about to run
    | Rereading                    // after a 412
    | Returned(outcome: CasOutcome)
    | Errored                      // a transport or service error reached the caller

  /** `began` and `ended` are positions in the history; `refused` records a 412. */
  datatype Call = Call(expected: RefValue, desired: RefValue, phase: Phase, began: nat, ended: nat, refused: bool)

  datatype State = State(initial: Object, writes: seq<Write>, calls: map<CallId, Call>)

  /** The object after the first `k` writes. */
  function ObjectAt(s: State, k: nat): Object
    requires k <= |s.writes|
  {
    if k == 0 then s.initial else s.writes[k - 1].stored
  }

  function Current(s: State): Object {
    ObjectAt(s, |s.writes|)
  }

  datatype Action =
    | Begin(id: CallId, expected: RefValue, desired: RefValue)
    | Get(id: CallId)
    | Compare(id: CallId)
    | Apply(id: CallId, etag: ETag, replyLost: bool)  // `etag` is what the store gives a new object
    | Reread(id: CallId)
    | Fail(id: CallId)

  // ---- Steps ------------------------------------------------------------

  function Moved(s: State, id: CallId, phase: Phase): State
    requires id in s.calls
  {
    s.(calls := s.calls[id := s.calls[id].(phase := phase, ended := |s.writes|)])
  }

  /** Steps 2 and 3 of `cas_ref` up to the request: return, or issue a conditional write. */
  function AfterCompare(call: Call, seen: Object): Phase {
    if ValueOf(seen) != call.expected then Returned(Conflict(ValueOf(seen)))
    else if call.desired.None? && seen.Absent? then Returned(Updated)
    else Writing(seen)
  }

  /** If-None-Match: * when the GET found nothing, If-Match: <etag> otherwise. */
  predicate Precondition(current: Object, seen: Object) {
    if seen.Absent? then current.Absent? else current.Present? && current.etag == seen.etag
  }

  function Desired(call: Call, etag: ETag): Object {
    if call.desired.None? then Absent else Present(call.desired.value, etag)
  }

  /** Equal entity tags mean equal bodies: the one promise asked of the store. */
  predicate TagAgrees(s: State, body: Bytes, etag: ETag) {
    forall k {:trigger ObjectAt(s, k)} ::
      0 <= k <= |s.writes| && ObjectAt(s, k).Present? && ObjectAt(s, k).etag == etag ==> ObjectAt(s, k).body == body
  }

  function WriteStep(s: State, id: CallId, etag: ETag, replyLost: bool): State
    requires id in s.calls && s.calls[id].phase.Writing?
  {
    var call := s.calls[id];
    if !Precondition(Current(s), call.phase.seen) then
      s.(calls := s.calls[id := call.(phase := if replyLost then Errored else Rereading, ended := |s.writes|, refused := true)])
    else
      Moved(s.(writes := s.writes + [Write(Desired(call, etag), id)]), id,
            if replyLost then Errored else Returned(Updated))
  }

  predicate Enabled(s: State, a: Action) {
    if a.Begin? then a.id !in s.calls
    else
      && a.id in s.calls
      && var call := s.calls[a.id];
         match a
         case Begin(_, _, _) => false
         case Get(_) => call.phase.Getting?
         case Compare(_) => call.phase.Comparing?
         case Apply(_, etag, _) =>
           && call.phase.Writing?
           && (Precondition(Current(s), call.phase.seen) && call.desired.Some? ==>
                 TagAgrees(s, call.desired.value, etag))
         case Reread(_) => call.phase.Rereading?
         case Fail(_) => !call.phase.Returned?
  }

  function Step(s: State, a: Action): State {
    if !Enabled(s, a) then s
    else
      match a
      case Begin(id, expected, desired) =>
        s.(calls := s.calls[id := Call(expected, desired, Getting, |s.writes|, |s.writes|, false)])
      case Get(id) => Moved(s, id, Comparing(Current(s)))
      case Compare(id) => Moved(s, id, AfterCompare(s.calls[id], s.calls[id].phase.seen))
      case Apply(id, etag, replyLost) => WriteStep(s, id, etag, replyLost)
      case Reread(id) => Moved(s, id, Returned(Conflict(ValueOf(Current(s)))))
      case Fail(id) => Moved(s, id, Errored)
  }

  function Run(s: State, acts: seq<Action>): State
    decreases |acts|
  {
    if acts == [] then s else Run(Step(s, acts[0]), acts[1..])
  }

  predicate Init(s: State) {
    s.writes == [] && s.calls == map[]
  }

  // ---- Invariant --------------------------------------------------------

  predicate SameTagSameBody(a: Object, b: Object) {
    a.Present? && b.Present? && a.etag == b.etag ==> a.body == b.body
  }

  predicate TagsSound(s: State) {
    forall j, k {:trigger ObjectAt(s, j), ObjectAt(s, k)} ::
      0 <= j <= |s.writes| && 0 <= k <= |s.writes| ==> SameTagSameBody(ObjectAt(s, j), ObjectAt(s, k))
  }

  /** Write `k` is the successful atomic compare-and-swap of the call that made it. */
  predicate IsSwap(s: State, k: nat)
    requires k < |s.writes|
  {
    var id := s.writes[k].writer;
    && id in s.calls
    && s.calls[id].began <= k < s.calls[id].ended
    && ValueOf(ObjectAt(s, k)) == s.calls[id].expected
    && ValueOf(ObjectAt(s, k + 1)) == s.calls[id].desired
    && (s.calls[id].phase.Errored? || s.calls[id].phase == Returned(Updated))
  }

  /** The object `seen` was current at some moment of the call. */
  predicate SeenDuring(s: State, call: Call, seen: Object) {
    exists k :: call.began <= k <= call.ended && k <= |s.writes| && ObjectAt(s, k) == seen
  }

  predicate HeldDuring(s: State, call: Call, v: RefValue) {
    exists k :: call.began <= k <= call.ended && k <= |s.writes| && ValueOf(ObjectAt(s, k)) == v
  }

  /** Some other call wrote while this one ran. */
  predicate ForeignWrite(s: State, id: CallId)
    requires id in s.calls
  {
    exists k {:trigger s.writes[k]} ::
      s.calls[id].began <= k < s.calls[id].ended && k < |s.writes| && s.writes[k].writer != id
  }

  /** What a reported value says about the expected one. */
  predicate ConflictInv(s: State, call: Call, v: RefValue)
    requires call.ended <= |s.writes|
  {
    if call.refused then v == ValueOf(ObjectAt(s, call.ended)) else v != call.expected
  }

  predicate CallInv(s: State, id: CallId)
    requires id in s.calls
  {
    var call := s.calls[id];
    && call.began <= call.ended <= |s.writes|
    && (call.refused ==> ForeignWrite(s, id))
    && (call.phase.Getting? || call.phase.Comparing? || call.phase.Writing? ==> !call.refused)
    && (call.phase.Rereading? ==> call.refused)
    && match call.phase
       case Comparing(seen) => SeenDuring(s, call, seen)
       case Writing(seen) => SeenDuring(s, call, seen) && AfterCompare(call, seen) == Writing(seen)
       case Returned(Conflict(actual)) => HeldDuring(s, call, actual) && ConflictInv(s, call, actual)
       case Returned(Updated) =>
         (call.expected == call.desired == None && HeldDuring(s, call, None)) ||
         exists k {:trigger s.writes[k]} :: 0 <= k < |s.writes| && s.writes[k].writer == id
       case _ => true
  }

  predicate AllSwaps(s: State) {
    forall k {:trigger s.writes[k]} :: 0 <= k < |s.writes| ==> IsSwap(s, k)
  }

  predicate WritersDistinct(writes: seq<Write>) {
    forall j, k :: 0 <= j < k < |writes| ==> writes[j].writer != writes[k].writer
  }

  predicate AllCallsInv(s: State) {
    forall id :: id in s.calls ==> CallInv(s, id)
  }

  predicate Inv(s: State) {
    TagsSound(s) && AllSwaps(s) && WritersDistinct(s.writes) && AllCallsInv(s)
  }

  lemma HistoryKept(s: State, s': State, k: nat)
    requires s'.initial == s.initial && |s'.writes| >= |s.writes| && s'.writes[..|s.writes|] == s.writes
    requires k <= |s.writes|
    ensures ObjectAt(s', k) == ObjectAt(s, k)
  {
    if k > 0 { assert s'.writes[..|s.writes|][k - 1] == s.writes[k - 1]; }
  }

  lemma CallKept(s: State, s': State, id: CallId)
    requires s'.initial == s.initial && |s'.writes| >= |s.writes| && s'.writes[..|s.writes|] == s.writes
    requires id in s.calls && id in s'.calls && s'.calls[id] == s.calls[id] && CallInv(s, id)
    ensures CallInv(s', id)
  {
    var call := s.calls[id];
    forall k | 0 <= k <= |s.writes| ensures ObjectAt(s', k) == ObjectAt(s, k) { HistoryKept(s, s', k); }
    match call.phase
    case Comparing(seen) =>
      var k :| call.began <= k <= call.ended && k <= |s.writes| && ObjectAt(s, k) == seen;
      assert ObjectAt(s', k) == seen;
    case Writing(seen) =>
      var k :| call.began <= k <= call.ended && k <= |s.writes| && ObjectAt(s, k) == seen;
      assert ObjectAt(s', k) == seen;
    case Returned(Conflict(actual)) =>
      var k :| call.began <= k <= call.ended && k <= |s.writes| && ValueOf(ObjectAt(s, k)) == actual;
      assert ValueOf(ObjectAt(s', k)) == actual;
    case Returned(Updated) =>
      if k :| 0 <= k < |s.writes| && s.writes[k].writer == id {
        assert s'.writes[..|s.writes|][k].writer == id;
      } else {
        var k :| call.began <= k <= call.ended && k <= |s.writes| && ValueOf(ObjectAt(s, k)) == None;
        assert ValueOf(ObjectAt(s', k)) == None;
      }
    case _ =>
  }

  /** A step that writes nothing moves one call only. */
  lemma QuietStepInv(s: State, id: CallId, call': Call)
    requires Inv(s)
    requires CallInv(s.(calls := s.calls[id := call']), id)
    requires id in s.calls ==> !s.calls[id].phase.Returned? && call'.began == s.calls[id].began
    requires id in s.calls ==> call'.ended >= s.calls[id].ended
    requires id in s.calls ==> call'.expected == s.calls[id].expected && call'.desired == s.calls[id].desired
    requires id in s.calls && s.calls[id].phase.Errored? ==> call'.phase.Errored?
    ensures Inv(s.(calls := s.calls[id := call']))
  {
    var s' := s.(calls := s.calls[id := call']);
    assert forall k {:trigger ObjectAt(s', k)} :: 0 <= k <= |s.writes| ==> ObjectAt(s', k) == ObjectAt(s, k);
    forall k | 0 <= k < |s'.writes| ensures IsSwap(s', k) { assert IsSwap(s, k); }
    forall d | d in s'.calls ensures CallInv(s', d) {
      if d != id { CallKept(s, s', d); }
    }
  }

  lemma TagsStaySound(s: State, s': State, w: Write)
    requires TagsSound(s) && s'.initial == s.initial && s'.writes == s.writes + [w]
    requires w.stored.Present? ==> TagAgrees(s, w.stored.body, w.stored.etag)
    ensures TagsSound(s')
  {
    forall k | 0 <= k <= |s.writes| ensures ObjectAt(s', k) == ObjectAt(s, k) { HistoryKept(s, s', k); }
    forall j, k | 0 <= j <= |s'.writes| && 0 <= k <= |s'.writes|
      ensures SameTagSameBody(ObjectAt(s', j), ObjectAt(s', k))
    {
      assert j <= |s.writes| ==> ObjectAt(s', j) == ObjectAt(s, j);
      assert k <= |s.writes| ==> ObjectAt(s', k) == ObjectAt(s, k);
    }
  }

  /** A write that passes its precondition replaces exactly the value the call compared. */
  lemma WriteIsSwap(s: State, id: CallId, etag: ETag, replyLost: bool)
    requires Inv(s) && Enabled(s, Apply(id, etag, replyLost))
    requires Precondition(Current(s), s.calls[id].phase.seen)
    ensures IsSwap(WriteStep(s, id, etag, replyLost), |s.writes|)
  {
    var s' := WriteStep(s, id, etag, replyLost);
    var call := s.calls[id];
    var n := |s.writes|;
    assert CallInv(s, id);
    var at :| call.began <= at <= call.ended && at <= n && ObjectAt(s, at) == call.phase.seen;
    assert SameTagSameBody(ObjectAt(s, at), ObjectAt(s, n));
    HistoryKept(s, s', n);
    assert ObjectAt(s', n + 1) == Desired(call, etag);
  }

  lemma SwapKept(s: State, s': State, k: nat, id: CallId)
    requires s'.initial == s.initial && |s'.writes| >= |s.writes| && s'.writes[..|s.writes|] == s.writes
    requires k < |s.writes| && IsSwap(s, k) && s.writes[k].writer != id
    requires id in s'.calls && s'.calls == s.calls[id := s'.calls[id]]
    ensures s'.writes[k] == s.writes[k] && IsSwap(s', k)
  {
    assert s'.writes[..|s.writes|][k] == s.writes[k];
    HistoryKept(s, s', k);
    HistoryKept(s, s', k + 1);
  }

  lemma AppendedInv(s: State, s': State, id: CallId, w: Write)
    requires AllSwaps(s) && AllCallsInv(s)
    requires s'.initial == s.initial && s'.writes == s.writes + [w] && w.writer == id
    requires id in s'.calls && s'.calls == s.calls[id := s'.calls[id]]
    requires IsSwap(s', |s.writes|) && CallInv(s', id)
    requires forall k :: 0 <= k < |s.writes| ==> s.writes[k].writer != id
    ensures AllSwaps(s') && AllCallsInv(s')
  {
    forall k | 0 <= k < |s'.writes| ensures IsSwap(s', k) {
      if k < |s.writes| {
        assert IsSwap(s, k) by { assert s.writes[k] == s.writes[k]; }
        SwapKept(s, s', k, id);
      }
    }
    forall d | d in s'.calls ensures CallInv(s', d) {
      if d != id { CallKept(s, s', d); }
    }
  }

  lemma WrittenInv(s: State, id: CallId, etag: ETag, replyLost: bool)
    requires Inv(s) && Enabled(s, Apply(id, etag, replyLost))
    requires Precondition(Current(s), s.calls[id].phase.seen)
    ensures Inv(WriteStep(s, id, etag, replyLost))
  {
    var s' := WriteStep(s, id, etag, replyLost);
    var w := Write(Desired(s.calls[id], etag), id);
    assert s'.writes == s.writes + [w] && s'.writes[|s.writes|] == w;
    TagsStaySound(s, s', w);
    WriteIsSwap(s, id, etag, replyLost);
    NobodyWroteYet(s, id);
    assert CallInv(s, id);
    AppendedInv(s, s', id, w);
  }

  /** A call that has not finished has no write in the history. */
  lemma NobodyWroteYet(s: State, id: CallId)
    requires Inv(s) && id in s.calls && s.calls[id].phase.Writing?
    ensures forall k :: 0 <= k < |s.writes| ==> s.writes[k].writer != id
  {
    forall k | 0 <= k < |s.writes| ensures s.writes[k].writer != id { assert IsSwap(s, k); }
  }

  lemma QuietInv(s: State, a: Action)
    requires Inv(s) && Enabled(s, a)
    requires a.Apply? ==> !Precondition(Current(s), s.calls[a.id].phase.seen)
    ensures Inv(Step(s, a))
  {
    NewPhaseInv(s, a);
    if a.id in s.calls { assert CallInv(s, a.id); }
    QuietStepInv(s, a.id, Step(s, a).calls[a.id]);
  }

  lemma StepInv(s: State, a: Action)
    requires Inv(s)
    ensures Inv(Step(s, a))
  {
    if Enabled(s, a) {
      if a.Apply? && Precondition(Current(s), s.calls[a.id].phase.seen) {
        WrittenInv(s, a.id, a.etag, a.replyLost);
      } else {
        QuietInv(s, a);
      }
    }
  }

  /** A 412 means another call wrote since the GET. */
  lemma RefusedInv(s: State, a: Action)
    requires Inv(s) && Enabled(s, a) && a.Apply? && !Precondition(Current(s), s.calls[a.id].phase.seen)
    ensures CallInv(Step(s, a), a.id)
  {
    var at := OvertakenSinceGet(s, a.id);
    NobodyWroteYet(s, a.id);
    assert Step(s, a).writes[at].writer != a.id;
    assert ForeignWrite(Step(s, a), a.id);
  }

  /** If the object is no longer what the GET saw, some write followed it. */
  lemma OvertakenSinceGet(s: State, id: CallId) returns (at: nat)
    requires id in s.calls && s.calls[id].phase.Writing? && CallInv(s, id)
    requires !Precondition(Current(s), s.calls[id].phase.seen)
    ensures s.calls[id].began <= at < |s.writes|
  {
    var call := s.calls[id];
    var k :| call.began <= k <= call.ended && k <= |s.writes| && ObjectAt(s, k) == call.phase.seen;
    at := k;
  }

  lemma ComparedInv(s: State, a: Action)
    requires Inv(s) && Enabled(s, a) && a.Compare?
    ensures CallInv(Step(s, a), a.id)
  {
    var s' := Step(s, a);
    var call := s.calls[a.id];
    assert CallInv(s, a.id);
    var k :| call.began <= k <= call.ended && k <= |s.writes| && ObjectAt(s, k) == call.phase.seen;
    assert ObjectAt(s', k) == call.phase.seen;
  }

  lemma ReadInv(s: State, a: Action)
    requires Inv(s) && Enabled(s, a) && (a.Get? || a.Reread?)
    ensures CallInv(Step(s, a), a.id)
  {
    var s' := Step(s, a);
    assert CallInv(s, a.id);
    assert ObjectAt(s', |s.writes|) == Current(s);
    if a.Reread? { ForeignKept(s, s', a.id); }
  }

  /** What another call wrote stays written, and the call only gets longer. */
  lemma ForeignKept(s: State, s': State, id: CallId)
    requires id in s.calls && id in s'.calls && ForeignWrite(s, id)
    requires s'.writes == s.writes && s'.calls[id].began == s.calls[id].began && s.calls[id].ended <= s'.calls[id].ended
    ensures ForeignWrite(s', id)
  {
    var k :| s.calls[id].began <= k < s.calls[id].ended && k < |s.writes| && s.writes[k].writer != id;
    assert s'.writes[k].writer != id;
  }

  lemma NewPhaseInv(s: State, a: Action)
    requires Inv(s) && Enabled(s, a)
    requires a.Apply? ==> !Precondition(Current(s), s.calls[a.id].phase.seen)
    ensures Step(s, a).writes == s.writes && a.id in Step(s, a).calls && CallInv(Step(s, a), a.id)
  {
    match a
    case Begin(_, _, _) =>
    case Get(_) => ReadInv(s, a);
    case Reread(_) => ReadInv(s, a);
    case Compare(_) => ComparedInv(s, a);
    case Apply(_, _, _) => RefusedInv(s, a);
    case Fail(id) =>
      assert CallInv(s, id);
      if s.calls[id].refused { ForeignKept(s, Step(s, a), id); }
  }

  lemma {:induction false} RunInv(s: State, acts: seq<Action>)
    requires Inv(s)
    ensures Inv(Run(s, acts))
    decreases |acts|
  {
    if acts != [] {
      StepInv(s, acts[0]);
      RunInv(Step(s, acts[0]), acts[1..]);
    }
  }

  // ---- Linearization ------------------------------------------------------

  /** The instant of a successful swap: the value was `expected` and became `desired`. */
  predicate SwapsAt(s: State, id: CallId, k: nat) {
    && id in s.calls && k < |s.writes| && s.writes[k].writer == id
    && s.calls[id].began <= k < s.calls[id].ended
    && ValueOf(ObjectAt(s, k)) == s.calls[id].expected
    && ValueOf(ObjectAt(s, k + 1)) == s.calls[id].desired
  }

  /**
   * In every run, every effective write is one successful atomic CAS of the
   * call that issued it, inside that call; no call writes twice; a call that
   * answered `Updated` has such an instant (or asked to delete nothing and saw
   * nothing); and a `Conflict` carries a value the ref held during the call.
   */
  lemma CasLinearizes(s: State, acts: seq<Action>)
    requires Init(s)
    ensures var end := Run(s, acts);
            && (forall k {:trigger end.writes[k]} :: 0 <= k < |end.writes| ==> SwapsAt(end, end.writes[k].writer, k))
            && WritersDistinct(end.writes)
            && (forall id {:trigger end.calls[id]} :: id in end.calls && end.calls[id].phase == Returned(Updated) ==>
                  (exists k :: SwapsAt(end, id, k)) ||
                  (end.calls[id].expected == end.calls[id].desired == None && HeldDuring(end, end.calls[id], None)))
            && (forall id, v :: id in end.calls && end.calls[id].phase == Returned(Conflict(v)) ==>
                  HeldDuring(end, end.calls[id], v))
  {
    RunInv(s, acts);
    var end := Run(s, acts);
    forall k | 0 <= k < |end.writes| ensures SwapsAt(end, end.writes[k].writer, k) { assert IsSwap(end, k); }
    forall id | id in end.calls && end.calls[id].phase == Returned(Updated)
      ensures (exists k :: SwapsAt(end, id, k)) ||
              (end.calls[id].expected == end.calls[id].desired == None && HeldDuring(end, end.calls[id], None))
    {
      assert CallInv(end, id);
      if k :| 0 <= k < |end.writes| && end.writes[k].writer == id {
        assert SwapsAt(end, id, k);
      }
    }
    forall id, v | id in end.calls && end.calls[id].phase == Returned(Conflict(v))
      ensures HeldDuring(end, end.calls[id], v)
    {
      assert CallInv(end, id);
    }
  }

  // ---- When a conflict names the expected value -----------------------------

  /**
   * In every run a `Conflict` names the expected value iff the write got a 412
   * and the ref held the expected value again at the second GET. That takes a
   * write by another call inside this one; without any, the value differs.
   */
  lemma ConflictNamesExpectedIff(s: State, acts: seq<Action>, id: CallId, v: RefValue)
    requires Init(s) && id in Run(s, acts).calls && Run(s, acts).calls[id].phase == Returned(Conflict(v))
    ensures var end := Run(s, acts);
            var call := end.calls[id];
            && call.began <= call.ended <= |end.writes|
            && (v == call.expected <==> call.refused && ValueOf(ObjectAt(end, call.ended)) == call.expected)
            && (call.refused ==> ForeignWrite(end, id))
            && (!ForeignWrite(end, id) ==> v != call.expected)
  {
    RunInv(s, acts);
    assert CallInv(Run(s, acts), id);
  }

  lemma {:induction false} RunConcat(s: State, a: seq<Action>, b: seq<Action>)
    ensures Run(s, a + b) == Run(Run(s, a), b)
    decreases |a|
  {
    if a == [] {
      assert a + b == b;
    } else {
      assert (a + b)[1..] == a[1..] + b;
      RunConcat(Step(s, a[0]), a[1..], b);
    }
  }

  lemma Run1(s: State, a: Action)
    ensures Run(s, [a]) == Step(s, a)
  {
    assert [a][1..] == [];
  }

  function Preparing(id: CallId, expected: RefValue, desired: RefValue): seq<Action> {
    [Begin(id, expected, desired)] + [Get(id)] + [Compare(id)]
  }

  /** An undisturbed GET and compare: the value seen decides what happens next. */
  lemma Prepared(s: State, id: CallId, expected: RefValue, desired: RefValue)
    requires id !in s.calls
    ensures var phase := if ValueOf(Current(s)) != expected then Returned(Conflict(ValueOf(Current(s))))
                         else if expected == desired == None then Returned(Updated)
                         else Writing(Current(s));
            Run(s, Preparing(id, expected, desired)) ==
              s.(calls := s.calls[id := Call(expected, desired, phase, |s.writes|, |s.writes|, false)])
  {
    RunConcat(s, [Begin(id, expected, desired)] + [Get(id)], [Compare(id)]);
    RunConcat(s, [Begin(id, expected, desired)], [Get(id)]);
    var s1 := Step(s, Begin(id, expected, desired));
    var s2 := Step(s1, Get(id));
    Run1(s, Begin(id, expected, desired));
    Run1(s1, Get(id));
    Run1(s2, Compare(id));
    var phase := AfterCompare(Call(expected, desired, Getting, 0, 0, false), Current(s));
    assert Step(s2, Compare(id)).calls == s.calls[id := Call(expected, desired, phase, |s.writes|, |s.writes|, false)];
  }

  /**
   * An undisturbed CAS that has something to write: the object becomes the desired
   * one, or goes, and the answer is `Updated`; if the reply is lost the write has
   * happened all the same and the caller gets an error.
   */
  lemma Swapped(s: State, id: CallId, expected: RefValue, desired: RefValue, etag: ETag, replyLost: bool)
    requires id !in s.calls && ValueOf(Current(s)) == expected && (desired.Some? || expected.Some?)
    requires desired.Some? ==> TagAgrees(s, desired.value, etag)
    ensures var end := Run(s, Preparing(id, expected, desired) + [Apply(id, etag, replyLost)]);
            && end.initial == s.initial
            && end.writes == s.writes + [Write(if desired.None? then Absent else Present(desired.value, etag), id)]
            && id in end.calls && end.calls == s.calls[id := end.calls[id]]
            && end.calls[id].phase == if replyLost then Errored else Returned(Updated)
  {
    RunConcat(s, Preparing(id, expected, desired), [Apply(id, etag, replyLost)]);
    Prepared(s, id, expected, desired);
    var s1 := Run(s, Preparing(id, expected, desired));
    assert forall k {:trigger ObjectAt(s1, k)} :: 0 <= k <= |s1.writes| ==> ObjectAt(s1, k) == ObjectAt(s, k);
    assert desired.Some? ==> TagAgrees(s1, desired.value, etag);
    Run1(s1, Apply(id, etag, replyLost));
  }

  /** The requests of an undisturbed CAS whose replies all arrive. */
  function SoloCas(id: CallId, expected: RefValue, desired: RefValue, etag: ETag): seq<Action> {
    Preparing(id, expected, desired) + [Apply(id, etag, false)]
  }

  /**
   * `cas_ref` with nobody else around, on any store: it answers `Updated` and the
   * key holds the desired value iff the key held the expected one; otherwise it
   * answers the value there is and writes nothing.
   */
  lemma SoloAnswer(s: State, id: CallId, expected: RefValue, desired: RefValue, etag: ETag)
    requires id !in s.calls && (desired.Some? ==> TagAgrees(s, desired.value, etag))
    ensures var was := ValueOf(Current(s));
            var end := Run(s, SoloCas(id, expected, desired, etag));
            && id in end.calls
            && end.calls[id].phase == Returned(if was == expected then Updated else Conflict(was))
            && ValueOf(Current(end)) == (if was == expected then desired else was)
            && (was != expected ==> end.writes == s.writes)
  {
    if ValueOf(Current(s)) == expected && (desired.Some? || expected.Some?) {
      Swapped(s, id, expected, desired, etag, false);
    } else {
      RunConcat(s, Preparing(id, expected, desired), [Apply(id, etag, false)]);
      Prepared(s, id, expected, desired);
      Run1(Run(s, Preparing(id, expected, desired)), Apply(id, etag, false));
    }
  }

  /** After a 412 the caller is told what the key holds when it looks again. */
  lemma RefusedAnswer(s: State, id: CallId, etag: ETag)
    requires id in s.calls && s.calls[id].phase.Writing? && !Precondition(Current(s), s.calls[id].phase.seen)
    ensures var end := Run(s, [Apply(id, etag, false)] + [Reread(id)]);
            id in end.calls && end.calls[id].phase == Returned(Conflict(ValueOf(Current(s)))) && end.writes == s.writes
  {
    RunConcat(s, [Apply(id, etag, false)], [Reread(id)]);
    Refused(s, id, etag);
    Run1(Run(s, [Apply(id, etag, false)]), Reread(id));
  }

  // ---- Errors are failures ---------------------------------------------------

  /** A request of call `id` failed, or its reply was lost. */
  predicate FaultOf(id: CallId, a: Action) {
    a == Fail(id) || (a.Apply? && a.id == id && a.replyLost)
  }

  ghost predicate Faulted(id: CallId, acts: seq<Action>) {
    exists a :: a in acts && FaultOf(id, a)
  }

  ghost predicate ErrorsExplained(s: State, acts: seq<Action>) {
    forall id :: id in s.calls && s.calls[id].phase.Errored? ==> Faulted(id, acts)
  }

  lemma StepExplained(s: State, past: seq<Action>, a: Action)
    requires ErrorsExplained(s, past)
    ensures ErrorsExplained(Step(s, a), past + [a])
  {
    var now := past + [a];
    forall id | id in Step(s, a).calls && Step(s, a).calls[id].phase.Errored? ensures Faulted(id, now) {
      if id in s.calls && s.calls[id].phase.Errored? {
        var b :| b in past && FaultOf(id, b);
        assert b in now;
      } else {
        assert a in now && FaultOf(id, a);
      }
    }
  }

  lemma {:induction false} RunExplained(s: State, past: seq<Action>, acts: seq<Action>)
    requires ErrorsExplained(s, past)
    ensures ErrorsExplained(Run(s, acts), past + acts)
    decreases |acts|
  {
    if acts == [] {
      assert past + acts == past;
    } else {
      StepExplained(s, past, acts[0]);
      RunExplained(Step(s, acts[0]), past + [acts[0]], acts[1..]);
      assert past + [acts[0]] + acts[1..] == past + acts;
    }
  }

  /** In every run a call errs only by a fault of its own; so a write that went through was answered `Updated` but for one. */
  lemma ErrorsAreFaults(s: State, acts: seq<Action>, k: nat)
    requires Init(s) && k < |Run(s, acts).writes|
    ensures var end := Run(s, acts);
            var id := end.writes[k].writer;
            && ErrorsExplained(end, acts)
            && id in end.calls && (end.calls[id].phase == Returned(Updated) || Faulted(id, acts))
  {
    RunInv(s, acts);
    RunExplained(s, [], acts);
    assert [] + acts == acts;
    assert IsSwap(Run(s, acts), k);
  }

  /** Call 0 prepares; call 1 changes the ref; call 0 gets its 412; call 2 changes it back; call 0 re-reads. */
  function ThereAndBack(v: Bytes, x: Bytes, w: Bytes, tagV: ETag, tagX: ETag): seq<Action> {
    Preparing(0, Some(v), Some(w))
      + (Preparing(1, Some(v), Some(x)) + [Apply(1, tagX, false)])
      + [Apply(0, tagV, false)]
      + (Preparing(2, Some(x), Some(v)) + [Apply(2, tagV, false)])
      + [Reread(0)]
  }

  /** After a 412 the reported value can be the very one the caller expected. */
  lemma ConflictCanNameExpected(v: Bytes, x: Bytes, w: Bytes, tagV: ETag, tagX: ETag)
    requires v != x && tagV != tagX
    ensures var end := Run(State(Present(v, tagV), [], map[]), ThereAndBack(v, x, w, tagV, tagX));
            0 in end.calls && end.calls[0].expected == Some(v) && end.calls[0].phase == Returned(Conflict(Some(v)))
  {
    var s0 := State(Present(v, tagV), [], map[]);
    var a := Preparing(0, Some(v), Some(w));
    var b := Preparing(1, Some(v), Some(x)) + [Apply(1, tagX, false)];
    var c := [Apply(0, tagV, false)];
    var d := Preparing(2, Some(x), Some(v)) + [Apply(2, tagV, false)];
    RunConcat(s0, a + b + c + d, [Reread(0)]);
    RunConcat(s0, a + b + c, d);
    RunConcat(s0, a + b, c);
    RunConcat(s0, a, b);
    Prepared(s0, 0, Some(v), Some(w));
    var s1 := Run(s0, a);
    assert TagAgrees(s1, x, tagX);
    Swapped(s1, 1, Some(v), Some(x), tagX, false);
    var s2 := Run(s1, b);
    assert Current(s2) == Present(x, tagX);
    Refused(s2, 0, tagV);
    var s3 := Run(s2, c);
    assert ObjectAt(s3, 0) == Present(v, tagV) && ObjectAt(s3, 1) == Present(x, tagX);
    assert TagAgrees(s3, v, tagV);
    Swapped(s3, 2, Some(x), Some(v), tagV, false);
    var s4 := Run(s3, d);
    assert Current(s4) == Present(v, tagV);
    Run1(s4, Reread(0));
  }

  lemma Refused(s: State, id: CallId, etag: ETag)
    requires id in s.calls && s.calls[id].phase.Writing? && !Precondition(Current(s), s.calls[id].phase.seen)
    ensures Run(s, [Apply(id, etag, false)]) ==
              s.(calls := s.calls[id := s.calls[id].(phase := Rereading, ended := |s.writes|, refused := true)])
  {
    Run1(s, Apply(id, etag, false));
  }
}
