/**
 * `update_op_heads` as a step system: any number of callers share one catalog
 * ref, and every RPC of every caller is one atomic step of the run.
 */
module OpHeadsProtocol {
  import opened Common
  import opened OpHeadsCodec

  type ClientId = nat

  const MAX_RETRIES: nat := 64

  /** The set a ref value stands for; an absent ref reads as the empty set. */
  function Heads(v: RefValue): set<OpId> {
    if v.None? || Decode(v.value).Err? then {} else Decode(v.value).value
  }

  /** The set an iteration wants to install. */
  function Advanced(current: set<OpId>, oldIds: set<OpId>, newId: OpId): set<OpId> {
    current - oldIds + {newId}
  }

  // ---- States -----------------------------------------------------------

  datatype Outcome = Advance | BadValue | RpcError | Panic | Exhausted

  datatype Phase =
    | Reading                                                // about to call read_set
    | Confirming                                             // about to call expected_for_empty
    | Swapping(current: set<OpId>, expected: RefValue)       // about to call cas_catalog_ref
    | Done(outcome: Outcome)

  /**
   * One call. Times are counted in swaps applied to the ref: `startedAt` when
   * the call began, `firstReadAt` when this iteration's read_set ran, `readAt`
   * when the value used as the CAS precondition was read. `conflicts` keeps the
   * `readAt` of every iteration that lost its CAS.
   */
  datatype Call = Call(oldIds: set<OpId>, newId: OpId, phase: Phase, startedAt: nat,
                       firstRead: RefValue, firstReadAt: nat, readAt: nat, conflicts: seq<nat>)

  /** One successful CAS, with what its iteration had seen. */
  datatype Swap = Swap(client: ClientId, oldIds: set<OpId>, newId: OpId,
                       firstRead: RefValue, firstReadAt: nat, before: RefValue, after: RefValue)

  datatype State = State(initial: RefValue, ref: RefValue, calls: map<ClientId, Call>, log: seq<Swap>)

  datatype Action =
    | Start(c: ClientId, oldIds: set<OpId>, newId: OpId)
    | Read(c: ClientId)
    | Confirm(c: ClientId)
    | Cas(c: ClientId)
    | CasReplyLost(c: ClientId)   // the swap may apply; the caller sees an error
    | CasOverlapped(c: ClientId)  // refused because of a swap since the read, even one since undone
    | Abort(c: ClientId)          // an RPC fails without effect, or the caller dies

  predicate InPhase(s: State, c: ClientId, p: Phase -> bool) {
    c in s.calls && p(s.calls[c].phase)
  }

  // ---- Steps (an action that is not enabled leaves the state alone) -------

  function WithPhase(s: State, c: ClientId, p: Phase): State
    requires c in s.calls
  {
    s.(calls := s.calls[c := s.calls[c].(phase := p)])
  }

  function StartStep(s: State, c: ClientId, oldIds: set<OpId>, newId: OpId): State {
    if (c in s.calls && !s.calls[c].phase.Done?) || !RealIds({newId}) then s
    else s.(calls := s.calls[c := Call(oldIds, newId, Reading, |s.log|, None, 0, 0, [])])
  }

  /** Where an iteration goes once read_set has seen `v`. */
  ghost function AfterRead(v: RefValue): Phase {
    if v.Some? && Decode(v.value).Err? then Done(BadValue)
    else if Heads(v) == {} then Confirming
    else
      DecodedIsReal(v.value);
      Swapping(Heads(v), Some(Encoding(Heads(v))))
  }

  ghost function ReadStep(s: State, c: ClientId): State {
    if !InPhase(s, c, (p: Phase) => p.Reading?) then s
    else
      var call := s.calls[c].(firstRead := s.ref, firstReadAt := |s.log|, readAt := |s.log|);
      s.(calls := s.calls[c := call.(phase := AfterRead(s.ref))])
  }

  function ConfirmStep(s: State, c: ClientId): State {
    if !InPhase(s, c, (p: Phase) => p.Confirming?) then s
    else s.(calls := s.calls[c := s.calls[c].(phase := Swapping({}, s.ref), readAt := |s.log|)])
  }

  /** The catalog's side of the CAS: the new ref value and log. */
  ghost function CasEffect(s: State, c: ClientId): State
    requires c in s.calls && s.calls[c].phase.Swapping?
    requires Encodable(Advanced(s.calls[c].phase.current, s.calls[c].oldIds, s.calls[c].newId))
  {
    var call := s.calls[c];
    if s.ref != call.phase.expected then s
    else
      var after := Some(Encoding(Advanced(call.phase.current, call.oldIds, call.newId)));
      s.(ref := after,
         log := s.log + [Swap(c, call.oldIds, call.newId, call.firstRead, call.firstReadAt, s.ref, after)])
  }

  ghost function CasStep(s: State, c: ClientId, replyLost: bool): State {
    if !InPhase(s, c, (p: Phase) => p.Swapping?) then s
    else
      var call := s.calls[c];
      if !Encodable(Advanced(call.phase.current, call.oldIds, call.newId)) then WithPhase(s, c, Done(Panic))
      else
        var s' := CasEffect(s, c);
        if replyLost then WithPhase(s', c, Done(RpcError))
        else if s.ref == call.phase.expected then WithPhase(s', c, Done(Advance))
        else Conflicted(s, c)
  }

  /** The caller is told `Conflict`: it tries again, or gives up after the last retry. */
  function Conflicted(s: State, c: ClientId): State
    requires c in s.calls
  {
    var call := s.calls[c];
    var conflicts := call.conflicts + [call.readAt];
    var phase := if |conflicts| >= MAX_RETRIES then Done(Exhausted) else Reading;
    s.(calls := s.calls[c := call.(phase := phase, conflicts := conflicts)])
  }

  /** A store that compares versions, not values, may refuse a swap whose value has come back. */
  function OverlappedStep(s: State, c: ClientId): State {
    if !InPhase(s, c, (p: Phase) => p.Swapping?) || s.calls[c].readAt >= |s.log| then s else Conflicted(s, c)
  }

  function AbortStep(s: State, c: ClientId): State {
    if !InPhase(s, c, (p: Phase) => !p.Done?) then s else WithPhase(s, c, Done(RpcError))
  }

  ghost function Step(s: State, a: Action): State {
    match a
    case Start(c, oldIds, newId) => StartStep(s, c, oldIds, newId)
    case Read(c) => ReadStep(s, c)
    case Confirm(c) => ConfirmStep(s, c)
    case Cas(c) => CasStep(s, c, false)
    case CasReplyLost(c) => CasStep(s, c, true)
    case CasOverlapped(c) => OverlappedStep(s, c)
    case Abort(c) => AbortStep(s, c)
  }

  ghost function Run(s: State, acts: seq<Action>): State
    decreases |acts|
  {
    if acts == [] then s else Run(Step(s, acts[0]), acts[1..])
  }

  /** A ref value that an undisturbed iteration can replace: absent, without heads, or canonical. */
  predicate Replaceable(v: RefValue) {
    v.None? || (Decode(v.value).Ok? && (Heads(v) == {} || Canonical(v.value)))
  }

  predicate Init(s: State) {
    Replaceable(s.initial) && s.ref == s.initial && s.calls == map[] && s.log == []
  }

  // ---- The invariant ----------------------------------------------------

  /** The ref after the first `k` swaps. */
  function ValueAt(s: State, k: nat): RefValue
    requires k <= |s.log|
  {
    if k == 0 then s.initial else s.log[k - 1].after
  }

  ghost predicate SwapInv(s: State, i: nat)
    requires i < |s.log|
  {
    var w := s.log[i];
    && w.firstReadAt <= i
    && w.firstRead == ValueAt(s, w.firstReadAt)
    && w.before == ValueAt(s, i)
    && (w.firstRead == w.before || Heads(w.firstRead) == {})
    && RealIds({w.newId}) && RealIds(Heads(w.firstRead))
    && Encodable(Advanced(Heads(w.firstRead), w.oldIds, w.newId))
    && w.after == Some(Encoding(Advanced(Heads(w.firstRead), w.oldIds, w.newId)))
  }

  predicate Increasing(ks: seq<nat>) {
    forall i, j :: 0 <= i < j < |ks| ==> ks[i] < ks[j]
  }

  /** The call's swaps so far are all someone else's, and each lost CAS has its own culprit. */
  predicate Charged(s: State, c: ClientId, upTo: nat)
    requires c in s.calls
  {
    var call := s.calls[c];
    && upTo <= |s.log|
    && Increasing(call.conflicts)
    && (forall i :: 0 <= i < |call.conflicts| ==> call.startedAt <= call.conflicts[i] < upTo)
    && (forall k :: call.startedAt <= k < |s.log| ==> s.log[k].client != c)
  }

  /** The call's own swap is in the history. */
  predicate HasSwapped(s: State, c: ClientId)
    requires c in s.calls
  {
    exists k {:trigger s.log[k]} ::
      && s.calls[c].startedAt <= k < |s.log| && s.log[k].client == c
      && s.log[k].oldIds == s.calls[c].oldIds && s.log[k].newId == s.calls[c].newId
  }

  ghost predicate SeenInv(s: State, call: Call) {
    && call.startedAt <= call.firstReadAt <= |s.log|
    && call.firstRead == ValueAt(s, call.firstReadAt)
  }

  ghost predicate CallInv(s: State, c: ClientId)
    requires c in s.calls
  {
    var call := s.calls[c];
    && call.startedAt <= |s.log|
    && RealIds({call.newId})
    && match call.phase
       case Reading => Charged(s, c, |s.log|) && |call.conflicts| < MAX_RETRIES
       case Confirming =>
         SeenInv(s, call) && Heads(call.firstRead) == {} && Charged(s, c, call.firstReadAt) && |call.conflicts| < MAX_RETRIES
       case Swapping(current, expected) =>
         && SeenInv(s, call) && Charged(s, c, call.firstReadAt) && |call.conflicts| < MAX_RETRIES
         && current == Heads(call.firstRead)
         && call.firstReadAt <= call.readAt <= |s.log|
         && expected == ValueAt(s, call.readAt)
         && (call.firstRead == expected || Heads(call.firstRead) == {})
       case Done(Exhausted) => Charged(s, c, |s.log|) && |call.conflicts| == MAX_RETRIES
       case Done(Advance) => HasSwapped(s, c)
       case Done(RpcError) => true
       case Done(_) => false
  }

  ghost predicate Inv(s: State) {
    && (forall k {:trigger ValueAt(s, k)} :: 0 <= k <= |s.log| ==> Replaceable(ValueAt(s, k)))
    && s.ref == ValueAt(s, |s.log|)
    && (forall i :: 0 <= i < |s.log| ==> SwapInv(s, i))
    && (forall c :: c in s.calls ==> CallInv(s, c))
  }

  lemma HeadsReencode(v: RefValue)
    requires Replaceable(v) && Heads(v) != {}
    ensures RealIds(Heads(v)) && v == Some(Encoding(Heads(v)))
  {
    DecodeThenEncode(v.value);
  }

  /** What a swap writes is canonical and non-empty, and decodes to the set it encodes. */
  lemma EncodedHeads(ids: set<OpId>)
    requires RealIds(ids) && ids != {}
    ensures Encodable(ids) && Heads(Some(Encoding(ids))) == ids
    ensures Replaceable(Some(Encoding(ids))) && Canonical(Encoding(ids))
  {
    EncodeThenDecode(ids);
  }

  lemma HeadsReal(v: RefValue)
    ensures RealIds(Heads(v))
  {
    if v.Some? && Decode(v.value).Ok? { DecodedIsReal(v.value); }
  }

  /** Steps that touch only caller `c` keep every other part of the invariant. */
  lemma LocalStepInv(s: State, s': State, c: ClientId)
    requires Inv(s) && s'.initial == s.initial && s'.ref == s.ref && s'.log == s.log
    requires c in s'.calls && s'.calls == s.calls[c := s'.calls[c]]
    requires CallInv(s', c)
    ensures Inv(s')
  {
    assert forall k {:trigger ValueAt(s', k)} :: 0 <= k <= |s.log| ==> ValueAt(s', k) == ValueAt(s, k);
    forall i | 0 <= i < |s'.log| ensures SwapInv(s', i) { assert SwapInv(s, i); }
    forall d | d in s'.calls ensures CallInv(s', d) {
      if d != c { assert CallInv(s, d); }
    }
  }

  lemma ReadInv(s: State, c: ClientId)
    requires Inv(s)
    ensures Inv(ReadStep(s, c))
  {
    if c in s.calls && s.calls[c].phase.Reading? {
      assert CallInv(s, c);
      assert Replaceable(ValueAt(s, |s.log|));
      if Heads(s.ref) != {} { HeadsReencode(s.ref); }
      LocalStepInv(s, ReadStep(s, c), c);
    }
  }

  /** One more swap by `c` keeps what is known of every other caller. */
  lemma OthersUnmoved(s: State, s': State, c: ClientId, d: ClientId)
    requires s'.initial == s.initial && |s'.log| == |s.log| + 1 && s'.log[..|s.log|] == s.log
    requires s'.log[|s.log|].client == c && d != c
    requires d in s.calls && d in s'.calls && s'.calls[d] == s.calls[d] && CallInv(s, d)
    ensures CallInv(s', d)
  {
    assert forall k {:trigger ValueAt(s', k)} :: 0 <= k <= |s.log| ==> ValueAt(s', k) == ValueAt(s, k);
  }

  lemma SwapInvKept(s: State, s': State, i: nat)
    requires s'.initial == s.initial && |s'.log| == |s.log| + 1 && s'.log[..|s.log|] == s.log
    requires i < |s.log| && SwapInv(s, i)
    ensures SwapInv(s', i)
  {
    assert s'.log[i] == s.log[i];
    assert forall k {:trigger ValueAt(s', k)} :: 0 <= k <= |s.log| ==> ValueAt(s', k) == ValueAt(s, k);
  }

  lemma AppendedInv(s: State, s': State, c: ClientId)
    requires Inv(s) && s'.initial == s.initial
    requires |s'.log| == |s.log| + 1 && s'.log[..|s.log|] == s.log && s'.ref == s'.log[|s.log|].after
    requires s'.log[|s.log|].client == c && SwapInv(s', |s.log|) && Replaceable(s'.ref)
    requires c in s'.calls && s'.calls == s.calls[c := s'.calls[c]] && CallInv(s', c)
    ensures Inv(s')
  {
    assert forall k {:trigger ValueAt(s', k)} :: 0 <= k <= |s.log| ==> ValueAt(s', k) == ValueAt(s, k);
    forall i | 0 <= i < |s'.log| ensures SwapInv(s', i) {
      if i < |s.log| { SwapInvKept(s, s', i); }
    }
    forall d | d in s'.calls ensures CallInv(s', d) {
      if d != c { OthersUnmoved(s, s', c, d); }
    }
  }

  lemma SwapRecorded(s: State, c: ClientId, done: Phase)
    requires c in s.calls && s.calls[c].phase.Swapping? && s.ref == s.calls[c].phase.expected && s.calls[c].startedAt <= |s.log|
    requires Encodable(Advanced(s.calls[c].phase.current, s.calls[c].oldIds, s.calls[c].newId))
    ensures HasSwapped(WithPhase(CasEffect(s, c), c, done), c)
  {
    assert WithPhase(CasEffect(s, c), c, done).log[|s.log|].client == c;
  }

  lemma CasApplied(s: State, c: ClientId, done: Phase)
    requires Inv(s) && c in s.calls && s.calls[c].phase.Swapping?
    requires s.ref == s.calls[c].phase.expected && (done == Done(Advance) || done == Done(RpcError))
    requires Encodable(Advanced(s.calls[c].phase.current, s.calls[c].oldIds, s.calls[c].newId))
    ensures Inv(WithPhase(CasEffect(s, c), c, done))
  {
    var s' := WithPhase(CasEffect(s, c), c, done);
    var call := s.calls[c];
    assert CallInv(s, c);
    HeadsReal(call.firstRead);
    EncodedHeads(Advanced(Heads(call.firstRead), call.oldIds, call.newId));
    assert ValueAt(s', call.firstReadAt) == ValueAt(s, call.firstReadAt);
    SwapRecorded(s, c, done);
    AppendedInv(s, s', c);
  }

  /** A lost CAS means the ref moved after the read, so its `readAt` is a fresh charge. */
  lemma ConflictCharged(s: State, c: ClientId)
    requires Inv(s) && c in s.calls && s.calls[c].phase.Swapping? && s.calls[c].readAt < |s.log|
    ensures Inv(Conflicted(s, c))
  {
    var s' := Conflicted(s, c);
    assert CallInv(s, c);
    assert Charged(s', c, |s'.log|);
    LocalStepInv(s, s', c);
  }

  lemma CasRefused(s: State, c: ClientId, replyLost: bool)
    requires Inv(s) && c in s.calls && s.calls[c].phase.Swapping? && s.ref != s.calls[c].phase.expected
    ensures Inv(CasStep(s, c, replyLost))
  {
    var s' := CasStep(s, c, replyLost);
    assert CallInv(s, c);
    HeadsReal(s.calls[c].firstRead);
    if replyLost {
      LocalStepInv(s, s', c);
    } else {
      assert s.calls[c].readAt < |s.log|;
      ConflictCharged(s, c);
    }
  }

  lemma CasInv(s: State, c: ClientId, replyLost: bool)
    requires Inv(s)
    ensures Inv(CasStep(s, c, replyLost))
  {
    if c in s.calls && s.calls[c].phase.Swapping? {
      if s.ref != s.calls[c].phase.expected {
        CasRefused(s, c, replyLost);
      } else {
        assert CallInv(s, c);
        HeadsReal(s.calls[c].firstRead);
        CasApplied(s, c, Done(if replyLost then RpcError else Advance));
      }
    }
  }

  lemma StepInv(s: State, a: Action)
    requires Inv(s)
    ensures Inv(Step(s, a))
  {
    var c := a.c;
    match a
    case Read(_) => ReadInv(s, c);
    case Cas(_) => CasInv(s, c, false);
    case CasReplyLost(_) => CasInv(s, c, true);
    case CasOverlapped(_) => if OverlappedStep(s, c) != s { ConflictCharged(s, c); }
    case _ =>
      if Step(s, a) != s {
        if c in s.calls { assert CallInv(s, c); }
        LocalStepInv(s, Step(s, a), c);
      }
  }

  lemma {:induction false} RunInv(s: State, acts: seq<Action>)
    requires Inv(s)
    ensures Inv(Run(s, acts))
    decreases |acts|
  {
    if acts != [] {
      StepInv(s, acts[0]);
      RunInv(Step(s, acts[0]), acts[1..]);
    }
  }

  lemma InitInv(s: State)
    requires Init(s)
    ensures Inv(s)
  {
  }

  lemma {:induction false} LogOnlyGrows(s: State, acts: seq<Action>)
    ensures s.log <= Run(s, acts).log && Run(s, acts).initial == s.initial
    decreases |acts|
  {
    if acts != [] { LogOnlyGrows(Step(s, acts[0]), acts[1..]); }
  }

  // ---- What every run guarantees ----------------------------------------

  /** Once a CAS has succeeded, or if heads were there to begin with, the ref is canonical and names a head forever. */
  lemma NonEmptyForever(s: State, acts: seq<Action>, more: seq<Action>)
    requires Init(s) && (Run(s, acts).log != [] || Heads(Run(s, acts).ref) != {})
    ensures var v := Run(Run(s, acts), more).ref; v.Some? && Canonical(v.value) && Heads(v) != {}
  {
    var mid := Run(s, acts);
    InitInv(s);
    RunInv(s, acts);
    RunInv(mid, more);
    LogOnlyGrows(mid, more);
    StaysPresent(mid, Run(mid, more));
  }

  lemma StaysPresent(s: State, end: State)
    requires Inv(s) && Inv(end) && (s.log != [] || Heads(s.ref) != {}) && s.log <= end.log && s.initial == end.initial
    ensures end.ref.Some? && Canonical(end.ref.value) && Heads(end.ref) != {}
  {
    assert Replaceable(ValueAt(end, |end.log|));
    if |end.log| == 0 {
      assert s.ref == ValueAt(s, 0);
    } else {
      SwapHeads(end, |end.log| - 1);
    }
  }

  /** A swap that turns the heads at its instant into those heads, minus `old_ids`, plus `new_id`. */
  predicate Exact(w: Swap) {
    Heads(w.after) == Advanced(Heads(w.before), w.oldIds, w.newId)
  }

  /** Its read_set saw no heads, yet its second read found another value: the swap discards heads unseen. */
  predicate Blind(w: Swap) {
    Heads(w.firstRead) == {} && w.firstRead != w.before
  }

  /**
   * Every successful CAS of every run is exact, unless its two reads straddled
   * the first heads; then it is exact iff it happens to drop nothing.
   */
  lemma SwapExactIff(s: State, acts: seq<Action>, i: nat)
    requires Init(s) && i < |Run(s, acts).log|
    ensures var w := Run(s, acts).log[i];
            && (Exact(w) <==> !Blind(w) || Heads(w.before) <= w.oldIds + {w.newId})
            && (Blind(w) ==> w.firstReadAt == 0 && Heads(s.initial) == {} && Heads(w.after) == {w.newId})
  {
    InitInv(s);
    RunInv(s, acts);
    LogOnlyGrows(s, acts);
    var end := Run(s, acts);
    SwapHeads(end, i);
    var w := end.log[i];
    assert SwapInv(end, i);
    if w.firstReadAt > 0 { SwapHeads(end, w.firstReadAt - 1); }
  }

  lemma SwapHeads(s: State, i: nat)
    requires Inv(s) && i < |s.log|
    ensures var w := s.log[i];
            && Heads(w.after) == Advanced(Heads(w.firstRead), w.oldIds, w.newId) && w.newId in Heads(w.after)
            && w.after.Some? && Canonical(w.after.value)
  {
    assert SwapInv(s, i);
    var w := s.log[i];
    EncodedHeads(Advanced(Heads(w.firstRead), w.oldIds, w.newId));
  }

  /** An iteration begun once there are heads succeeds only exactly. */
  lemma LaterIterationsExact(s: State, acts: seq<Action>, i: nat)
    requires Init(s) && i < |Run(s, acts).log|
    requires Heads(s.initial) != {} || Run(s, acts).log[i].firstReadAt > 0
    ensures Exact(Run(s, acts).log[i])
  {
    SwapExactIff(s, acts, i);
  }

  /** A head disappears only through an update that names it, or a blind one. */
  lemma HeadLossIsBlamed(s: State, acts: seq<Action>, h: OpId, i: nat, j: nat)
    requires Init(s)
    requires i <= j <= |Run(s, acts).log|
    requires h in Heads(ValueAt(Run(s, acts), i)) && h !in Heads(ValueAt(Run(s, acts), j))
    ensures exists k :: i <= k < j && (h in Run(s, acts).log[k].oldIds || Blind(Run(s, acts).log[k]))
  {
    InitInv(s);
    RunInv(s, acts);
    HeadLoss(Run(s, acts), h, i, j);
  }

  lemma {:induction false} HeadLoss(s: State, h: OpId, i: nat, j: nat)
    requires Inv(s) && i <= j <= |s.log|
    requires h in Heads(ValueAt(s, i)) && h !in Heads(ValueAt(s, j))
    ensures exists k :: i <= k < j && (h in s.log[k].oldIds || Blind(s.log[k]))
  {
    var w := s.log[j - 1];
    if h !in Heads(ValueAt(s, j - 1)) {
      HeadLoss(s, h, i, j - 1);
    } else if h !in w.oldIds {
      assert SwapInv(s, j - 1);
      SwapHeads(s, j - 1);
      assert Blind(w);
    }
  }

  /**
   * A call that gives up after 64 retries lost each of them to a different
   * swap, made by someone else while the call was running.
   */
  lemma ExhaustionIsCharged(s: State, acts: seq<Action>, c: ClientId)
    requires Init(s)
    requires var end := Run(s, acts); c in end.calls && end.calls[c].phase == Done(Exhausted)
    ensures var end := Run(s, acts);
            var call := end.calls[c];
            && |call.conflicts| == MAX_RETRIES
            && Increasing(call.conflicts)
            && forall i :: 0 <= i < MAX_RETRIES ==>
                 call.startedAt <= call.conflicts[i] < |end.log| && end.log[call.conflicts[i]].client != c
  {
    InitInv(s);
    RunInv(s, acts);
    assert CallInv(Run(s, acts), c);
  }

  // ---- Answers --------------------------------------------------------------

  /** Every call and every swap was asked for in `acts`, and every error was caused there. */
  ghost predicate Accounted(s: State, acts: seq<Action>) {
    && (forall c :: c in s.calls ==> Start(c, s.calls[c].oldIds, s.calls[c].newId) in acts)
    && (forall i :: 0 <= i < |s.log| ==> Start(s.log[i].client, s.log[i].oldIds, s.log[i].newId) in acts)
    && (forall c :: c in s.calls && s.calls[c].phase == Done(RpcError) ==> Abort(c) in acts || CasReplyLost(c) in acts)
  }

  /** What a step can bring in: a call that it starts, ... */
  lemma CallOrigin(s: State, a: Action, c: ClientId)
    requires c in Step(s, a).calls
    ensures var call := Step(s, a).calls[c];
            || (c in s.calls && call.oldIds == s.calls[c].oldIds && call.newId == s.calls[c].newId)
            || a == Start(c, call.oldIds, call.newId)
  {
  }

  /** ... an error that it causes, ... */
  lemma ErrorOrigin(s: State, a: Action, c: ClientId)
    requires c in Step(s, a).calls && Step(s, a).calls[c].phase == Done(RpcError)
    ensures (c in s.calls && s.calls[c].phase == Done(RpcError)) || a == Abort(c) || a == CasReplyLost(c)
  {
  }

  /** ... or a swap of a call there was. */
  lemma SwapOrigins(s: State, a: Action)
    ensures var s' := Step(s, a);
            || s'.log == s.log
            || (a.c in s.calls && |s'.log| == |s.log| + 1 && s'.log[..|s.log|] == s.log && s'.log[|s.log|].client == a.c
                && s'.log[|s.log|].oldIds == s.calls[a.c].oldIds && s'.log[|s.log|].newId == s.calls[a.c].newId)
  {
  }

  lemma StepAccounted(s: State, past: seq<Action>, a: Action)
    requires Accounted(s, past)
    ensures Accounted(Step(s, a), past + [a])
  {
    SwapOrigins(s, a);
    var s', now := Step(s, a), past + [a];
    assert a in now && forall b :: b in past ==> b in now;
    forall c | c in s'.calls ensures Start(c, s'.calls[c].oldIds, s'.calls[c].newId) in now { CallOrigin(s, a, c); }
    forall c | c in s'.calls && s'.calls[c].phase == Done(RpcError) ensures Abort(c) in now || CasReplyLost(c) in now {
      ErrorOrigin(s, a, c);
    }
    forall i | 0 <= i < |s'.log| ensures Start(s'.log[i].client, s'.log[i].oldIds, s'.log[i].newId) in now {
      if i < |s.log| { assert s'.log[i] == s.log[i]; }
    }
  }

  lemma {:induction false} RunAccounted(s: State, past: seq<Action>, acts: seq<Action>)
    requires Accounted(s, past)
    ensures Accounted(Run(s, acts), past + acts)
    decreases |acts|
  {
    if acts == [] {
      assert past + acts == past;
    } else {
      StepAccounted(s, past, acts[0]);
      RunAccounted(Step(s, acts[0]), past + [acts[0]], acts[1..]);
      assert past + [acts[0]] + acts[1..] == past + acts;
    }
  }

  /**
   * In every run: a call told that it advanced has one of its own swaps in the
   * history, with the ids it asked for; an error was a failed request or a lost
   * reply; nothing is reported unreadable; and every swap was asked for by the
   * client it is recorded for.
   */
  lemma AnswersAreEarned(s: State, acts: seq<Action>)
    requires Init(s)
    ensures var end := Run(s, acts);
            && Accounted(end, acts)
            && (forall c :: c in end.calls && end.calls[c].phase == Done(Advance) ==> HasSwapped(end, c))
            && (forall c :: c in end.calls ==> end.calls[c].phase != Done(BadValue) && end.calls[c].phase != Done(Panic))
  {
    InitInv(s);
    RunInv(s, acts);
    RunAccounted(s, [], acts);
    assert [] + acts == acts;
    var end := Run(s, acts);
    forall c | c in end.calls
      ensures end.calls[c].phase == Done(Advance) ==> HasSwapped(end, c)
      ensures end.calls[c].phase != Done(BadValue) && end.calls[c].phase != Done(Panic)
    {
      assert CallInv(end, c);
    }
  }

  // ---- What the code does not guarantee -----------------------------------

  lemma Run3(s: State, a: Action, b: Action, c: Action)
    ensures Run(s, [a, b, c]) == Step(Step(Step(s, a), b), c)
  {
    var s1 := Step(s, a);
    assert [a, b, c][1..] == [b, c] && [b, c][1..] == [c] && [c][1..] == [];
    assert Run(Step(Step(s1, b), c), []) == Step(Step(s1, b), c);
    assert Run(Step(s1, b), [c]) == Run(Step(Step(s1, b), c), []);
    assert Run(s1, [b, c]) == Run(Step(s1, b), [c]);
  }

  lemma {:induction false} RunConcat(s: State, a: seq<Action>, b: seq<Action>)
    ensures Run(s, a + b) == Run(Run(s, a), b)
    decreases |a|
  {
    if a == [] {
      assert a + b == b;
    } else {
      assert (a + b)[1..] == a[1..] + b;
      RunConcat(Step(s, a[0]), a[1..], b);
    }
  }

  /** An iteration with nobody else around; `Confirm` is idle unless it is needed. */
  function SoloTurn(c: ClientId): seq<Action> {
    [Read(c), Confirm(c), Cas(c)]
  }

  /**
   * An undisturbed iteration, on any ref value at all, advances the ref iff the
   * value is replaceable; on a readable but non-canonical one it loses its CAS
   * to nobody.
   */
  lemma SoloIteration(s: State, c: ClientId)
    requires c in s.calls && s.calls[c].phase.Reading? && RealIds({s.calls[c].newId})
    ensures var call := s.calls[c];
            var end := Run(s, SoloTurn(c));
            && c in end.calls
            && (end.calls[c].phase == Done(Advance) <==> Replaceable(s.ref))
            && (Replaceable(s.ref) ==> Heads(end.ref) == Advanced(Heads(s.ref), call.oldIds, call.newId))
            && (s.ref.Some? && Decode(s.ref.value).Err? ==> end.calls[c].phase == Done(BadValue))
            && (!Replaceable(s.ref) ==> end.ref == s.ref && end.log == s.log)
            && (!Replaceable(s.ref) && Decode(s.ref.value).Ok? ==>
                  && end.calls[c].newId == call.newId
                  && |end.calls[c].conflicts| == |call.conflicts| + 1
                  && end.calls[c].phase ==
                     if |call.conflicts| + 1 >= MAX_RETRIES then Done(Exhausted) else Reading)
  {
    Run3(s, Read(c), Confirm(c), Cas(c));
    var v := s.ref;
    HeadsReal(v);
    EncodedHeads(Advanced(Heads(v), s.calls[c].oldIds, s.calls[c].newId));
    if v.Some? && Decode(v.value).Ok? { DecodeThenEncode(v.value); }
    var s1 := ReadStep(s, c);
    var s2 := ConfirmStep(s1, c);
    if AfterRead(v).Confirming? {
      assert s2.calls[c].phase == Swapping({}, v);
    } else {
      assert s2 == s1;
    }
  }

  /**
   * A whole update with nobody else around, from any state in which the caller is
   * idle: on a replaceable value it succeeds at once and installs exactly what the
   * request asks for, in one swap that leaves everybody else alone.
   */
  lemma SoloUpdate(s: State, c: ClientId, oldIds: set<OpId>, newId: OpId)
    requires (c in s.calls ==> s.calls[c].phase.Done?) && RealIds({newId}) && Replaceable(s.ref)
    ensures var end := Run(s, [Start(c, oldIds, newId)] + SoloTurn(c));
            && c in end.calls && end.calls[c].phase == Done(Advance)
            && Heads(end.ref) == Heads(s.ref) - oldIds + {newId}
            && |end.log| == |s.log| + 1 && s.log <= end.log
            && forall d :: d != c && d in s.calls ==> d in end.calls && end.calls[d] == s.calls[d]
  {
    var s1 := Step(s, Start(c, oldIds, newId));
    RunConcat(s, [Start(c, oldIds, newId)], SoloTurn(c));
    assert [Start(c, oldIds, newId)][1..] == [];
    assert Run(s, [Start(c, oldIds, newId)]) == s1;
    SoloIteration(s1, c);
    Run3(s1, Read(c), Confirm(c), Cas(c));
    SoloLog(s1, c);
  }

  /** A turn changes nobody else's call, and a winning one adds one swap. */
  lemma SoloLog(s: State, c: ClientId)
    requires c in s.calls
    ensures var end := Step(Step(Step(s, Read(c)), Confirm(c)), Cas(c));
            && s.log <= end.log
            && (c in end.calls && s.calls[c].phase.Reading? && end.calls[c].phase == Done(Advance) ==> |end.log| == |s.log| + 1)
            && forall d :: d != c && d in s.calls ==> d in end.calls && end.calls[d] == s.calls[d]
  {
  }

  function SoloTurns(c: ClientId, n: nat): seq<Action> {
    if n == 0 then [] else SoloTurn(c) + SoloTurns(c, n - 1)
  }

  /** So a non-canonical ref value makes a lone caller use up all its retries. */
  lemma {:induction false} NonCanonicalExhausts(s: State, c: ClientId)
    requires c in s.calls && s.calls[c].phase.Reading? && RealIds({s.calls[c].newId})
    requires |s.calls[c].conflicts| < MAX_RETRIES
    requires s.ref.Some? && Decode(s.ref.value).Ok? && Heads(s.ref) != {} && !Canonical(s.ref.value)
    ensures var end := Run(s, SoloTurns(c, MAX_RETRIES - |s.calls[c].conflicts|));
            c in end.calls && end.calls[c].phase == Done(Exhausted) && end.log == s.log && end.ref == s.ref
    decreases MAX_RETRIES - |s.calls[c].conflicts|
  {
    var n := MAX_RETRIES - |s.calls[c].conflicts|;
    SoloIteration(s, c);
    RunConcat(s, SoloTurn(c), SoloTurns(c, n - 1));
    if n > 1 {
      NonCanonicalExhausts(Run(s, SoloTurn(c)), c);
    }
  }

  const ALICE: ClientId := 0
  const BOB: ClientId := 1

  /** Bob reads before Alice creates the ref, and looks again only afterwards. */
  function CreationRace(a: OpId, b: OpId): seq<Action> {
    [Start(ALICE, {}, a), Start(BOB, {}, b), Read(BOB)]
      + SoloTurn(ALICE)
      + [Confirm(BOB), Cas(BOB), Abort(ALICE)]
  }

  lemma RaceOpens(v: RefValue, a: OpId, b: OpId)
    requires RealIds({a, b}) && Replaceable(v) && Heads(v) == {}
    ensures var s := Run(State(v, v, map[], []), [Start(ALICE, {}, a), Start(BOB, {}, b), Read(BOB)]);
            && s.ref == v && s.log == []
            && s.calls == map[ALICE := Call({}, a, Reading, 0, None, 0, 0, []),
                              BOB := Call({}, b, Confirming, 0, v, 0, 0, [])]
  {
    Run3(State(v, v, map[], []), Start(ALICE, {}, a), Start(BOB, {}, b), Read(BOB));
  }

  lemma AliceCreates(s: State, a: OpId)
    requires RealIds({a}) && Replaceable(s.ref) && Heads(s.ref) == {} && s.log == []
    requires ALICE in s.calls && s.calls[ALICE] == Call({}, a, Reading, 0, None, 0, 0, [])
    ensures var end := Run(s, SoloTurn(ALICE));
            && Heads(end.ref) == {a} && |end.log| == 1
            && ALICE in end.calls && end.calls == s.calls[ALICE := end.calls[ALICE]]
            && end.calls[ALICE].phase == Done(Advance)
  {
    Run3(s, Read(ALICE), Confirm(ALICE), Cas(ALICE));
    EncodedHeads({a});
    assert Advanced({}, {}, a) == {a};
  }

  lemma BobOverwrites(s: State, v: RefValue, b: OpId)
    requires RealIds({b}) && |s.log| == 1 && Heads(v) == {}
    requires ALICE in s.calls && s.calls[ALICE].phase.Done?
    requires BOB in s.calls && s.calls[BOB] == Call({}, b, Confirming, 0, v, 0, 0, [])
    ensures var end := Run(s, [Confirm(BOB), Cas(BOB), Abort(ALICE)]);
            && Heads(end.ref) == {b} && BOB in end.calls && end.calls[BOB].phase == Done(Advance)
            && ALICE in end.calls && end.calls[ALICE] == s.calls[ALICE]
            && |end.log| == 2
            && end.log[1].firstRead == v && end.log[1].before == s.ref && end.log[1].oldIds == {}
            && end.log[1].newId == b && end.log[1].after == end.ref
  {
    Run3(s, Confirm(BOB), Cas(BOB), Abort(ALICE));
    EncodedHeads({b});
    assert Advanced({}, {}, b) == {b};
  }

  /**
   * From any ref without heads, absent or holding an empty value: neither update
   * names the other's id, both succeed, and only the second head is left.
   */
  lemma CreationRaceLosesHead(v: RefValue, a: OpId, b: OpId)
    requires RealIds({a, b}) && a != b && Replaceable(v) && Heads(v) == {}
    ensures var end := Run(State(v, v, map[], []), CreationRace(a, b));
            && ALICE in end.calls && end.calls[ALICE].phase == Done(Advance)
            && BOB in end.calls && end.calls[BOB].phase == Done(Advance)
            && Heads(end.ref) == {b}
            && |end.log| == 2 && Blind(end.log[1]) && !Exact(end.log[1])
  {
    var s0 := State(v, v, map[], []);
    var pre := [Start(ALICE, {}, a), Start(BOB, {}, b), Read(BOB)];
    var post := [Confirm(BOB), Cas(BOB), Abort(ALICE)];
    RunConcat(s0, pre, SoloTurn(ALICE));
    RunConcat(s0, pre + SoloTurn(ALICE), post);
    RaceOpens(v, a, b);
    var s3 := Run(s0, pre);
    AliceCreates(s3, a);
    var s6 := Run(s3, SoloTurn(ALICE));
    BobOverwrites(s6, v, b);
    assert a in Advanced({a}, {}, b);
  }
}
