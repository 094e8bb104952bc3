/**
 * `update_op_heads` with its catalog in an object store: the callers of
 * `OpHeadsProtocol` whose reads are GETs and whose compare-and-swap is the
 * several requests of `S3Cas`, all interleaved. Every run is a run of the
 * protocol on one atomic ref.
 */
module OpHeadsOnS3 {
  import opened Common
  import opened OpHeadsCodec
  import P = OpHeadsProtocol
  import S = S3Cas

  /**
   * The callers, the store, and which store call serves which caller's CAS.
   * `log` is a history variable: the swaps so far, in order.
   */
  datatype State = State(calls: map<P.ClientId, P.Call>, inFlight: map<P.ClientId, S.CallId>, store: S.State, log: seq<P.Swap>)

  /** The atomic ref the store stands for: what a GET would return now. */
  function Abs(x: State): P.State {
    P.State(S.ValueOf(x.store.initial), S.ValueOf(S.Current(x.store)), x.calls, x.log)
  }

  datatype Action =
    | Start(c: P.ClientId, oldIds: set<OpId>, newId: OpId)
    | Read(c: P.ClientId)
    | Confirm(c: P.ClientId)
    | BeginCas(c: P.ClientId, id: S.CallId)
    | Get(c: P.ClientId)
    | Compare(c: P.ClientId)
    | Apply(c: P.ClientId, etag: S.ETag, replyLost: bool)
    | Reread(c: P.ClientId)
    | Fail(c: P.ClientId)

  // ---- Steps ----------------------------------------------------------------

  ghost function Desired(call: P.Call): RefValue
    requires call.phase.Swapping? && Encodable(P.Advanced(call.phase.current, call.oldIds, call.newId))
  {
    Some(Encoding(P.Advanced(call.phase.current, call.oldIds, call.newId)))
  }

  predicate CanSwap(x: State, c: P.ClientId) {
    && c in x.calls && x.calls[c].phase.Swapping?
    && Encodable(P.Advanced(x.calls[c].phase.current, x.calls[c].oldIds, x.calls[c].newId))
  }

  /** The store request an action makes for caller `c`. */
  function RequestOf(a: Action, id: S.CallId): S.Action {
    match a
    case Get(_) => S.Get(id)
    case Compare(_) => S.Compare(id)
    case Apply(_, etag, replyLost) => S.Apply(id, etag, replyLost)
    case Reread(_) => S.Reread(id)
    case _ => S.Fail(id)
  }

  /** A request of a CAS in progress, and what its caller makes of the reply. */
  ghost function RequestStep(x: State, c: P.ClientId, a: S.Action): State
    requires CanSwap(x, c) && a.id in x.store.calls
  {
    var store := S.Step(x.store, a);
    var call := x.calls[c];
    if a.id !in store.calls then x
    else if |store.writes| > |x.store.writes| then
      var w := P.Swap(c, call.oldIds, call.newId, call.firstRead, call.firstReadAt, S.ValueOf(S.Current(x.store)), Desired(call));
      var outcome := if store.calls[a.id].phase == S.Returned(Updated) then P.Outcome.Advance else P.RpcError;
      State(x.calls[c := call.(phase := P.Done(outcome))], x.inFlight - {c}, store, x.log + [w])
    else
      match store.calls[a.id].phase
      case Returned(Conflict(_)) => State(P.Conflicted(Abs(x), c).calls, x.inFlight - {c}, store, x.log)
      case Errored => State(x.calls[c := call.(phase := P.Done(P.RpcError))], x.inFlight - {c}, store, x.log)
      case _ => x.(store := store)
  }

  ghost function Step(x: State, a: Action): State {
    match a
    case Start(c, oldIds, newId) =>
      if c in x.inFlight then x else x.(calls := P.StartStep(Abs(x), c, oldIds, newId).calls)
    case Read(c) => if c in x.inFlight then x else x.(calls := P.ReadStep(Abs(x), c).calls)
    case Confirm(c) => if c in x.inFlight then x else x.(calls := P.ConfirmStep(Abs(x), c).calls)
    case BeginCas(c, id) =>
      if c in x.inFlight || id in x.store.calls || !CanSwap(x, c) then x
      else x.(inFlight := x.inFlight[c := id], store := S.Step(x.store, S.Begin(id, x.calls[c].phase.expected, Desired(x.calls[c]))))
    case _ =>
      if a.c !in x.inFlight || !CanSwap(x, a.c) || x.inFlight[a.c] !in x.store.calls then x
      else RequestStep(x, a.c, RequestOf(a, x.inFlight[a.c]))
  }

  ghost function Run(x: State, acts: seq<Action>): State
    decreases |acts|
  {
    if acts == [] then x else Run(Step(x, acts[0]), acts[1..])
  }

  predicate Init(x: State) {
    S.Init(x.store) && x.calls == map[] && x.inFlight == map[] && x.log == [] && P.Replaceable(S.ValueOf(x.store.initial))
  }

  // ---- Invariant ------------------------------------------------------------

  /** The k-th swap of the protocol is the k-th effective write of the store. */
  predicate LogMatches(store: S.State, log: seq<P.Swap>) {
    |log| == |store.writes| && forall k :: 0 <= k < |log| ==> log[k].after == S.ValueOf(store.writes[k].stored)
  }

  /** A caller's CAS in progress asks the store for exactly its swap, and began after its read. */
  ghost predicate Linked(x: State, c: P.ClientId) {
    && c in x.inFlight && CanSwap(x, c) && x.inFlight[c] in x.store.calls
    && var call := x.store.calls[x.inFlight[c]];
       && call.expected == x.calls[c].phase.expected && call.desired == Desired(x.calls[c])
       && x.calls[c].readAt <= call.began
       && !call.phase.Returned? && !call.phase.Errored?
  }

  predicate OwnCalls(inFlight: map<P.ClientId, S.CallId>) {
    forall c, d :: c in inFlight && d in inFlight && c != d ==> inFlight[c] != inFlight[d]
  }

  ghost predicate AllLinked(x: State) {
    forall c :: c in x.inFlight ==> Linked(x, c)
  }

  ghost predicate Inv(x: State) {
    S.Inv(x.store) && P.Inv(Abs(x)) && LogMatches(x.store, x.log) && OwnCalls(x.inFlight) && AllLinked(x)
  }

  lemma ValuesAgree(x: State, k: nat)
    requires LogMatches(x.store, x.log) && k <= |x.log|
    ensures P.ValueAt(Abs(x), k) == S.ValueOf(S.ObjectAt(x.store, k))
  {
  }

  // ---- Refinement -----------------------------------------------------------

  /** The protocol step a step of the system amounts to; `None` if it is invisible. */
  ghost function Meaning(x: State, a: Action): Option<P.Action> {
    match a
    case Start(c, oldIds, newId) => if c in x.inFlight then None else Some(P.Start(c, oldIds, newId))
    case Read(c) => if c in x.inFlight then None else Some(P.Read(c))
    case Confirm(c) => if c in x.inFlight then None else Some(P.Confirm(c))
    case BeginCas(_, _) => None
    case _ =>
      if a.c !in x.inFlight || !CanSwap(x, a.c) || x.inFlight[a.c] !in x.store.calls then None
      else RequestMeaning(x, a.c, RequestOf(a, x.inFlight[a.c]))
  }

  ghost function RequestMeaning(x: State, c: P.ClientId, a: S.Action): Option<P.Action>
    requires a.id in x.store.calls
  {
    var store := S.Step(x.store, a);
    if |store.writes| > |x.store.writes| then Some(if a.Apply? && a.replyLost then P.CasReplyLost(c) else P.Cas(c))
    else if a.id !in store.calls then None
    else
      match store.calls[a.id].phase
      case Returned(Conflict(_)) => Some(P.CasOverlapped(c))
      case Errored => Some(P.Abort(c))
      case _ => None
  }

  ghost function After(s: P.State, m: Option<P.Action>): P.State {
    if m.None? then s else P.Step(s, m.value)
  }

  /** What a store request does to the history. */
  lemma StoreStep(s: S.State, a: S.Action)
    requires S.Inv(s) && a.id in s.calls && !a.Begin?
    ensures var s' := S.Step(s, a);
            && S.Inv(s') && s'.initial == s.initial && a.id in s'.calls
            && (s'.writes == s.writes || (a.Apply? && S.Enabled(s, a) && S.Precondition(S.Current(s), s.calls[a.id].phase.seen)
                                          && s'.writes == s.writes + [S.Write(S.Desired(s.calls[a.id], a.etag), a.id)]))
            && s'.calls[a.id].expected == s.calls[a.id].expected && s'.calls[a.id].desired == s.calls[a.id].desired
            && s'.calls[a.id].began == s.calls[a.id].began
            && (forall d :: d != a.id ==> (d in s'.calls <==> d in s.calls) && (d in s.calls ==> s'.calls[d] == s.calls[d]))
  {
    S.StepInv(s, a);
  }

  /** An effective write replaces the value its call expects by the one it desires. */
  lemma WriteSwaps(s: S.State, a: S.Action)
    requires S.Inv(s) && a.Apply? && S.Enabled(s, a) && S.Precondition(S.Current(s), s.calls[a.id].phase.seen)
    ensures S.ValueOf(S.Current(s)) == s.calls[a.id].expected
    ensures S.ValueOf(S.Current(S.Step(s, a))) == s.calls[a.id].desired
  {
    S.WriteIsSwap(s, a.id, a.etag, a.replyLost);
    S.HistoryKept(s, S.Step(s, a), |s.writes|);
  }

  /** A swap of the ref from a caller's expected value to its new one is that caller's CAS. */
  lemma SwapIsCas(x: State, c: P.ClientId, replyLost: bool)
    requires CanSwap(x, c) && S.ValueOf(S.Current(x.store)) == x.calls[c].phase.expected
    ensures var call := x.calls[c];
            var w := P.Swap(c, call.oldIds, call.newId, call.firstRead, call.firstReadAt, call.phase.expected, Desired(call));
            P.CasStep(Abs(x), c, replyLost) ==
              P.State(S.ValueOf(x.store.initial), Desired(call),
                      x.calls[c := call.(phase := P.Done(if replyLost then P.RpcError else P.Outcome.Advance))], x.log + [w])
  {
  }

  /** A conflict means the ref was written since the caller's read, whatever value is reported. */
  lemma ConflictOverlaps(s: S.State, id: S.CallId, v: RefValue, readAt: nat)
    requires id in s.calls && S.CallInv(s, id) && s.calls[id].phase == S.Returned(Conflict(v))
    requires readAt <= s.calls[id].began && S.ValueOf(S.ObjectAt(s, readAt)) == s.calls[id].expected
    ensures readAt < |s.writes|
  {
    var call := s.calls[id];
    if !call.refused {
      var k :| call.began <= k <= call.ended && k <= |s.writes| && S.ValueOf(S.ObjectAt(s, k)) == v;
      assert k != readAt;
    }
  }

  /** The value a caller expects is the one the ref had at its read. */
  lemma ExpectedAtRead(x: State, c: P.ClientId)
    requires P.Inv(Abs(x)) && LogMatches(x.store, x.log) && c in x.calls && x.calls[c].phase.Swapping?
    ensures x.calls[c].readAt <= |x.store.writes|
    ensures S.ValueOf(S.ObjectAt(x.store, x.calls[c].readAt)) == x.calls[c].phase.expected
  {
    assert P.CallInv(Abs(x), c);
    ValuesAgree(x, x.calls[c].readAt);
  }

  /** The one request a caller has out, as the store sees it. */
  ghost predicate Ours(x: State, c: P.ClientId, a: S.Action) {
    Linked(x, c) && a.id == x.inFlight[c] && !a.Begin?
  }

  /** What the protocol needs to know of a store request. */
  ghost predicate Understood(x: State, c: P.ClientId, a: S.Action) {
    var store := S.Step(x.store, a);
    && CanSwap(x, c) && a.id in x.store.calls && a.id in store.calls && store.initial == x.store.initial
    && if store.writes == x.store.writes then
         && store.calls[a.id].phase != S.Returned(Updated)
         && (store.calls[a.id].phase.Returned? ==> x.calls[c].readAt < |x.log|)
       else
         && a.Apply? && |store.writes| == |x.store.writes| + 1
         && store.calls[a.id].phase == (if a.replyLost then S.Errored else S.Returned(Updated))
         && S.ValueOf(S.Current(x.store)) == x.calls[c].phase.expected && S.ValueOf(S.Current(store)) == Desired(x.calls[c])
  }

  lemma RequestUnderstood(x: State, c: P.ClientId, a: S.Action)
    requires Inv(x) && Ours(x, c, a)
    ensures Understood(x, c, a)
  {
    StoreStep(x.store, a);
    var store := S.Step(x.store, a);
    if store.writes != x.store.writes {
      WriteSwaps(x.store, a);
    } else {
      NeverIdleUpdate(x.store, a);
      if store.calls[a.id].phase.Returned? {
        ExpectedAtRead(x, c);
        RefusedLate(x.store, a, x.calls[c].readAt);
      }
    }
  }

  lemma RefusedLate(s: S.State, a: S.Action, readAt: nat)
    requires S.Inv(s) && a.id in s.calls && !a.Begin? && S.Step(s, a).writes == s.writes
    requires readAt <= s.calls[a.id].began && readAt <= |s.writes| && S.ValueOf(S.ObjectAt(s, readAt)) == s.calls[a.id].expected
    requires a.id in S.Step(s, a).calls && S.Step(s, a).calls[a.id].phase.Returned?
    requires S.Step(s, a).calls[a.id].phase.outcome.Conflict?
    ensures readAt < |s.writes|
  {
    StoreStep(s, a);
    var s' := S.Step(s, a);
    assert S.CallInv(s', a.id);
    S.HistoryKept(s, s', readAt);
    ConflictOverlaps(s', a.id, s'.calls[a.id].phase.outcome.actual, readAt);
  }

  /** A call with something to write answers `Updated` only by writing. */
  lemma NeverIdleUpdate(s: S.State, a: S.Action)
    requires a.id in s.calls && s.calls[a.id].desired.Some? && !s.calls[a.id].phase.Returned? && !a.Begin?
    requires S.Step(s, a).writes == s.writes
    ensures a.id in S.Step(s, a).calls && S.Step(s, a).calls[a.id].phase != S.Returned(Updated)
  {
  }

  lemma RequestRefines(x: State, c: P.ClientId, a: S.Action)
    requires Understood(x, c, a)
    ensures Abs(RequestStep(x, c, a)) == After(Abs(x), RequestMeaning(x, c, a))
  {
    if S.Step(x.store, a).writes != x.store.writes { SwapIsCas(x, c, a.replyLost); }
  }

  // ---- The invariant is kept ------------------------------------------------

  /** A caller that takes no part in a step stays linked. */
  lemma BystanderLinked(x: State, x': State, d: P.ClientId)
    requires Linked(x, d) && d in x'.inFlight && x'.inFlight[d] == x.inFlight[d]
    requires d in x'.calls && x'.calls[d] == x.calls[d]
    requires x.inFlight[d] in x'.store.calls && x'.store.calls[x.inFlight[d]] == x.store.calls[x.inFlight[d]]
    ensures Linked(x', d)
  {
  }

  /** The caller's own request is still out, or its reply has been dealt with. */
  lemma RequesterLinked(x: State, c: P.ClientId, a: S.Action)
    requires S.Inv(x.store) && Ours(x, c, a) && Understood(x, c, a)
    ensures c in RequestStep(x, c, a).inFlight ==> Linked(RequestStep(x, c, a), c)
  {
    StoreStep(x.store, a);
  }

  lemma RequestLinks(x: State, c: P.ClientId, a: S.Action)
    requires S.Inv(x.store) && OwnCalls(x.inFlight) && AllLinked(x) && Ours(x, c, a) && Understood(x, c, a)
    ensures AllLinked(RequestStep(x, c, a)) && OwnCalls(RequestStep(x, c, a).inFlight)
  {
    var x' := RequestStep(x, c, a);
    RequesterLinked(x, c, a);
    StillOut(x, c, a);
    forall d | d in x'.inFlight ensures Linked(x', d) {
      if d != c {
        assert Linked(x, d);
        OthersUnmoved(x, c, a, d);
        BystanderLinked(x, x', d);
      }
    }
  }

  lemma StillOut(x: State, c: P.ClientId, a: S.Action)
    requires Ours(x, c, a)
    ensures forall d :: d in RequestStep(x, c, a).inFlight ==> d in x.inFlight && RequestStep(x, c, a).inFlight[d] == x.inFlight[d]
  {
  }

  lemma OthersUnmoved(x: State, c: P.ClientId, a: S.Action, d: P.ClientId)
    requires Ours(x, c, a) && d != c && d in x.calls && d in x.inFlight
    requires x.inFlight[d] in x.store.calls && x.inFlight[d] != a.id
    ensures var x' := RequestStep(x, c, a);
            && d in x'.calls && x'.calls[d] == x.calls[d]
            && x.inFlight[d] in x'.store.calls && x'.store.calls[x.inFlight[d]] == x.store.calls[x.inFlight[d]]
  {
  }

  lemma RequestLog(x: State, c: P.ClientId, a: S.Action)
    requires S.Inv(x.store) && LogMatches(x.store, x.log) && Ours(x, c, a) && Understood(x, c, a)
    ensures LogMatches(RequestStep(x, c, a).store, RequestStep(x, c, a).log) && S.Inv(RequestStep(x, c, a).store)
  {
    StoreStep(x.store, a);
  }

  lemma RequestInv(x: State, c: P.ClientId, a: S.Action)
    requires Inv(x) && Ours(x, c, a)
    ensures Inv(RequestStep(x, c, a))
    ensures Abs(RequestStep(x, c, a)) == After(Abs(x), RequestMeaning(x, c, a))
  {
    RequestUnderstood(x, c, a);
    RequestRefines(x, c, a);
    RequestLinks(x, c, a);
    RequestLog(x, c, a);
    var m := RequestMeaning(x, c, a);
    if m.Some? { P.StepInv(Abs(x), m.value); }
  }

  /** A step of a caller with no request out. */
  lemma LocalInv(x: State, calls: map<P.ClientId, P.Call>, a: P.Action)
    requires Inv(x) && (a.Start? || a.Read? || a.Confirm?) && a.c !in x.inFlight && calls == P.Step(Abs(x), a).calls
    ensures Inv(x.(calls := calls)) && Abs(x.(calls := calls)) == P.Step(Abs(x), a)
  {
    var x' := x.(calls := calls);
    LocalMeaning(Abs(x), a);
    P.StepInv(Abs(x), a);
    forall d | d in x'.inFlight ensures Linked(x', d) {
      assert Linked(x, d);
      BystanderLinked(x, x', d);
    }
  }

  lemma LocalMeaning(s: P.State, a: P.Action)
    requires a.Start? || a.Read? || a.Confirm?
    ensures P.Step(s, a) == s.(calls := P.Step(s, a).calls)
    ensures forall d :: d != a.c && d in s.calls ==> d in P.Step(s, a).calls && P.Step(s, a).calls[d] == s.calls[d]
  {
  }

  lemma BeginLinks(x: State, c: P.ClientId, id: S.CallId)
    requires OwnCalls(x.inFlight) && AllLinked(x)
    requires c !in x.inFlight && id !in x.store.calls && CanSwap(x, c) && x.calls[c].readAt <= |x.store.writes|
    ensures var x' := Step(x, BeginCas(c, id));
            AllLinked(x') && OwnCalls(x'.inFlight) && x'.store.writes == x.store.writes && x'.store.initial == x.store.initial
  {
    var x' := Step(x, BeginCas(c, id));
    forall d | d in x.inFlight ensures x.inFlight[d] != id { assert Linked(x, d); }
    forall d | d in x'.inFlight ensures Linked(x', d) {
      if d != c {
        assert Linked(x, d);
        BystanderLinked(x, x', d);
      }
    }
  }

  /** The protocol sees nothing of a request being opened. */
  lemma BeginHidden(x: State, c: P.ClientId, id: S.CallId)
    requires LogMatches(x.store, x.log) && c !in x.inFlight && id !in x.store.calls && CanSwap(x, c)
    ensures var x' := Step(x, BeginCas(c, id)); Abs(x') == Abs(x) && LogMatches(x'.store, x'.log)
    ensures Step(x, BeginCas(c, id)).store == S.Step(x.store, S.Begin(id, x.calls[c].phase.expected, Desired(x.calls[c])))
  {
  }

  lemma BeginInv(x: State, c: P.ClientId, id: S.CallId)
    requires Inv(x) && c !in x.inFlight && id !in x.store.calls && CanSwap(x, c)
    ensures Inv(Step(x, BeginCas(c, id))) && Abs(Step(x, BeginCas(c, id))) == Abs(x)
  {
    ExpectedAtRead(x, c);
    BeginLinks(x, c, id);
    BeginHidden(x, c, id);
    S.StepInv(x.store, S.Begin(id, x.calls[c].phase.expected, Desired(x.calls[c])));
  }

  /** Every step keeps the invariant and is a step of the protocol on the atomic ref, or invisible there. */
  lemma StepRefines(x: State, a: Action)
    requires Inv(x)
    ensures Inv(Step(x, a)) && Abs(Step(x, a)) == After(Abs(x), Meaning(x, a))
  {
    match a
    case Start(c, oldIds, newId) =>
      if c !in x.inFlight { LocalInv(x, Step(x, a).calls, P.Start(c, oldIds, newId)); }
    case Read(c) => if c !in x.inFlight { LocalInv(x, Step(x, a).calls, P.Read(c)); }
    case Confirm(c) => if c !in x.inFlight { LocalInv(x, Step(x, a).calls, P.Confirm(c)); }
    case BeginCas(c, id) =>
      if c !in x.inFlight && id !in x.store.calls && CanSwap(x, c) { BeginInv(x, c, id); }
    case _ =>
      if a.c in x.inFlight {
        assert Linked(x, a.c);
        RequestInv(x, a.c, RequestOf(a, x.inFlight[a.c]));
      }
  }

  lemma InitInv(x: State)
    requires Init(x)
    ensures Inv(x) && P.Init(Abs(x))
  {
  }

  // ---- What every run guarantees ----------------------------------------------

  /** Every run over the object store is a run of the protocol on one atomic ref. */
  lemma {:induction false} RunRefines(x: State, acts: seq<Action>) returns (steps: seq<P.Action>)
    requires Inv(x)
    ensures Inv(Run(x, acts)) && P.Run(Abs(x), steps) == Abs(Run(x, acts))
    decreases |acts|
  {
    if acts == [] {
      steps := [];
    } else {
      StepRefines(x, acts[0]);
      var rest := RunRefines(Step(x, acts[0]), acts[1..]);
      var m := Meaning(x, acts[0]);
      steps := if m.None? then rest else [m.value] + rest;
      if m.Some? { assert steps[1..] == rest; }
    }
  }

  /**
   * So over the object store, in every run: the k-th effective write installed
   * the k-th swap and is exact unless its reads straddled the first heads; once
   * anything was written the ref names a head; and a caller that gives up after
   * 64 retries lost them to 64 different effective writes of other callers.
   */
  lemma OpHeadsOnS3Safe(x: State, acts: seq<Action>, k: nat, c: P.ClientId)
    requires Init(x)
    ensures var end := Run(x, acts);
            && |end.log| == |end.store.writes|
            && (k < |end.log| ==>
                  && end.log[k].after == S.ValueOf(end.store.writes[k].stored)
                  && (P.Exact(end.log[k]) <==>
                        !P.Blind(end.log[k]) || P.Heads(end.log[k].before) <= end.log[k].oldIds + {end.log[k].newId}))
            && (end.store.writes != [] ==> P.Heads(S.ValueOf(S.Current(end.store))) != {})
            && (c in end.calls && end.calls[c].phase == P.Done(P.Exhausted) ==> ChargedTo(end, c))
  {
    InitInv(x);
    var steps := RunRefines(x, acts);
    var end := Run(x, acts);
    if k < |end.log| { P.SwapExactIff(Abs(x), steps, k); }
    if end.log != [] { P.NonEmptyForever(Abs(x), steps, []); }
    if c in end.calls && end.calls[c].phase == P.Done(P.Exhausted) { P.ExhaustionIsCharged(Abs(x), steps, c); }
  }

  /** Sixty-four effective writes during the call, at increasing positions, none by `c`. */
  predicate ChargedTo(x: State, c: P.ClientId) {
    && c in x.calls && |x.log| == |x.store.writes|
    && var call := x.calls[c];
       && |call.conflicts| == P.MAX_RETRIES && P.Increasing(call.conflicts)
       && forall i :: 0 <= i < P.MAX_RETRIES ==>
            call.startedAt <= call.conflicts[i] < |x.store.writes| && x.log[call.conflicts[i]].client != c
  }

  // ---- What an undisturbed update does ------------------------------------------

  /** The store has not used this entity tag. */
  predicate NewTag(store: S.State, etag: S.ETag) {
    forall k {:trigger S.ObjectAt(store, k)} :: 0 <= k <= |store.writes| && S.ObjectAt(store, k).Present? ==> S.ObjectAt(store, k).etag != etag
  }

  lemma SoloReads(x: State, c: P.ClientId, oldIds: set<OpId>, newId: OpId)
    requires c !in x.inFlight && (c in x.calls ==> x.calls[c].phase.Done?) && RealIds({newId})
    requires P.Replaceable(S.ValueOf(S.Current(x.store)))
    ensures var v := S.ValueOf(S.Current(x.store));
            var x' := Step(Step(Step(x, Start(c, oldIds, newId)), Read(c)), Confirm(c));
            && x'.store == x.store && x'.inFlight == x.inFlight && x'.log == x.log
            && CanSwap(x', c) && x'.calls[c].phase == P.Swapping(P.Heads(v), v)
            && x'.calls[c].oldIds == oldIds && x'.calls[c].newId == newId
  {
    var v := S.ValueOf(S.Current(x.store));
    P.HeadsReal(v);
    if P.Heads(v) != {} { P.HeadsReencode(v); }
  }

  /** The first requests of a CAS on the expected value lead to its write. */
  lemma SoloPrepares(x: State, c: P.ClientId, id: S.CallId)
    requires c !in x.inFlight && id !in x.store.calls && CanSwap(x, c)
    requires x.calls[c].phase.expected == S.ValueOf(S.Current(x.store))
    ensures var x' := Step(Step(Step(x, BeginCas(c, id)), Get(c)), Compare(c));
            && x'.calls == x.calls && x'.inFlight == x.inFlight[c := id]
            && x'.store.writes == x.store.writes && x'.store.initial == x.store.initial
            && id in x'.store.calls && x'.store.calls[id].phase == S.Writing(S.Current(x.store))
            && x'.store.calls[id].desired == Desired(x.calls[c])
  {
    var x1 := Step(x, BeginCas(c, id));
    var x2 := Step(x1, Get(c));
    assert x2 == x1.(store := S.Step(x1.store, S.Get(id))) && x2.store.calls[id].phase == S.Comparing(S.Current(x.store));
  }

  lemma SoloApplies(x: State, c: P.ClientId, id: S.CallId, etag: S.ETag)
    requires CanSwap(x, c) && c in x.inFlight && x.inFlight[c] == id && id in x.store.calls && NewTag(x.store, etag)
    requires x.store.calls[id].phase == S.Writing(S.Current(x.store)) && x.store.calls[id].desired == Desired(x.calls[c])
    ensures var x' := Step(x, Apply(c, etag, false));
            && c in x'.calls && x'.calls[c].phase == P.Done(P.Outcome.Advance) && c !in x'.inFlight
            && S.Current(x'.store) == S.Present(Desired(x.calls[c]).value, etag)
            && |x'.store.writes| == |x.store.writes| + 1
  {
    assert S.TagAgrees(x.store, Desired(x.calls[c]).value, etag);
    assert S.Enabled(x.store, S.Apply(id, etag, false));
  }

  /** The four requests of a CAS on the expected value. */
  lemma SoloRequests(x: State, c: P.ClientId, id: S.CallId, etag: S.ETag)
    requires c !in x.inFlight && id !in x.store.calls && CanSwap(x, c) && NewTag(x.store, etag)
    requires x.calls[c].phase.expected == S.ValueOf(S.Current(x.store))
    ensures var x' := Step(Step(Step(Step(x, BeginCas(c, id)), Get(c)), Compare(c)), Apply(c, etag, false));
            && c in x'.calls && x'.calls[c].phase == P.Done(P.Outcome.Advance) && c !in x'.inFlight
            && S.Current(x'.store) == S.Present(Desired(x.calls[c]).value, etag)
            && |x'.store.writes| == |x.store.writes| + 1
  {
    SoloPrepares(x, c, id);
    var x3 := Step(Step(Step(x, BeginCas(c, id)), Get(c)), Compare(c));
    assert forall k {:trigger S.ObjectAt(x3.store, k)} :: 0 <= k <= |x3.store.writes| ==> S.ObjectAt(x3.store, k) == S.ObjectAt(x.store, k);
    SoloApplies(x3, c, id, etag);
  }

  /** The steps of one update. */
  function SoloSteps(c: P.ClientId, oldIds: set<OpId>, newId: OpId, id: S.CallId, etag: S.ETag): seq<Action> {
    [Start(c, oldIds, newId)] + [Read(c)] + [Confirm(c)] + [BeginCas(c, id)] + [Get(c)] + [Compare(c)] + [Apply(c, etag, false)]
  }

  lemma {:induction false} RunConcat(x: State, a: seq<Action>, b: seq<Action>)
    ensures Run(x, a + b) == Run(Run(x, a), b)
    decreases |a|
  {
    if a == [] {
      assert a + b == b;
    } else {
      assert (a + b)[1..] == a[1..] + b;
      RunConcat(Step(x, a[0]), a[1..], b);
    }
  }

  lemma RunLast(x: State, acts: seq<Action>, a: Action)
    ensures Run(x, acts + [a]) == Step(Run(x, acts), a)
  {
    RunConcat(x, acts, [a]);
    assert [a][1..] == [];
  }

  /**
   * In any reachable state, whatever others have in flight, an idle caller whose
   * requests are neither failed nor overtaken advances the heads as it asked.
   */
  lemma SoloUpdate(x: State, c: P.ClientId, oldIds: set<OpId>, newId: OpId, id: S.CallId, etag: S.ETag)
    requires Inv(x) && c !in x.inFlight && (c in x.calls ==> x.calls[c].phase.Done?) && RealIds({newId})
    requires id !in x.store.calls && NewTag(x.store, etag)
    ensures var end := Run(x, SoloSteps(c, oldIds, newId, id, etag));
            && c in end.calls && end.calls[c].phase == P.Done(P.Outcome.Advance)
            && P.Heads(S.ValueOf(S.Current(end.store))) == P.Heads(S.ValueOf(S.Current(x.store))) - oldIds + {newId}
            && |end.store.writes| == |x.store.writes| + 1
  {
    var a0, a1, a2, a3 := Start(c, oldIds, newId), Read(c), Confirm(c), BeginCas(c, id);
    var a4, a5, a6 := Get(c), Compare(c), Apply(c, etag, false);
    assert [] + [a0] == [a0];
    RunLast(x, [], a0);
    RunLast(x, [a0], a1);
    RunLast(x, [a0] + [a1], a2);
    RunLast(x, [a0] + [a1] + [a2], a3);
    RunLast(x, [a0] + [a1] + [a2] + [a3], a4);
    RunLast(x, [a0] + [a1] + [a2] + [a3] + [a4], a5);
    RunLast(x, [a0] + [a1] + [a2] + [a3] + [a4] + [a5], a6);
    assert P.Replaceable(P.ValueAt(Abs(x), |x.log|));
    SoloReads(x, c, oldIds, newId);
    var v := S.ValueOf(S.Current(x.store));
    var x' := Step(Step(Step(x, a0), a1), a2);
    SoloRequests(x', c, id, etag);
    P.HeadsReal(v);
    P.EncodedHeads(P.Advanced(P.Heads(v), oldIds, newId));
  }

  /** What the reply to a refused or failed CAS does to its caller. */
  lemma RefusalReaches(x: State, c: P.ClientId)
    requires Linked(x, c)
    ensures var x' := Step(x, Fail(c)); c in x'.calls && x'.calls[c].phase == P.Done(P.RpcError) && c !in x'.inFlight
    ensures x.store.calls[x.inFlight[c]].phase.Rereading? ==>
              var x' := Step(x, Reread(c));
              && c in x'.calls && c !in x'.inFlight
              && x'.calls[c].conflicts == x.calls[c].conflicts + [x.calls[c].readAt]
              && x'.calls[c].phase == if |x'.calls[c].conflicts| < P.MAX_RETRIES then P.Reading else P.Done(P.Exhausted)
  {
  }
}
