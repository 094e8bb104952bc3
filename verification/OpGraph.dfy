/**
 * The operation graph on a shared remote. Clients write views, then operations,
 * then advance `op_heads`; each RPC may fail after or before taking effect. The
 * ref moves only by the steps of `OpHeadsProtocol`, on its real byte encoding.
 */
module OpGraph {
  import opened ByteOrder
  import opened Common
  import opened OpHeadsCodec
  import P = OpHeadsProtocol

  type ViewId = Bytes

  /** The part of an operation that other objects hang off. */
  datatype Operation = Operation(view: ViewId, parents: seq<OpId>)

  /** The synthetic root operation and root view are never stored (64 zero bytes). */
  const ROOT: OpId := Zeros(64)
  const ROOT_VIEW: ViewId := Zeros(64)

  function Zeros(n: nat): Bytes {
    if n == 0 then [] else [0] + Zeros(n - 1)
  }

  /**
   * `views` and `ops` are what the remote holds. A client's `acked` are the views
   * whose write was acknowledged to it; its `known` are the operations it may
   * build on: acknowledged writes, heads it read, and ancestors of those.
   */
  datatype State = State(heads: P.State, views: set<ViewId>, ops: map<OpId, Operation>,
                         acked: map<P.ClientId, set<ViewId>>, known: map<P.ClientId, set<OpId>>)

  datatype Reply = Acknowledged | FailedAfterEffect | FailedBeforeEffect

  datatype Action =
    | WriteView(c: P.ClientId, view: ViewId, reply: Reply)
    | WriteOperation(c: P.ClientId, id: OpId, op: Operation, reply: Reply)
    | LearnHeads(c: P.ClientId)
    | LearnParents(c: P.ClientId, id: OpId)
    | OpHeads(step: P.Action)

  function Of<T>(m: map<P.ClientId, set<T>>, c: P.ClientId): set<T> {
    if c in m then m[c] else {}
  }

  predicate AllKnown(parents: seq<OpId>, known: set<OpId>) {
    forall p :: p in parents ==> p == ROOT || p in known
  }

  /** What a client is asked to respect before it acts. */
  predicate Allowed(s: State, a: Action) {
    match a
    case WriteView(_, view, _) => view != ROOT_VIEW
    case WriteOperation(c, id, op, _) =>
      && id != ROOT
      && (op.view == ROOT_VIEW || op.view in Of(s.acked, c))
      && AllKnown(op.parents, Of(s.known, c))
      && (id in s.ops ==> s.ops[id] == op)  // ids are content hashes
    case LearnHeads(_) => true
    case LearnParents(c, id) => id in Of(s.known, c) && id in s.ops
    case OpHeads(step) => step.Start? ==> step.newId in Of(s.known, step.c)
  }

  ghost function Step(s: State, a: Action): State {
    if !Allowed(s, a) then s
    else
      match a
      case WriteView(c, view, reply) =>
        var s1 := if reply.FailedBeforeEffect? then s else s.(views := s.views + {view});
        if reply.Acknowledged? then s1.(acked := s1.acked[c := Of(s1.acked, c) + {view}]) else s1
      case WriteOperation(c, id, op, reply) =>
        var s1 := if reply.FailedBeforeEffect? then s else s.(ops := s.ops[id := op]);
        if reply.Acknowledged? then s1.(known := s1.known[c := Of(s1.known, c) + {id}]) else s1
      case LearnHeads(c) => s.(known := s.known[c := Of(s.known, c) + P.Heads(s.heads.ref)])
      case LearnParents(c, id) =>
        s.(known := s.known[c := Of(s.known, c) + Elems(s.ops[id].parents)])
      case OpHeads(step) => s.(heads := P.Step(s.heads, step))
  }

  ghost function Run(s: State, acts: seq<Action>): State
    decreases |acts|
  {
    if acts == [] then s else Run(Step(s, acts[0]), acts[1..])
  }

  const EMPTY: State := State(P.State(None, None, map[], []), {}, map[], map[], map[])

  // ---- Invariant --------------------------------------------------------

  predicate Stored(ops: map<OpId, Operation>, id: OpId) {
    id == ROOT || id in ops
  }

  predicate ViewStored(views: set<ViewId>, view: ViewId) {
    view == ROOT_VIEW || view in views
  }

  /** Every stored operation has its view and all its parents stored. */
  predicate OpsClosed(views: set<ViewId>, ops: map<OpId, Operation>) {
    && (forall id :: id in ops ==> ViewStored(views, ops[id].view))
    && (forall id, p :: id in ops && p in ops[id].parents ==> Stored(ops, p))
  }

  predicate AckedSound(views: set<ViewId>, acked: map<P.ClientId, set<ViewId>>) {
    forall c, v :: c in acked && v in acked[c] ==> v in views
  }

  predicate KnownSound(ops: map<OpId, Operation>, known: map<P.ClientId, set<OpId>>) {
    forall c, id :: c in known && id in known[c] ==> Stored(ops, id)
  }

  /** Every id in any value the ref has held, and any id a call is to insert, is stored. */
  ghost predicate HeadsStored(ops: map<OpId, Operation>, h: P.State) {
    && (forall k, id {:trigger id in P.Heads(P.ValueAt(h, k))} ::
          0 <= k <= |h.log| && id in P.Heads(P.ValueAt(h, k)) ==> Stored(ops, id))
    && (forall c :: c in h.calls ==> Stored(ops, h.calls[c].newId))
  }

  ghost predicate Inv(s: State) {
    && P.Inv(s.heads)
    && OpsClosed(s.views, s.ops)
    && AckedSound(s.views, s.acked)
    && KnownSound(s.ops, s.known)
    && HeadsStored(s.ops, s.heads)
  }

  lemma HeadsOfRefStored(s: State)
    requires Inv(s)
    ensures forall id :: id in P.Heads(s.heads.ref) ==> Stored(s.ops, id)
  {
    assert s.heads.ref == P.ValueAt(s.heads, |s.heads.log|);
  }

  /** The values the ref has held after a protocol step: the old ones, and perhaps one more. */
  lemma RefHistory(h: P.State, step: P.Action, k: nat)
    requires P.Inv(h)
    requires k <= |P.Step(h, step).log|
    ensures |h.log| <= |P.Step(h, step).log| <= |h.log| + 1
    ensures k <= |h.log| ==> P.ValueAt(P.Step(h, step), k) == P.ValueAt(h, k)
    ensures k == |h.log| + 1 ==>
              && step.c in h.calls && h.calls[step.c].phase.Swapping?
              && P.Heads(P.ValueAt(P.Step(h, step), k)) ==
                 P.Advanced(h.calls[step.c].phase.current, h.calls[step.c].oldIds, h.calls[step.c].newId)
  {
    if k == |h.log| + 1 {
      var call := h.calls[step.c];
      assert P.CallInv(h, step.c);
      P.HeadsReal(call.firstRead);
      P.EncodedHeads(P.Advanced(call.phase.current, call.oldIds, call.newId));
    }
  }

  lemma CurrentStored(ops: map<OpId, Operation>, h: P.State, c: P.ClientId)
    requires P.Inv(h) && HeadsStored(ops, h) && c in h.calls && h.calls[c].phase.Swapping?
    ensures forall id :: id in h.calls[c].phase.current ==> Stored(ops, id)
  {
    assert P.CallInv(h, c);
    assert h.calls[c].phase.current == P.Heads(P.ValueAt(h, h.calls[c].firstReadAt));
  }

  lemma CallsKeepIds(h: P.State, step: P.Action, c: P.ClientId)
    requires c in P.Step(h, step).calls
    ensures var id := P.Step(h, step).calls[c].newId;
            (c in h.calls && h.calls[c].newId == id) || (step.Start? && step.newId == id)
  {
  }

  lemma HeadsStayStored(ops: map<OpId, Operation>, h: P.State, step: P.Action)
    requires P.Inv(h) && HeadsStored(ops, h) && (step.Start? ==> Stored(ops, step.newId))
    ensures HeadsStored(ops, P.Step(h, step))
  {
    var h' := P.Step(h, step);
    forall k, id | 0 <= k <= |h'.log| && id in P.Heads(P.ValueAt(h', k)) ensures Stored(ops, id) {
      RefHistory(h, step, k);
      if k == |h.log| + 1 {
        CurrentStored(ops, h, step.c);
      }
    }
    forall c | c in h'.calls ensures Stored(ops, h'.calls[c].newId) {
      CallsKeepIds(h, step, c);
    }
  }

  lemma GrowthKeepsHeads(ops: map<OpId, Operation>, ops': map<OpId, Operation>, h: P.State)
    requires HeadsStored(ops, h) && ops.Keys <= ops'.Keys
    ensures HeadsStored(ops', h)
  {
    forall k, id | 0 <= k <= |h.log| && id in P.Heads(P.ValueAt(h, k)) ensures Stored(ops', id) {
      assert Stored(ops, id);
    }
  }

  lemma OperationAdded(s: State, id: OpId, op: Operation, known: set<OpId>)
    requires Inv(s) && (id in s.ops ==> s.ops[id] == op) && ViewStored(s.views, op.view)
    requires AllKnown(op.parents, known) && forall k :: k in known ==> Stored(s.ops, k)
    ensures OpsClosed(s.views, s.ops[id := op])
    ensures KnownSound(s.ops[id := op], s.known)
    ensures HeadsStored(s.ops[id := op], s.heads)
  {
    var ops := s.ops[id := op];
    forall i, p | i in ops && p in ops[i].parents ensures Stored(ops, p) {
      assert Stored(s.ops, p);
    }
    forall c, k | c in s.known && k in s.known[c] ensures Stored(ops, k) {
      assert Stored(s.ops, k);
    }
    GrowthKeepsHeads(s.ops, ops, s.heads);
  }

  lemma WriteOperationInv(s: State, a: Action)
    requires Inv(s) && a.WriteOperation? && Allowed(s, a)
    ensures Inv(Step(s, a))
  {
    OperationAdded(s, a.id, a.op, Of(s.known, a.c));
  }

  lemma WriteViewInv(s: State, a: Action)
    requires Inv(s) && a.WriteView? && Allowed(s, a)
    ensures Inv(Step(s, a))
  {
    ViewAdded(s.views, s.ops, s.acked, a.c, a.view);
  }

  lemma ViewAdded(views: set<ViewId>, ops: map<OpId, Operation>, acked: map<P.ClientId, set<ViewId>>, c: P.ClientId, view: ViewId)
    requires OpsClosed(views, ops) && AckedSound(views, acked)
    ensures OpsClosed(views + {view}, ops) && AckedSound(views + {view}, acked)
    ensures AckedSound(views + {view}, acked[c := Of(acked, c) + {view}])
  {
  }

  lemma LearnInv(s: State, a: Action)
    requires Inv(s) && (a.LearnHeads? || a.LearnParents?) && Allowed(s, a)
    ensures Inv(Step(s, a))
  {
    if a.LearnHeads? { HeadsOfRefStored(s); }
  }

  lemma OpHeadsInv(s: State, step: P.Action)
    requires Inv(s) && Allowed(s, OpHeads(step))
    ensures Inv(Step(s, OpHeads(step)))
  {
    P.StepInv(s.heads, step);
    HeadsStayStored(s.ops, s.heads, step);
  }

  lemma StepInv(s: State, a: Action)
    requires Inv(s)
    ensures Inv(Step(s, a))
  {
    if Allowed(s, a) {
      match a
      case WriteView(_, _, _) => WriteViewInv(s, a);
      case WriteOperation(_, _, _, _) => WriteOperationInv(s, a);
      case OpHeads(step) => OpHeadsInv(s, step);
      case _ => LearnInv(s, a);
    }
  }

  lemma {:induction false} RunInv(s: State, acts: seq<Action>)
    requires Inv(s)
    ensures Inv(Run(s, acts))
    decreases |acts|
  {
    if acts != [] {
      StepInv(s, acts[0]);
      RunInv(Step(s, acts[0]), acts[1..]);
    }
  }

  // ---- Closure ------------------------------------------------------------

  predicate IsParent(ops: map<OpId, Operation>, id: OpId, p: OpId) {
    id in ops && p in ops[id].parents
  }

  /** A walk from a current head along parent links. */
  ghost predicate Ancestry(s: State, path: seq<OpId>) {
    && path != []
    && path[0] in P.Heads(s.heads.ref)
    && forall i :: 0 < i < |path| ==> IsParent(s.ops, path[i - 1], path[i])
  }

  /**
   * In every reachable state every operation reachable from the decoded
   * `op_heads` value is on the remote, and so is its view.
   */
  lemma RemoteGraphClosed(acts: seq<Action>, path: seq<OpId>)
    requires Ancestry(Run(EMPTY, acts), path)
    ensures var s := Run(EMPTY, acts);
            var id := path[|path| - 1];
            Stored(s.ops, id) && (id in s.ops ==> ViewStored(s.views, s.ops[id].view))
  {
    RunInv(EMPTY, acts);
    AncestryStored(Run(EMPTY, acts), path);
  }

  lemma {:induction false} AncestryStored(s: State, path: seq<OpId>)
    requires Inv(s) && Ancestry(s, path)
    ensures Stored(s.ops, path[|path| - 1])
    decreases |path|
  {
    if |path| == 1 {
      HeadsOfRefStored(s);
    } else {
      var n := |path| - 1;
      AncestryStored(s, path[..n]);
      assert IsParent(s.ops, path[n - 1], path[n]);
    }
  }

  // ---- What clients can do ------------------------------------------------

  lemma {:induction false} RunConcat(s: State, a: seq<Action>, b: seq<Action>)
    ensures Run(s, a + b) == Run(Run(s, a), b)
    decreases |a|
  {
    if a == [] {
      assert a + b == b;
    } else {
      assert (a + b)[1..] == a[1..] + b;
      RunConcat(Step(s, a[0]), a[1..], b);
    }
  }

  lemma RunLast(s: State, acts: seq<Action>, a: Action)
    ensures Run(s, acts + [a]) == Step(Run(s, acts), a)
  {
    RunConcat(s, acts, [a]);
    assert [a][1..] == [];
  }

  /** A write is stored unless it failed before its effect, and may be built on once it is acknowledged. */
  lemma RepliesMean(s: State, a: Action)
    requires (a.WriteView? || a.WriteOperation?) && Allowed(s, a)
    ensures a.reply.FailedBeforeEffect? ==> Step(s, a) == s
    ensures a.WriteView? && !a.reply.FailedBeforeEffect? ==> Step(s, a).views == s.views + {a.view} && Step(s, a).ops == s.ops
    ensures a.WriteOperation? && !a.reply.FailedBeforeEffect? ==> Step(s, a).ops == s.ops[a.id := a.op] && Step(s, a).views == s.views
    ensures a.WriteView? ==> Of(Step(s, a).acked, a.c) == Of(s.acked, a.c) + if a.reply.Acknowledged? then {a.view} else {}
    ensures a.WriteOperation? ==> Of(Step(s, a).known, a.c) == Of(s.known, a.c) + if a.reply.Acknowledged? then {a.id} else {}
  {
  }

  function Lifted(steps: seq<P.Action>): seq<Action> {
    seq(|steps|, i requires 0 <= i < |steps| => OpHeads(steps[i]))
  }

  lemma {:induction false} RunLifted(s: State, steps: seq<P.Action>)
    requires forall step :: step in steps && step.Start? ==> step.newId in Of(s.known, step.c)
    ensures Run(s, Lifted(steps)) == s.(heads := P.Run(s.heads, steps))
    decreases |steps|
  {
    if steps != [] {
      assert Lifted(steps)[1..] == Lifted(steps[1..]) && steps[0] in steps;
      var s1 := Step(s, OpHeads(steps[0]));
      assert s1 == s.(heads := P.Step(s.heads, steps[0]));
      assert forall step :: step in steps[1..] ==> step in steps;
      RunLifted(s1, steps[1..]);
    }
  }

  /** Read the heads, write the view, write the operation. */
  function Writing(c: P.ClientId, view: ViewId, id: OpId, parents: seq<OpId>): seq<Action> {
    [LearnHeads(c)] + [WriteView(c, view, Acknowledged)] + [WriteOperation(c, id, Operation(view, parents), Acknowledged)]
  }

  lemma ReadAndWroteView(s: State, c: P.ClientId, view: ViewId)
    ensures var end := Step(Step(s, LearnHeads(c)), WriteView(c, view, Acknowledged));
            && end.heads == s.heads && end.ops == s.ops && end.views == s.views + ({view} - {ROOT_VIEW})
            && (view == ROOT_VIEW || view in Of(end.acked, c)) && P.Heads(s.heads.ref) <= Of(end.known, c)
  {
    if view == ROOT_VIEW { assert s.views + ({view} - {ROOT_VIEW}) == s.views; } else { assert {view} - {ROOT_VIEW} == {view}; }
  }

  lemma WroteOperation(s: State, c: P.ClientId, view: ViewId, id: OpId, parents: seq<OpId>)
    requires id != ROOT && id !in s.ops && (view == ROOT_VIEW || view in Of(s.acked, c)) && Elems(parents) <= Of(s.known, c) + {ROOT}
    ensures var end := Step(s, WriteOperation(c, id, Operation(view, parents), Acknowledged));
            end.heads == s.heads && end.views == s.views && end.ops == s.ops[id := Operation(view, parents)] && id in Of(end.known, c)
  {
    forall p | p in parents ensures p == ROOT || p in Of(s.known, c) { assert p in Elems(parents); }
    assert Allowed(s, WriteOperation(c, id, Operation(view, parents), Acknowledged));
  }

  lemma Wrote(s: State, c: P.ClientId, view: ViewId, id: OpId, parents: seq<OpId>)
    requires id != ROOT && id !in s.ops && Elems(parents) <= P.Heads(s.heads.ref) + {ROOT}
    ensures var end := Run(s, Writing(c, view, id, parents));
            && end.heads == s.heads && end.views == s.views + ({view} - {ROOT_VIEW}) && end.ops == s.ops[id := Operation(view, parents)]
            && id in Of(end.known, c)
  {
    var a, b, d := LearnHeads(c), WriteView(c, view, Acknowledged), WriteOperation(c, id, Operation(view, parents), Acknowledged);
    assert [] + [a] == [a];
    RunLast(s, [], a);
    RunLast(s, [a], b);
    RunLast(s, [a] + [b], d);
    ReadAndWroteView(s, c, view);
    WroteOperation(Step(Step(s, a), b), c, view, id, parents);
  }

  /** In every reachable state the ref can be replaced by an undisturbed update. */
  lemma AlwaysReplaceable(acts: seq<Action>)
    ensures P.Replaceable(Run(EMPTY, acts).heads.ref)
  {
    RunInv(EMPTY, acts);
    var h := Run(EMPTY, acts).heads;
    assert P.Replaceable(P.ValueAt(h, |h.log|));
  }

  /**
   * So in any reachable state an idle client that nothing disturbs can publish an
   * operation on top of any of the current heads, or of the root: its view and the
   * operation are then on the remote, and it takes the place of exactly those heads.
   */
  lemma AnyoneCanPublish(s: State, c: P.ClientId, view: ViewId, id: OpId, parents: seq<OpId>)
    requires P.Replaceable(s.heads.ref) && (c in s.heads.calls ==> s.heads.calls[c].phase.Done?) && RealIds({id})
    requires id != ROOT && id !in s.ops && Elems(parents) <= P.Heads(s.heads.ref) + {ROOT}
    ensures var end := Run(s, Writing(c, view, id, parents) + Lifted([P.Start(c, Elems(parents), id)] + P.SoloTurn(c)));
            && P.Heads(end.heads.ref) == P.Heads(s.heads.ref) - Elems(parents) + {id}
            && c in end.heads.calls && end.heads.calls[c].phase == P.Done(P.Outcome.Advance)
            && (view == ROOT_VIEW || view in end.views) && id in end.ops && end.ops[id] == Operation(view, parents)
  {
    RunConcat(s, Writing(c, view, id, parents), Lifted([P.Start(c, Elems(parents), id)] + P.SoloTurn(c)));
    Wrote(s, c, view, id, parents);
    Advances(Run(s, Writing(c, view, id, parents)), c, Elems(parents), id);
  }

  /** An undisturbed update of the heads to an operation the client knows. */
  lemma Advances(s: State, c: P.ClientId, oldIds: set<OpId>, id: OpId)
    requires (c in s.heads.calls ==> s.heads.calls[c].phase.Done?) && RealIds({id}) && P.Replaceable(s.heads.ref) && id in Of(s.known, c)
    ensures var end := Run(s, Lifted([P.Start(c, oldIds, id)] + P.SoloTurn(c)));
            && end.views == s.views && end.ops == s.ops
            && P.Heads(end.heads.ref) == P.Heads(s.heads.ref) - oldIds + {id}
            && c in end.heads.calls && end.heads.calls[c].phase == P.Done(P.Outcome.Advance)
  {
    var steps := [P.Start(c, oldIds, id)] + P.SoloTurn(c);
    forall step | step in steps && step.Start? ensures step.newId in Of(s.known, step.c) {
      assert step in P.SoloTurn(c) || step == P.Start(c, oldIds, id);
    }
    RunLifted(s, steps);
    P.SoloUpdate(s.heads, c, oldIds, id);
  }

  /** The synthetic root operation and view never reach the remote. */
  lemma {:induction false} RootNeverStored(s: State, acts: seq<Action>)
    requires ROOT !in s.ops && ROOT_VIEW !in s.views
    ensures ROOT !in Run(s, acts).ops && ROOT_VIEW !in Run(s, acts).views
    decreases |acts|
  {
    if acts != [] { RootNeverStored(Step(s, acts[0]), acts[1..]); }
  }

  /** Reading the operations of a path one after the other. */
  function Following(c: P.ClientId, path: seq<OpId>): seq<Action> {
    if path == [] then [LearnHeads(c)] else Following(c, path[..|path| - 1]) + [LearnParents(c, path[|path| - 1])]
  }

  /** Any ancestor of a head can be learnt, and so built on, by reading the operations on the way to it. */
  lemma {:induction false} AncestorsCanBeLearnt(s: State, c: P.ClientId, path: seq<OpId>)
    requires Ancestry(s, path)
    ensures var end := Run(s, Following(c, path[..|path| - 1]));
            path[|path| - 1] in Of(end.known, c) && end.ops == s.ops && end.heads == s.heads
    decreases |path|
  {
    var n := |path| - 1;
    if n == 0 {
      assert path[..0] == [] && [LearnHeads(c)][1..] == [];
    } else {
      var before := path[..n];
      assert Ancestry(s, before) && before[|before| - 1] == path[n - 1];
      AncestorsCanBeLearnt(s, c, before);
      assert before[..n - 1] == path[..n - 1] && before[n - 1] == path[n - 1];
      RunLast(s, Following(c, before[..n - 1]), LearnParents(c, path[n - 1]));
      assert IsParent(s.ops, path[n - 1], path[n]);
    }
  }
}
