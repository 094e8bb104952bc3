/** `mount.toml` for ad-hoc mounts: persist first, then publish in memory. */
module MountMeta {
  import opened Common

  type Path = string

  const ID_LENGTH: nat := 20

  datatype Meta = Meta(remote: string, opId: Bytes, workspaceId: Bytes, rootTreeId: Bytes)

  /** What a request changes: everything else is copied from memory. */
  datatype Change =
    | NewMount(url: string)
    | Checkout(newOp: Bytes, newWorkspace: Bytes)
    | NewRoot(newTree: Bytes)

  datatype Stage = Writing | TmpWritten | Renamed

  /** The request holding the mounts lock. */
  datatype Window = Window(path: Path, change: Change, stage: Stage)

  /**
   * `acked` is the last metadata acknowledged to a client, or found on disk by the
   * last restart. `tmp` files may hold anything a failed write left.
   */
  datatype State = State(files: map<Path, Meta>, tmp: map<Path, Option<Meta>>, mounts: map<Path, Meta>,
                         window: Option<Window>, acked: map<Path, Meta>)

  datatype Action =
    | Initialize(path: Path, remote: string)
    | SetCheckoutState(path: Path, opId: Bytes, workspaceId: Bytes)
    /** The end of a snapshot or check-out. */
    | StampRoot(path: Path, rootTreeId: Bytes)
    | Advance
    | Fail
    | Crash(skipped: set<Path>)

  /** The metadata a request writes. */
  function Written(emptyTree: Bytes, mounts: map<Path, Meta>, w: Window): Meta {
    match w.change
    case NewMount(url) => Meta(url, [], [], emptyTree)
    case Checkout(op, ws) => if w.path in mounts then mounts[w.path].(opId := op, workspaceId := ws) else Meta("", [], [], [])
    case NewRoot(tree) => if w.path in mounts then mounts[w.path].(rootTreeId := tree) else Meta("", [], [], [])
  }

  // ---- Restart --------------------------------------------------------------

  /** `rehydrate_one` refuses a root id of the wrong length and reads an empty one as the empty tree. */
  predicate Loadable(m: Meta) {
    m.rootTreeId == [] || |m.rootTreeId| == ID_LENGTH
  }

  function Normal(emptyTree: Bytes, m: Meta): Meta {
    if m.rootTreeId == [] then m.(rootTreeId := emptyTree) else m
  }

  function Rehydrated(emptyTree: Bytes, files: map<Path, Meta>, skipped: set<Path>): map<Path, Meta> {
    map p | p in files && p !in skipped && Loadable(files[p]) :: Normal(emptyTree, files[p])
  }

  /** A daemon started on whatever files it finds. */
  function Start(emptyTree: Bytes, files: map<Path, Meta>, skipped: set<Path>): State {
    State(files, map[], Rehydrated(emptyTree, files, skipped), None, files)
  }

  // ---- Steps ----------------------------------------------------------------

  function Open(s: State, path: Path, change: Change): State {
    s.(window := Some(Window(path, change, Writing)))
  }

  function Continue(emptyTree: Bytes, s: State): State {
    if s.window.None? then s
    else
      var w := s.window.value;
      var m := Written(emptyTree, s.mounts, w);
      match w.stage
      case Writing => s.(tmp := s.tmp[w.path := Some(m)], window := Some(w.(stage := TmpWritten)))
      case TmpWritten =>
        if w.path in s.tmp && s.tmp[w.path].Some?
        then s.(files := s.files[w.path := s.tmp[w.path].value], tmp := s.tmp - {w.path}, window := Some(w.(stage := Renamed)))
        else s
      case Renamed => s.(mounts := s.mounts[w.path := m], acked := s.acked[w.path := m], window := None)
  }

  /** A write or a rename fails: the request reports it and the lock is released. */
  function Abandon(s: State): State {
    if s.window.None? || s.window.value.stage.Renamed? then s
    else if s.window.value.stage.Writing? then s.(tmp := s.tmp[s.window.value.path := None], window := None)
    else s.(window := None)
  }

  function Apply(emptyTree: Bytes, s: State, a: Action): State {
    match a
    case Initialize(p, url) => if s.window.Some? || p in s.mounts then s else Open(s, p, NewMount(url))
    case SetCheckoutState(p, op, ws) => if s.window.Some? || p !in s.mounts then s else Open(s, p, Checkout(op, ws))
    case StampRoot(p, tree) =>
      if s.window.Some? || p !in s.mounts || |tree| != ID_LENGTH then s else Open(s, p, NewRoot(tree))
    case Advance => Continue(emptyTree, s)
    case Fail => Abandon(s)
    case Crash(skipped) => s.(mounts := Rehydrated(emptyTree, s.files, skipped), window := None, acked := s.files)
  }

  function Run(emptyTree: Bytes, s: State, actions: seq<Action>): State {
    if actions == [] then s else Apply(emptyTree, Run(emptyTree, s, actions[..|actions| - 1]), actions[|actions| - 1])
  }

  // ---- The invariant --------------------------------------------------------

  /** Memory holds exactly what was acknowledged. */
  ghost predicate MemoryAcked(emptyTree: Bytes, mounts: map<Path, Meta>, acked: map<Path, Meta>) {
    forall p :: p in mounts ==> p in acked && mounts[p] == Normal(emptyTree, acked[p])
  }

  ghost predicate Inv(emptyTree: Bytes, s: State) {
    && MemoryAcked(emptyTree, s.mounts, s.acked)
    && (forall p :: p in s.mounts ==> |s.mounts[p].rootTreeId| == ID_LENGTH)
    && match s.window
       case None => s.files == s.acked
       case Some(w) =>
         && (w.change.NewMount? <==> w.path !in s.mounts)
         && (w.change.NewRoot? ==> |w.change.newTree| == ID_LENGTH)
         && (w.stage.TmpWritten? ==> w.path in s.tmp && s.tmp[w.path] == Some(Written(emptyTree, s.mounts, w)))
         && s.files == if w.stage.Renamed? then s.acked[w.path := Written(emptyTree, s.mounts, w)] else s.acked
  }

  lemma ContinueInv(emptyTree: Bytes, s: State)
    requires |emptyTree| == ID_LENGTH && Inv(emptyTree, s)
    ensures Inv(emptyTree, Continue(emptyTree, s))
  {
    if s.window.Some? && s.window.value.stage.Renamed? {
      var w := s.window.value;
      var m := Written(emptyTree, s.mounts, w);
      assert |m.rootTreeId| == ID_LENGTH && Normal(emptyTree, m) == m;
    }
  }

  lemma CrashInv(emptyTree: Bytes, s: State, skipped: set<Path>)
    requires |emptyTree| == ID_LENGTH
    ensures Inv(emptyTree, Apply(emptyTree, s, Crash(skipped)))
  {
  }

  lemma StepInv(emptyTree: Bytes, s: State, a: Action)
    requires |emptyTree| == ID_LENGTH && Inv(emptyTree, s)
    ensures Inv(emptyTree, Apply(emptyTree, s, a))
  {
    match a
    case Advance => ContinueInv(emptyTree, s);
    case Crash(skipped) => CrashInv(emptyTree, s, skipped);
    case _ =>
  }

  lemma {:induction false} RunInv(emptyTree: Bytes, files: map<Path, Meta>, skipped: set<Path>, actions: seq<Action>)
    requires |emptyTree| == ID_LENGTH
    ensures Inv(emptyTree, Run(emptyTree, Start(emptyTree, files, skipped), actions))
    decreases |actions|
  {
    if actions != [] {
      RunInv(emptyTree, files, skipped, actions[..|actions| - 1]);
      StepInv(emptyTree, Run(emptyTree, Start(emptyTree, files, skipped), actions[..|actions| - 1]), actions[|actions| - 1]);
    }
  }

  // ---- What it means --------------------------------------------------------

  /** Between the rename and the publication for `p`. */
  predicate Publishing(s: State, p: Path) {
    s.window.Some? && s.window.value.path == p && s.window.value.stage.Renamed?
  }

  /** At every step of every run, memory equals the file outside the publishing window. */
  lemma MemoryEqualsFile(emptyTree: Bytes, files: map<Path, Meta>, skipped: set<Path>, actions: seq<Action>, p: Path)
    requires |emptyTree| == ID_LENGTH
    requires p in Run(emptyTree, Start(emptyTree, files, skipped), actions).mounts
    requires !Publishing(Run(emptyTree, Start(emptyTree, files, skipped), actions), p)
    ensures var s := Run(emptyTree, Start(emptyTree, files, skipped), actions);
            p in s.files && s.mounts[p] == Normal(emptyTree, s.files[p])
  {
    RunInv(emptyTree, files, skipped, actions);
  }

  /** A persist that fails leaves the file and memory as they were before the request. */
  lemma FailureChangesNothing(emptyTree: Bytes, files: map<Path, Meta>, skipped: set<Path>, actions: seq<Action>)
    requires |emptyTree| == ID_LENGTH
    ensures var s := Run(emptyTree, Start(emptyTree, files, skipped), actions);
            s.window.Some? && !s.window.value.stage.Renamed? ==>
              var s' := Apply(emptyTree, s, Fail);
              s'.window.None? && s'.files == s.acked && s'.mounts == s.mounts && MemoryAcked(emptyTree, s'.mounts, s'.files)
  {
    RunInv(emptyTree, files, skipped, actions);
  }

  /**
   * A restart brings back what was last acknowledged, or the whole of the one
   * update in flight: the acknowledged values with that request's fields replaced.
   */
  lemma RestartIsAckedOrInFlight(emptyTree: Bytes, files: map<Path, Meta>, skipped: set<Path>, actions: seq<Action>,
                                 lost: set<Path>, p: Path)
    requires |emptyTree| == ID_LENGTH
    requires p in Apply(emptyTree, Run(emptyTree, Start(emptyTree, files, skipped), actions), Crash(lost)).mounts
    ensures var s := Run(emptyTree, Start(emptyTree, files, skipped), actions);
            var back := Apply(emptyTree, s, Crash(lost)).mounts[p];
            || (p in s.acked && back == Normal(emptyTree, s.acked[p]))
            || (Publishing(s, p) && back == InFlight(emptyTree, s.acked, s.window.value))
  {
    RunInv(emptyTree, files, skipped, actions);
  }

  /** The update in flight, said in terms of the last acknowledged values. */
  function InFlight(emptyTree: Bytes, acked: map<Path, Meta>, w: Window): Meta {
    match w.change
    case NewMount(url) => Meta(url, [], [], emptyTree)
    case Checkout(op, ws) =>
      if w.path !in acked then Meta("", [], [], [])
      else var was := Normal(emptyTree, acked[w.path]); Meta(was.remote, op, ws, was.rootTreeId)
    case NewRoot(tree) =>
      if w.path !in acked then Meta("", [], [], [])
      else Meta(acked[w.path].remote, acked[w.path].opId, acked[w.path].workspaceId, tree)
  }

  /** An acknowledged mount is never lost: it comes back unless its files cannot be opened. */
  lemma AckedSurvives(emptyTree: Bytes, files: map<Path, Meta>, skipped: set<Path>, actions: seq<Action>,
                      lost: set<Path>, p: Path)
    requires |emptyTree| == ID_LENGTH && p !in lost
    requires p in Run(emptyTree, Start(emptyTree, files, skipped), actions).mounts
    ensures p in Apply(emptyTree, Run(emptyTree, Start(emptyTree, files, skipped), actions), Crash(lost)).mounts
  {
    RunInv(emptyTree, files, skipped, actions);
    StillLoadable(emptyTree, Run(emptyTree, Start(emptyTree, files, skipped), actions), p);
  }

  lemma StillLoadable(emptyTree: Bytes, s: State, p: Path)
    requires |emptyTree| == ID_LENGTH && Inv(emptyTree, s) && p in s.mounts
    ensures p in s.files && Loadable(s.files[p])
  {
    if !Publishing(s, p) {
      assert s.files[p] == s.acked[p];
      assert s.mounts[p] == Normal(emptyTree, s.acked[p]);
    } else {
      assert s.files[p] == Written(emptyTree, s.mounts, s.window.value);
    }
  }

  // ---- What each request does -------------------------------------------------

  lemma RunLast(emptyTree: Bytes, s: State, actions: seq<Action>, a: Action)
    ensures Run(emptyTree, s, actions + [a]) == Apply(emptyTree, Run(emptyTree, s, actions), a)
  {
    assert (actions + [a])[..|actions|] == actions;
  }

  /** The request, the write of the temporary file, the rename, the publication. */
  function Served(request: Action): seq<Action> {
    [request] + [Advance] + [Advance] + [Advance]
  }

  lemma ServedSteps(emptyTree: Bytes, s: State, request: Action)
    ensures Run(emptyTree, s, Served(request)) ==
              Continue(emptyTree, Continue(emptyTree, Continue(emptyTree, Apply(emptyTree, s, request))))
  {
    assert [] + [request] == [request];
    RunLast(emptyTree, s, [], request);
    RunLast(emptyTree, s, [request], Advance);
    RunLast(emptyTree, s, [request] + [Advance], Advance);
    RunLast(emptyTree, s, [request] + [Advance] + [Advance], Advance);
  }

  /** File and memory of `p` are `m`, it has been acknowledged, and no other mount has changed. */
  ghost predicate Settled(s: State, end: State, p: Path, m: Meta) {
    && end.window.None? && end.mounts == s.mounts[p := m] && end.files == s.files[p := m] && end.acked == s.acked[p := m]
  }

  lemma WindowSettles(emptyTree: Bytes, s: State, p: Path, change: Change)
    requires s.window.None?
    ensures Settled(s, Continue(emptyTree, Continue(emptyTree, Continue(emptyTree, Open(s, p, change)))), p,
                    Written(emptyTree, s.mounts, Window(p, change, Writing)))
  {
    var w := Window(p, change, Writing);
    var m := Written(emptyTree, s.mounts, w);
    var s1 := Continue(emptyTree, Open(s, p, change));
    assert s1 == s.(tmp := s.tmp[p := Some(m)], window := Some(w.(stage := TmpWritten)));
    var s2 := Continue(emptyTree, s1);
    assert s2.files == s.files[p := m] && s2.mounts == s.mounts && s2.window == Some(w.(stage := Renamed));
  }

  /**
   * A request on a free lock whose writes succeed: a new mount gets the given
   * remote, no ids and the empty tree; a check-out replaces the two ids; a
   * snapshot replaces the root. File and memory agree and nothing else changes.
   */
  lemma RequestTakesEffect(emptyTree: Bytes, s: State, request: Action)
    requires s.window.None?
    ensures request.Initialize? && request.path !in s.mounts ==>
              Settled(s, Run(emptyTree, s, Served(request)), request.path, Meta(request.remote, [], [], emptyTree))
    ensures request.SetCheckoutState? && request.path in s.mounts ==>
              var was := s.mounts[request.path];
              Settled(s, Run(emptyTree, s, Served(request)), request.path,
                      Meta(was.remote, request.opId, request.workspaceId, was.rootTreeId))
    ensures request.StampRoot? && request.path in s.mounts && |request.rootTreeId| == ID_LENGTH ==>
              var was := s.mounts[request.path];
              Settled(s, Run(emptyTree, s, Served(request)), request.path,
                      Meta(was.remote, was.opId, was.workspaceId, request.rootTreeId))
  {
    ServedSteps(emptyTree, s, request);
    match request
    case Initialize(p, url) => WindowSettles(emptyTree, s, p, NewMount(url));
    case SetCheckoutState(p, op, ws) => WindowSettles(emptyTree, s, p, Checkout(op, ws));
    case StampRoot(p, tree) => WindowSettles(emptyTree, s, p, NewRoot(tree));
    case _ =>
  }

  /** A request on a path that is mounted already, or not mounted, or with a root of the wrong length does nothing. */
  lemma RequestRefused(emptyTree: Bytes, s: State, request: Action)
    requires s.window.None?
    requires || (request.Initialize? && request.path in s.mounts)
             || (request.SetCheckoutState? && request.path !in s.mounts)
             || (request.StampRoot? && (request.path !in s.mounts || |request.rootTreeId| != ID_LENGTH))
    ensures Run(emptyTree, s, Served(request)) == s
  {
    ServedSteps(emptyTree, s, request);
  }

  /** What a restart finds: exactly the mounts whose file can be opened and has a root, or none yet. */
  lemma RestartFinds(emptyTree: Bytes, s: State, lost: set<Path>, p: Path)
    ensures var back := Apply(emptyTree, s, Crash(lost)).mounts;
            && (p in back <==> p in s.files && p !in lost && (|s.files[p].rootTreeId| == 0 || |s.files[p].rootTreeId| == 20))
            && (p in back ==>
                  && back[p].remote == s.files[p].remote && back[p].opId == s.files[p].opId
                  && back[p].workspaceId == s.files[p].workspaceId
                  && back[p].rootTreeId == if s.files[p].rootTreeId == [] then emptyTree else s.files[p].rootTreeId)
  {
  }

  /** An acknowledged check-out, snapshot or new mount is what the next restart returns. */
  lemma EffectSurvives(emptyTree: Bytes, s: State, end: State, p: Path, m: Meta, lost: set<Path>)
    requires Settled(s, end, p, m) && |m.rootTreeId| == ID_LENGTH && p !in lost
    ensures var back := Apply(emptyTree, end, Crash(lost)).mounts; p in back && back[p] == m
  {
    RestartFinds(emptyTree, end, lost, p);
  }
}
