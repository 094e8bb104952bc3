/**
 * The slot allocator when requests run side by side. The handlers take no lock
 * over their file writes, and repos.toml is read, changed and written back: its
 * new content is composed in one step and written in a later one. Two locks make
 * slots safe again; without either of them a run ends in a collision.
 */
module SlotRaces {
  import opened Common
  import opened Slots

  type RpcId = nat

  /** The content one request is about to write to repos.toml. */
  datatype Draft = Draft(listed: set<string>, next: nat)

  datatype World = World(disk: Disk, mem: Memory, rpcs: map<RpcId, Rpc>, drafts: map<RpcId, Draft>,
                         ready: set<Key>, owner: map<nat, Key>)

  datatype Move =
    | Issue(id: RpcId, request: Action)
    /** Read repos.toml and compose its new content. */
    | Compose(id: RpcId)
    /** The next write or registration of a request. */
    | Proceed(id: RpcId)
    | GiveUp(id: RpcId)
    | PartialRemove(id: RpcId, kept: set<Key>)
    | Restart(failed: set<string>, skipped: set<Key>, next: nat)

  const EMPTY: World := World(Disk(1, {}, map[]), Memory(1, {}, map[]), map[], map[], {}, map[])

  /** The world as one request sees it. */
  function View(w: World, id: RpcId): State {
    State(w.disk, w.mem, if id in w.rpcs then w.rpcs[id] else Idle, w.ready, w.owner)
  }

  /** The world after one request has taken a step. */
  function Back(w: World, id: RpcId, s: State): World {
    World(s.disk, s.mem, if s.rpc.Idle? then w.rpcs - {id} else w.rpcs[id := s.rpc], w.drafts - {id}, s.ready, s.owner)
  }

  predicate Publishing(rpc: Rpc) {
    rpc.ClonePublishes? || rpc.CreatePublishes? || rpc.RepoUnlists?
  }

  /** What a publishing request makes of the repo list it read. */
  function NewListed(rpc: Rpc, listed: set<string>): set<string> {
    match rpc
    case ClonePublishes(repo) => listed + {repo}
    case RepoUnlists(repo) => listed - {repo}
    case _ => listed
  }

  function Publish(w: World, id: RpcId, d: Draft): World
    requires id in w.rpcs
  {
    World(w.disk.(listed := d.listed, next := d.next), w.mem, w.rpcs - {id}, w.drafts - {id},
          if w.rpcs[id].CreatePublishes? then w.ready + {w.rpcs[id].key} else w.ready, w.owner)
  }

  predicate IsRequest(a: Action) {
    !a.Advance? && !a.Fail? && !a.Remove? && !a.Crash?
  }

  ghost function Apply(w: World, m: Move): World {
    match m
    case Issue(id, a) => if id in w.rpcs || !IsRequest(a) then w else Back(w, id, Begin(View(w, id), a))
    case Compose(id) =>
      if id !in w.rpcs || !Publishing(w.rpcs[id]) then w
      else w.(drafts := w.drafts[id := Draft(NewListed(w.rpcs[id], w.disk.listed), w.mem.next)])
    case Proceed(id) =>
      if id !in w.rpcs then w
      else if !Publishing(w.rpcs[id]) then Back(w, id, Continue(View(w, id)))
      else if id in w.drafts then Publish(w, id, w.drafts[id]) else w
    case GiveUp(id) => if id !in w.rpcs then w else Back(w, id, Slots.Apply(View(w, id), Fail))
    case PartialRemove(id, kept) => if id !in w.rpcs then w else Back(w, id, Slots.Apply(View(w, id), Remove(kept)))
    case Restart(failed, skipped, next) =>
      var back := Reloaded(w.disk, failed, skipped);
      if !Bumped(w.disk.next, back, next) then w
      else World(w.disk, Memory(next, w.disk.listed - failed, back), map[], map[], w.ready, w.owner)
  }

  /**
   * A publication that nobody comes between is the one step it is in `Slots`, and
   * so is every other step of a request: the two models differ only in how
   * repos.toml is read and written.
   */
  lemma UndisturbedIsSlots(w: World, id: RpcId)
    requires id in w.rpcs
    ensures Publishing(w.rpcs[id]) ==> Apply(Apply(w, Compose(id)), Proceed(id)) == Back(w, id, Continue(View(w, id)))
    ensures !Publishing(w.rpcs[id]) ==> Apply(w, Proceed(id)) == Back(w, id, Slots.Apply(View(w, id), Advance))
    ensures Back(w, id, View(w, id)) == w.(drafts := w.drafts - {id}) || w.rpcs[id].Idle?
  {
    if Publishing(w.rpcs[id]) {
      var d := Draft(NewListed(w.rpcs[id], w.disk.listed), w.mem.next);
      assert w.drafts[id := d] - {id} == w.drafts - {id};
    }
    assert w.rpcs[id := w.rpcs[id]] == w.rpcs;
  }

  /** A request that is issued, given up, partly removed or cut short by a restart does what it does in `Slots`. */
  lemma RequestsAreSlots(w: World, id: RpcId, a: Action)
    ensures id !in w.rpcs && IsRequest(a) ==> Apply(w, Issue(id, a)) == Back(w, id, Slots.Apply(View(w, id), a))
    ensures a.Crash? && Bumped(w.disk.next, Reloaded(w.disk, a.failed, a.skipped), a.next) ==>
              Apply(w, Restart(a.failed, a.skipped, a.next)) ==
                Back(w, id, Slots.Apply(View(w, id), a)).(rpcs := map[], drafts := map[])
  {
  }

  /** A request that gives up has no further effect, except that a repo being deleted is still to be unlisted. */
  lemma GivingUpStops(w: World, id: RpcId)
    requires id in w.rpcs
    ensures var w' := Apply(w, GiveUp(id));
            && w'.disk == w.disk && w'.mem == w.mem && w'.ready == w.ready && id !in w'.drafts
            && (id in w'.rpcs <==> w.rpcs[id].RepoRemoves?)
            && (w.rpcs[id].RepoRemoves? ==> w'.rpcs[id] == RepoUnlists(w.rpcs[id].repo))
  {
  }

  /** A removal that stops halfway leaves exactly the given configs of its repo. */
  lemma PartialRemoval(w: World, id: RpcId, kept: set<Key>, k: Key)
    requires id in w.rpcs && w.rpcs[id].RepoRemoves?
    ensures var w' := Apply(w, PartialRemove(id, kept));
            && (k in w'.disk.configs <==> k in w.disk.configs && (k.repo != w.rpcs[id].repo || k in kept))
            && w'.mem == w.mem && id in w'.rpcs && w'.rpcs[id] == RepoUnlists(w.rpcs[id].repo)
  {
  }

  // ---- Rules ----------------------------------------------------------------

  function RepoOf(rpc: Rpc): string {
    match rpc
    case Idle => ""
    case CloneWrites(repo, _) => repo
    case CloneRegisters(repo, _) => repo
    case ClonePublishes(repo) => repo
    case CreateWrites(k, _) => k.repo
    case CreateRegisters(k, _) => k.repo
    case CreatePublishes(k) => k.repo
    case FinalizeWrites(k) => k.repo
    case DeleteRemoves(k) => k.repo
    case RepoRemoves(repo) => repo
    case RepoUnlists(repo) => repo
  }

  function RequestRepo(a: Action): string {
    match a
    case Clone(repo) => repo
    case Create(k) => k.repo
    case Finalize(k) => k.repo
    case Touch(k) => k.repo
    case Delete(k) => k.repo
    case DeleteRepo(repo) => repo
    case ForgetRepo(repo) => repo
    case _ => ""
  }

  datatype Rule =
    /** The clients' part: both disciplines of `Slots`. */
    | Clients
    /** One request per repo at a time. */
    | RepoLock
    /** Nobody composes repos.toml while another's content waits to be written. */
    | FileLock

  predicate Keeps(rule: Rule, w: World, m: Move) {
    match rule
    case Clients => m.Issue? ==> Disciplined(View(w, m.id), m.request)
    case RepoLock => m.Issue? ==> forall id :: id in w.rpcs ==> RepoOf(w.rpcs[id]) != RequestRepo(m.request)
    case FileLock => m.Compose? ==> w.drafts.Keys <= {m.id}
  }

  ghost function Run(moves: seq<Move>): World {
    if moves == [] then EMPTY else Apply(Run(moves[..|moves| - 1]), moves[|moves| - 1])
  }

  ghost predicate KeptBy(rule: Rule, moves: seq<Move>) {
    moves == [] ||
    (KeptBy(rule, moves[..|moves| - 1]) && Keeps(rule, Run(moves[..|moves| - 1]), moves[|moves| - 1]))
  }

  // ---- The invariant --------------------------------------------------------

  /** The files, the registry and the histories, without any request. */
  function Core(w: World): State {
    State(w.disk, w.mem, Idle, w.ready, w.owner)
  }

  ghost predicate Base(s: State) {
    && 1 <= s.disk.next <= s.mem.next <= MAX_SLOT
    && MemoryOwned(s.mem, s.owner) && DiskOwned(s.disk, s.ready, s.owner)
    && Agree(s.disk, s.mem, s.ready) && Durable(s.disk, s.mem, s.ready)
  }

  /** An allocated slot that has not been used yet. */
  ghost predicate Held(s: State, k: Key, slot: nat) {
    slot < s.mem.next && Owns(s.owner, k, slot)
  }

  /** Memory and disk agree on `k`. */
  predicate Written(s: State, k: Key) {
    k in s.mem.spaces && k in s.disk.configs && s.disk.configs[k] == s.mem.spaces[k]
  }

  /** What a request in flight may rely on. */
  ghost predicate RpcInv(s: State, rpc: Rpc) {
    match rpc
    case CloneWrites(repo, slot) => Held(s, DefaultOf(repo), slot) && repo !in s.disk.listed
    case CloneRegisters(repo, slot) =>
      && Held(s, DefaultOf(repo), slot) && repo !in s.disk.listed
      && DefaultOf(repo) in s.disk.configs && s.disk.configs[DefaultOf(repo)] == Space(true, slot)
    case ClonePublishes(repo) => repo !in s.disk.listed && Written(s, DefaultOf(repo))
    case CreateWrites(k, slot) => Held(s, k, slot) && k !in s.ready
    case CreateRegisters(k, slot) =>
      Held(s, k, slot) && k !in s.ready && k in s.disk.configs && s.disk.configs[k] == Space(false, slot)
    case CreatePublishes(k) => Written(s, k)
    case FinalizeWrites(k) => k in s.ready
    case _ => true
  }

  /** The slot a publishing request makes permanent is below `next`. */
  predicate Covers(s: State, rpc: Rpc, next: nat) {
    match rpc
    case ClonePublishes(repo) => DefaultOf(repo) in s.mem.spaces ==> s.mem.spaces[DefaultOf(repo)].slot < next
    case CreatePublishes(k) => k in s.mem.spaces ==> s.mem.spaces[k].slot < next
    case _ => true
  }

  /** A composed content is up to date. */
  ghost predicate DraftInv(s: State, rpc: Rpc, draft: Draft) {
    && Publishing(rpc) && draft.listed == NewListed(rpc, s.disk.listed)
    && s.disk.next <= draft.next <= s.mem.next && Covers(s, rpc, draft.next)
  }

  ghost predicate RpcsInv(s: State, rpcs: map<RpcId, Rpc>) {
    forall id :: id in rpcs ==> !rpcs[id].Idle? && RpcInv(s, rpcs[id])
  }

  predicate OnePerRepo(rpcs: map<RpcId, Rpc>) {
    forall i, j :: i in rpcs && j in rpcs && i != j ==> RepoOf(rpcs[i]) != RepoOf(rpcs[j])
  }

  ghost predicate DraftsInv(s: State, rpcs: map<RpcId, Rpc>, drafts: map<RpcId, Draft>) {
    && (forall id :: id in drafts ==> id in rpcs && DraftInv(s, rpcs[id], drafts[id]))
    && (forall i, j :: i in drafts && j in drafts ==> i == j)
  }

  ghost predicate Inv(w: World) {
    Base(Core(w)) && RpcsInv(Core(w), w.rpcs) && OnePerRepo(w.rpcs) && DraftsInv(Core(w), w.rpcs, w.drafts)
  }

  // ---- Steps of one request -------------------------------------------------

  /** A step that leaves everything of other repos alone, and repos.toml unless it is written. */
  ghost predicate LocalTo(repo: string, s: State, s': State) {
    && (forall k: Key :: k.repo != repo ==>
          (k in s.disk.configs <==> k in s'.disk.configs) && (k in s.disk.configs ==> s'.disk.configs[k] == s.disk.configs[k]))
    && (forall k: Key :: k.repo != repo ==>
          (k in s.mem.spaces <==> k in s'.mem.spaces) && (k in s.mem.spaces ==> s'.mem.spaces[k] == s.mem.spaces[k]))
    && (forall k: Key :: k.repo != repo ==> (k in s.ready <==> k in s'.ready))
    && (forall r :: r != repo ==> (r in s.disk.listed <==> r in s'.disk.listed))
    && s.mem.next <= s'.mem.next
    && (forall slot :: slot < s.mem.next && slot in s.owner ==> slot in s'.owner && s'.owner[slot] == s.owner[slot])
  }

  lemma RpcKept(repo: string, s: State, s': State, rpc: Rpc)
    requires LocalTo(repo, s, s') && RepoOf(rpc) != repo && !rpc.Idle? && RpcInv(s, rpc)
    ensures RpcInv(s', rpc)
  {
  }

  /** A step that does not write repos.toml. */
  ghost predicate Quiet(repo: string, s: State, s': State) {
    && LocalTo(repo, s, s') && Base(s') && s'.disk.listed == s.disk.listed && s'.disk.next == s.disk.next
    && (s'.rpc.Idle? || (RepoOf(s'.rpc) == repo && RpcInv(s', s'.rpc)))
  }

  // Requests change only their own repo ...

  lemma BeginLocal(s: State, a: Action)
    requires IsRequest(a)
    ensures LocalTo(RequestRepo(a), s, Begin(s, a))
    ensures Begin(s, a).disk.listed == s.disk.listed && Begin(s, a).disk.next == s.disk.next
    ensures s.rpc.Idle? && !Begin(s, a).rpc.Idle? ==> RepoOf(Begin(s, a).rpc) == RequestRepo(a)
  {
  }

  lemma ContinueLocal(s: State)
    requires !Publishing(s.rpc)
    ensures LocalTo(RepoOf(s.rpc), s, Continue(s))
    ensures Continue(s).disk.listed == s.disk.listed && Continue(s).disk.next == s.disk.next
    ensures !Continue(s).rpc.Idle? ==> RepoOf(Continue(s).rpc) == RepoOf(s.rpc)
  {
  }

  lemma RemovedLocal(s: State, repo: string, kept: set<Key>)
    ensures LocalTo(repo, s, Removed(s, repo, kept))
  {
  }

  // ... and keep the base invariant.

  lemma AllocateBase(s: State, k: Key, rpc: Rpc)
    requires Base(s)
    ensures Base(Allocate(s, k, rpc))
    ensures s.mem.next != MAX_SLOT ==> Held(Allocate(s, k, rpc), k, s.mem.next)
  {
  }

  lemma ShrinkBase(s: State, mem: Memory)
    requires Base(s) && mem.next == s.mem.next
    requires forall k :: k in mem.spaces ==> k in s.mem.spaces && mem.spaces[k] == s.mem.spaces[k]
    ensures Base(s.(mem := mem))
  {
  }

  lemma UnreadyBase(s: State, k: Key)
    requires Base(s)
    ensures Base(s.(ready := s.ready - {k}))
  {
  }

  /** Memory's own entry, written to disk. */
  lemma TouchBase(s: State, k: Key)
    requires Base(s) && k in s.mem.spaces
    ensures Base(s.(disk := s.disk.(configs := s.disk.configs[k := s.mem.spaces[k]])))
  {
  }

  lemma ActivateBase(s: State, k: Key)
    requires Base(s) && k in s.mem.spaces && k in s.ready
    ensures Base(s.(mem := s.mem.(spaces := s.mem.spaces[k := s.mem.spaces[k].(active := true)])))
  {
  }

  /** A config that is not settled afterwards may say anything. */
  lemma UnsettledBase(s: State, k: Key, space: Space)
    requires Base(s) && (Orphan(s.disk.listed, k) || (!space.active && k !in s.ready))
    ensures Base(s.(disk := s.disk.(configs := s.disk.configs[k := space])))
  {
  }

  lemma RegisterBase(s: State, k: Key, space: Space)
    requires Base(s) && Held(s, k, space.slot) && !Settled(s.disk, s.ready, k)
    requires Orphan(s.disk.listed, k) || (!space.active && k !in s.ready)
    ensures Base(s.(mem := Register(s.mem, k, space)))
  {
  }

  lemma FlipBase(s: State, k: Key)
    requires Base(s) && k in s.ready && k in s.disk.configs
    ensures Base(s.(disk := s.disk.(configs := s.disk.configs[k := s.disk.configs[k].(active := true)])))
  {
  }

  lemma RemoveBase(s: State, configs: map<Key, Space>)
    requires Base(s) && forall k :: k in configs ==> k in s.disk.configs && configs[k] == s.disk.configs[k]
    ensures Base(s.(disk := s.disk.(configs := configs)))
  {
  }

  lemma BeginQuiet(s: State, a: Action)
    requires Base(s) && s.rpc.Idle? && Disciplined(s, a) && IsRequest(a)
    ensures Quiet(RequestRepo(a), s, Begin(s, a))
  {
    BeginLocal(s, a);
    match a
    case Clone(repo) =>
      var mem := s.mem.(repos := s.mem.repos + {repo});
      ShrinkBase(s, mem);
      AllocateBase(s.(mem := mem), DefaultOf(repo), CloneWrites(repo, s.mem.next));
    case Create(k) =>
      UnreadyBase(s, k);
      AllocateBase(s.(ready := s.ready - {k}), k, CreateWrites(k, s.mem.next));
    case Finalize(k) => if k in s.mem.spaces { ActivateBase(s, k); }
    case Touch(k) => if k in s.mem.spaces { TouchBase(s, k); }
    case Delete(k) => ShrinkBase(s, s.mem.(spaces := s.mem.spaces - {k}));
    case DeleteRepo(repo) => ShrinkBase(s, WithoutRepo(s.mem, repo));
    case ForgetRepo(repo) => ShrinkBase(s, WithoutRepo(s.mem, repo));
  }

  lemma ContinueQuiet(s: State)
    requires Base(s) && !s.rpc.Idle? && RpcInv(s, s.rpc) && !Publishing(s.rpc)
    ensures Quiet(RepoOf(s.rpc), s, Continue(s))
  {
    ContinueLocal(s);
    match s.rpc
    case CloneWrites(repo, slot) => UnsettledBase(s, DefaultOf(repo), Space(true, slot));
    case CloneRegisters(repo, slot) => RegisterBase(s, DefaultOf(repo), Space(true, slot));
    case CreateWrites(k, slot) => UnsettledBase(s, k, Space(false, slot));
    case CreateRegisters(k, slot) => RegisterBase(s, k, Space(false, slot));
    case FinalizeWrites(k) => if k in s.disk.configs { FlipBase(s, k); }
    case DeleteRemoves(k) => RemoveBase(s, s.disk.configs - {k});
    case RepoRemoves(repo) => RemovedQuiet(s, repo, {});
  }

  lemma RemovedQuiet(s: State, repo: string, kept: set<Key>)
    requires Base(s)
    ensures Quiet(repo, s, Removed(s, repo, kept))
  {
    RemovedLocal(s, repo, kept);
    RemoveBase(s, Removed(s, repo, kept).disk.configs);
  }

  lemma StopQuiet(s: State, rpc: Rpc)
    requires Base(s) && (rpc.Idle? || (rpc.RepoUnlists? && s.rpc.RepoRemoves? && rpc.repo == s.rpc.repo))
    ensures Quiet(RepoOf(s.rpc), s, s.(rpc := rpc))
  {
  }

  /** Writing an up-to-date content publishes the request's slot and nothing else. */
  lemma PublishBase(s: State, rpc: Rpc, d: Draft)
    requires Base(s) && RpcInv(s, rpc) && DraftInv(s, rpc, d)
    ensures var ready := if rpc.CreatePublishes? then s.ready + {rpc.key} else s.ready;
            var s' := s.(disk := s.disk.(listed := d.listed, next := d.next), ready := ready);
            Base(s') && LocalTo(RepoOf(rpc), s, s')
  {
    match rpc
    case ClonePublishes(repo) => assert Written(s, DefaultOf(repo));
    case CreatePublishes(k) => assert Written(s, k);
    case RepoUnlists(repo) =>
  }

  // ---- Steps of the world ---------------------------------------------------

  /** The other requests are not disturbed by a quiet step. */
  lemma QuietInv(w: World, id: RpcId, repo: string, s': State)
    requires Inv(w) && Quiet(repo, Core(w), s')
    requires forall i :: i in w.rpcs && i != id ==> RepoOf(w.rpcs[i]) != repo
    ensures Inv(Back(w, id, s'))
  {
    var w' := Back(w, id, s');
    var s := Core(w);
    forall i | i in w'.rpcs ensures !w'.rpcs[i].Idle? && RpcInv(Core(w'), w'.rpcs[i]) {
      if i != id { RpcKept(repo, s, s', w.rpcs[i]); }
    }
    forall i | i in w'.drafts ensures DraftInv(Core(w'), w'.rpcs[i], w'.drafts[i]) {
      DraftKept(repo, s, s', w.rpcs[i], w.drafts[i]);
    }
  }

  lemma DraftKept(repo: string, s: State, s': State, rpc: Rpc, d: Draft)
    requires LocalTo(repo, s, s') && s'.disk.listed == s.disk.listed && s'.disk.next == s.disk.next
    requires RepoOf(rpc) != repo && DraftInv(s, rpc, d)
    ensures DraftInv(s', rpc, d)
  {
  }

  lemma PublishInv(w: World, id: RpcId)
    requires Inv(w) && id in w.rpcs && id in w.drafts
    ensures Inv(Publish(w, id, w.drafts[id]))
  {
    var w', rpc, d := Publish(w, id, w.drafts[id]), w.rpcs[id], w.drafts[id];
    PublishBase(Core(w), rpc, d);
    forall i | i in w'.rpcs ensures !w'.rpcs[i].Idle? && RpcInv(Core(w'), w'.rpcs[i]) {
      RpcKept(RepoOf(rpc), Core(w), Core(w'), w.rpcs[i]);
    }
  }

  lemma ComposeInv(w: World, id: RpcId)
    requires Inv(w) && id in w.rpcs && Publishing(w.rpcs[id]) && w.drafts.Keys <= {id}
    ensures Inv(Apply(w, Compose(id)))
  {
    var d := Draft(NewListed(w.rpcs[id], w.disk.listed), w.mem.next);
    assert RpcInv(Core(w), w.rpcs[id]);
    assert DraftInv(Core(w), w.rpcs[id], d);
  }

  lemma RestartInv(w: World, failed: set<string>, skipped: set<Key>, next: nat)
    requires Inv(w)
    ensures Inv(Apply(w, Restart(failed, skipped, next)))
  {
    var back := Reloaded(w.disk, failed, skipped);
    assert forall k :: k in back ==> Settled(w.disk, w.ready, k);
  }

  /** Under the clients' disciplines and both locks every step keeps the invariant. */
  lemma StepInv(w: World, m: Move)
    requires Inv(w) && Keeps(Clients, w, m) && Keeps(RepoLock, w, m) && Keeps(FileLock, w, m)
    ensures Inv(Apply(w, m))
  {
    match m
    case Issue(id, a) =>
      if id !in w.rpcs && IsRequest(a) {
        BeginQuiet(View(w, id), a);
        QuietInv(w, id, RequestRepo(a), Begin(View(w, id), a));
      }
    case Compose(id) => if id in w.rpcs && Publishing(w.rpcs[id]) { ComposeInv(w, id); }
    case Restart(failed, skipped, next) => RestartInv(w, failed, skipped, next);
    case _ => if m.id in w.rpcs { ProgressInv(w, m); }
  }

  lemma ProgressInv(w: World, m: Move)
    requires Inv(w) && (m.Proceed? || m.GiveUp? || m.PartialRemove?) && m.id in w.rpcs
    ensures Inv(Apply(w, m))
  {
    var rpc := w.rpcs[m.id];
    match m
    case Proceed(id) =>
      if !Publishing(rpc) { ContinueInv(w, id); } else if id in w.drafts { PublishInv(w, id); }
    case GiveUp(id) => GiveUpInv(w, id);
    case PartialRemove(id, kept) =>
      if rpc.RepoRemoves? { RemoveInv(w, id, kept); } else { DraftGone(w, id); }
  }

  /** Where a request's own view is concerned, the world is its core. */
  lemma ViewQuiet(w: World, id: RpcId, repo: string, s': State)
    requires Quiet(repo, View(w, id), s')
    ensures Quiet(repo, Core(w), s')
  {
  }

  lemma ContinueInv(w: World, id: RpcId)
    requires Inv(w) && id in w.rpcs && !Publishing(w.rpcs[id])
    ensures Inv(Back(w, id, Continue(View(w, id))))
  {
    var v := View(w, id);
    RpcViewed(w, id);
    ContinueQuiet(v);
    ViewQuiet(w, id, RepoOf(v.rpc), Continue(v));
    QuietInv(w, id, RepoOf(v.rpc), Continue(v));
  }

  lemma RpcViewed(w: World, id: RpcId)
    requires Inv(w) && id in w.rpcs
    ensures var v := View(w, id); Base(v) && !v.rpc.Idle? && RpcInv(v, v.rpc)
  {
    assert RpcInv(Core(w), w.rpcs[id]);
  }

  lemma GiveUpInv(w: World, id: RpcId)
    requires Inv(w) && id in w.rpcs
    ensures Inv(Back(w, id, Slots.Apply(View(w, id), Fail)))
  {
    var v := View(w, id);
    RpcViewed(w, id);
    var s' := Slots.Apply(v, Fail);
    StopQuiet(v, s'.rpc);
    ViewQuiet(w, id, RepoOf(v.rpc), s');
    QuietInv(w, id, RepoOf(v.rpc), s');
  }

  lemma RemoveInv(w: World, id: RpcId, kept: set<Key>)
    requires Inv(w) && id in w.rpcs && w.rpcs[id].RepoRemoves?
    ensures Inv(Back(w, id, Slots.Apply(View(w, id), Remove(kept))))
  {
    var v := View(w, id);
    RpcViewed(w, id);
    RemovedQuiet(v, v.rpc.repo, kept);
    ViewQuiet(w, id, v.rpc.repo, Removed(v, v.rpc.repo, kept));
    QuietInv(w, id, v.rpc.repo, Removed(v, v.rpc.repo, kept));
  }

  lemma DraftGone(w: World, id: RpcId)
    requires Inv(w) && id in w.rpcs
    ensures Inv(Back(w, id, View(w, id)))
  {
    assert !w.rpcs[id].Idle? && w.rpcs[id := w.rpcs[id]] == w.rpcs;
  }

  lemma {:induction false} RunInv(moves: seq<Move>)
    requires KeptBy(Clients, moves) && KeptBy(RepoLock, moves) && KeptBy(FileLock, moves)
    ensures Inv(Run(moves))
  {
    if moves != [] {
      RunInv(moves[..|moves| - 1]);
      StepInv(Run(moves[..|moves| - 1]), moves[|moves| - 1]);
    }
  }

  ghost predicate Collision(w: World) {
    exists k1, k2 :: k1 in w.mem.spaces && k2 in w.mem.spaces && k1 != k2 && w.mem.spaces[k1].slot == w.mem.spaces[k2].slot
  }

  /** With both locks no interleaving of requests and crashes puts two workspaces on one slot. */
  lemma LocksPreventCollisions(moves: seq<Move>)
    requires KeptBy(Clients, moves) && KeptBy(RepoLock, moves) && KeptBy(FileLock, moves)
    ensures !Collision(Run(moves))
  {
    RunInv(moves);
  }

  // ---- Neither lock can be left out -----------------------------------------

  /** Some run of disciplined clients that respects one lock, if not the other, ends in `w`. */
  ghost predicate Reached(lock: Rule, w: World) {
    exists moves :: KeptBy(Clients, moves) && KeptBy(lock, moves) && Run(moves) == w
  }

  lemma ReachedNext(lock: Rule, w: World, m: Move)
    requires Reached(lock, w) && Keeps(Clients, w, m) && Keeps(lock, w, m)
    ensures Reached(lock, Apply(w, m))
  {
    var moves :| KeptBy(Clients, moves) && KeptBy(lock, moves) && Run(moves) == w;
    var more := moves + [m];
    assert more[..|more| - 1] == moves;
    assert KeptBy(Clients, more) && KeptBy(lock, more) && Run(more) == Apply(w, m);
  }

  lemma ReachedEmpty(lock: Rule)
    ensures Reached(lock, EMPTY)
  {
    assert KeptBy(Clients, []) && KeptBy(lock, []) && Run([]) == EMPTY;
  }

  /** Two steps of a request that is not publishing. */
  lemma ReachedTwice(lock: Rule, w: World, id: RpcId)
    requires Reached(lock, w)
    ensures Reached(lock, Apply(Apply(w, Proceed(id)), Proceed(id)))
  {
    ReachedNext(lock, w, Proceed(id));
    ReachedNext(lock, Apply(w, Proceed(id)), Proceed(id));
  }

  /** Compose and write, with nothing in between. */
  lemma ReachedPublished(lock: Rule, w: World, id: RpcId)
    requires Reached(lock, w) && Keeps(lock, w, Compose(id))
    ensures Reached(lock, Apply(Apply(w, Compose(id)), Proceed(id)))
  {
    ReachedNext(lock, w, Compose(id));
    ReachedNext(lock, Apply(w, Compose(id)), Proceed(id));
  }

  /** A clone up to the point where it is about to publish. */
  function CloneWaits(w: World, id: RpcId, repo: string): World {
    var n, k := w.mem.next, DefaultOf(repo);
    World(w.disk.(configs := w.disk.configs[k := Space(true, n)]),
          Memory(n + 1, w.mem.repos + {repo}, w.mem.spaces[k := Space(true, n)]),
          w.rpcs[id := ClonePublishes(repo)], w.drafts - {id}, w.ready, w.owner[n := k])
  }

  lemma CloneSteps(w: World, id: RpcId, repo: string)
    requires id !in w.rpcs && repo !in w.mem.repos && DefaultOf(repo) !in w.mem.spaces && w.mem.next < MAX_SLOT
    ensures Apply(Apply(Apply(w, Issue(id, Clone(repo))), Proceed(id)), Proceed(id)) == CloneWaits(w, id, repo)
  {
    var n, k := w.mem.next, DefaultOf(repo);
    var w1 := Apply(w, Issue(id, Clone(repo)));
    assert w1 == World(w.disk, Memory(n + 1, w.mem.repos + {repo}, w.mem.spaces), w.rpcs[id := CloneWrites(repo, n)],
                       w.drafts - {id}, w.ready, w.owner[n := k]);
    CloneWrite(w1, id, repo, n);
    CloneRegister(Apply(w1, Proceed(id)), id, repo, n);
    assert w.rpcs[id := CloneWrites(repo, n)][id := CloneRegisters(repo, n)][id := ClonePublishes(repo)] ==
           w.rpcs[id := ClonePublishes(repo)];
  }

  lemma CloneWrite(w: World, id: RpcId, repo: string, n: nat)
    requires id in w.rpcs && w.rpcs[id] == CloneWrites(repo, n) && id !in w.drafts
    ensures Apply(w, Proceed(id)) == w.(disk := w.disk.(configs := w.disk.configs[DefaultOf(repo) := Space(true, n)]),
                                        rpcs := w.rpcs[id := CloneRegisters(repo, n)])
  {
    assert w.drafts - {id} == w.drafts;
  }

  lemma CloneRegister(w: World, id: RpcId, repo: string, n: nat)
    requires id in w.rpcs && w.rpcs[id] == CloneRegisters(repo, n) && id !in w.drafts && DefaultOf(repo) !in w.mem.spaces
    ensures Apply(w, Proceed(id)) == w.(mem := Register(w.mem, DefaultOf(repo), Space(true, n)), rpcs := w.rpcs[id := ClonePublishes(repo)])
  {
    assert w.drafts - {id} == w.drafts;
  }

  lemma ReachedCloneWaits(lock: Rule, w: World, id: RpcId, repo: string)
    requires Reached(lock, w) && repo !in w.disk.listed && Keeps(lock, w, Issue(id, Clone(repo)))
    requires id !in w.rpcs && repo !in w.mem.repos && DefaultOf(repo) !in w.mem.spaces && w.mem.next < MAX_SLOT
    ensures Reached(lock, CloneWaits(w, id, repo))
  {
    ReachedNext(lock, w, Issue(id, Clone(repo)));
    ReachedTwice(lock, Apply(w, Issue(id, Clone(repo))), id);
    CloneSteps(w, id, repo);
  }

  function CreateWaits(w: World, id: RpcId, k: Key): World {
    var n := w.mem.next;
    World(w.disk.(configs := w.disk.configs[k := Space(false, n)]), Memory(n + 1, w.mem.repos, w.mem.spaces[k := Space(false, n)]),
          w.rpcs[id := CreatePublishes(k)], w.drafts - {id}, w.ready - {k}, w.owner[n := k])
  }

  lemma CreateSteps(w: World, id: RpcId, k: Key)
    requires id !in w.rpcs && k.repo in w.mem.repos && k !in w.mem.spaces && w.mem.next < MAX_SLOT
    ensures Apply(Apply(Apply(w, Issue(id, Create(k))), Proceed(id)), Proceed(id)) == CreateWaits(w, id, k)
  {
    var n := w.mem.next;
    var w1 := Apply(w, Issue(id, Create(k)));
    assert w1 == World(w.disk, Memory(n + 1, w.mem.repos, w.mem.spaces), w.rpcs[id := CreateWrites(k, n)],
                       w.drafts - {id}, w.ready - {k}, w.owner[n := k]);
    CreateWrite(w1, id, k, n);
    CreateRegister(Apply(w1, Proceed(id)), id, k, n);
    assert w.rpcs[id := CreateWrites(k, n)][id := CreateRegisters(k, n)][id := CreatePublishes(k)] ==
           w.rpcs[id := CreatePublishes(k)];
  }

  lemma CreateWrite(w: World, id: RpcId, k: Key, n: nat)
    requires id in w.rpcs && w.rpcs[id] == CreateWrites(k, n) && id !in w.drafts
    ensures Apply(w, Proceed(id)) == w.(disk := w.disk.(configs := w.disk.configs[k := Space(false, n)]),
                                        rpcs := w.rpcs[id := CreateRegisters(k, n)])
  {
    assert w.drafts - {id} == w.drafts;
  }

  lemma CreateRegister(w: World, id: RpcId, k: Key, n: nat)
    requires id in w.rpcs && w.rpcs[id] == CreateRegisters(k, n) && id !in w.drafts && k !in w.mem.spaces
    ensures Apply(w, Proceed(id)) == w.(mem := Register(w.mem, k, Space(false, n)), rpcs := w.rpcs[id := CreatePublishes(k)])
  {
    assert w.drafts - {id} == w.drafts;
  }

  lemma ReachedCreateWaits(lock: Rule, w: World, id: RpcId, k: Key)
    requires Reached(lock, w) && Keeps(lock, w, Issue(id, Create(k)))
    requires id !in w.rpcs && k.repo in w.mem.repos && k !in w.mem.spaces && w.mem.next < MAX_SLOT
    ensures Reached(lock, CreateWaits(w, id, k))
  {
    ReachedNext(lock, w, Issue(id, Create(k)));
    ReachedTwice(lock, Apply(w, Issue(id, Create(k))), id);
    CreateSteps(w, id, k);
  }

  /** What publishing at once makes of a waiting request. */
  function PublishedNow(w: World, id: RpcId): World
    requires id in w.rpcs
  {
    Publish(w, id, Draft(NewListed(w.rpcs[id], w.disk.listed), w.mem.next))
  }

  lemma ReachedPublishedNow(lock: Rule, w: World, id: RpcId)
    requires Reached(lock, w) && Keeps(lock, w, Compose(id)) && id in w.rpcs && Publishing(w.rpcs[id])
    ensures Reached(lock, PublishedNow(w, id))
  {
    ReachedPublished(lock, w, id);
    var d := Draft(NewListed(w.rpcs[id], w.disk.listed), w.mem.next);
    assert w.drafts[id := d] - {id} == w.drafts - {id};
    assert Apply(Apply(w, Compose(id)), Proceed(id)) == PublishedNow(w, id);
  }

  /**
   * A listed, active config at the persisted counter is enough for a collision:
   * its repo fails to open once, and the next clone is given its slot.
   */
  lemma AtCounterCollides(lock: Rule, w: World, k: Key)
    requires Reached(lock, w) && "Q" !in w.disk.listed && k.repo == "R" && "R" in w.disk.listed && w.disk.next < MAX_SLOT
    requires k in w.disk.configs && w.disk.configs[k] == Space(true, w.disk.next)
    requires forall j :: j in w.disk.configs ==> j.repo != "Q" && w.disk.configs[j].slot <= w.disk.next
    requires forall j :: j in w.disk.configs && j.repo != "R" ==> w.disk.configs[j].slot < w.disk.next
    ensures exists moves :: KeptBy(Clients, moves) && KeptBy(lock, moves) && Collision(Run(moves))
  {
    var n := w.disk.next;
    var back := Reloaded(w.disk, {"R"}, {});
    ReachedNext(lock, w, Restart({"R"}, {}, n));
    var w1 := World(w.disk, Memory(n, w.disk.listed - {"R"}, back), map[], map[], w.ready, w.owner);
    WithoutR(w);
    ReachedCloneWaits(lock, w1, 0, "Q");
    var w2 := CloneWaits(w1, 0, "Q");
    ReachedPublishedNow(lock, w2, 0);
    var w3 := PublishedNow(w2, 0);
    ReachedNext(lock, w3, Restart({}, {}, n + 1));
    BothBack(w3, k, n);
    assert Reached(lock, Apply(w3, Restart({}, {}, n + 1)));
  }

  lemma WithoutR(w: World)
    requires forall j :: j in w.disk.configs && j.repo != "R" ==> w.disk.configs[j].slot < w.disk.next
    ensures var back := Reloaded(w.disk, {"R"}, {});
            Apply(w, Restart({"R"}, {}, w.disk.next)) ==
              World(w.disk, Memory(w.disk.next, w.disk.listed - {"R"}, back), map[], map[], w.ready, w.owner)
  {
    assert Bumped(w.disk.next, Reloaded(w.disk, {"R"}, {}), w.disk.next);
  }

  lemma BothBack(w: World, k: Key, n: nat)
    requires w.disk.next == n + 1 && "R" in w.disk.listed && "Q" in w.disk.listed && k.repo == "R"
    requires k in w.disk.configs && QD in w.disk.configs && w.disk.configs[k] == w.disk.configs[QD] == Space(true, n)
    requires forall j :: j in w.disk.configs ==> w.disk.configs[j].slot <= n
    ensures Collision(Apply(w, Restart({}, {}, n + 1)))
  {
    var back := Reloaded(w.disk, {}, {});
    assert k in back && QD in back && k != QD;
    assert Bumped(n + 1, back, n + 1);
  }

  const PD: Key := DefaultOf("P")
  const TD: Key := DefaultOf("T")

  /** R has been cloned. */
  const CLONED_R: World :=
    World(Disk(2, {"R"}, map[RD := Space(true, 1)]), Memory(2, {"R"}, map[RD := Space(true, 1)]), map[], map[], {}, map[1 := RD])

  lemma ReachedR(lock: Rule)
    ensures Reached(lock, CLONED_R)
  {
    ReachedEmpty(lock);
    ReachedCloneWaits(lock, EMPTY, 0, "R");
    ReachedPublishedNow(lock, CloneWaits(EMPTY, 0, "R"), 0);
    ClonesR();
  }

  lemma ClonesR()
    ensures PublishedNow(CloneWaits(EMPTY, 0, "R"), 0) == CLONED_R
  {
  }

  /** Both steps of a finalize, with other requests possibly in between. */
  lemma FinalizeIssued(w: World, id: RpcId, k: Key)
    requires id !in w.rpcs && id !in w.drafts && k in w.mem.spaces
    ensures Apply(w, Issue(id, Finalize(k))) ==
              w.(mem := w.mem.(spaces := w.mem.spaces[k := w.mem.spaces[k].(active := true)]), rpcs := w.rpcs[id := FinalizeWrites(k)])
  {
    assert w.drafts - {id} == w.drafts;
  }

  lemma FinalizeWritten(w: World, id: RpcId, k: Key)
    requires id in w.rpcs && w.rpcs[id] == FinalizeWrites(k) && id !in w.drafts && k in w.disk.configs
    ensures Apply(w, Proceed(id)) ==
              w.(disk := w.disk.(configs := w.disk.configs[k := w.disk.configs[k].(active := true)]), rpcs := w.rpcs - {id})
  {
    assert w.drafts - {id} == w.drafts;
  }

  // An older counter overwrites a newer one.

  /** A clone of P has composed its repos.toml and not written it. */
  const P_COMPOSED: World :=
    World(Disk(2, {"R"}, map[RD := Space(true, 1), PD := Space(true, 2)]),
          Memory(3, {"R", "P"}, map[RD := Space(true, 1), PD := Space(true, 2)]),
          map[1 := ClonePublishes("P")], map[1 := Draft({"R", "P"}, 3)], {}, map[1 := RD, 2 := PD])

  lemma ReachedPComposed()
    ensures Reached(RepoLock, P_COMPOSED)
  {
    ReachedR(RepoLock);
    assert "P" != "R" && DefaultOf("P") != DefaultOf("R");
    ReachedCloneWaits(RepoLock, CLONED_R, 1, "P");
    ReachedNext(RepoLock, CloneWaits(CLONED_R, 1, "P"), Compose(1));
    PComposes();
  }

  lemma PComposes()
    ensures Apply(CloneWaits(CLONED_R, 1, "P"), Compose(1)) == P_COMPOSED
  {
    assert {"R"} + {"P"} == {"R", "P"};
  }

  /** Meanwhile W has been created in R and published. */
  const W_OVERTOOK: World :=
    World(Disk(4, {"R"}, map[RD := Space(true, 1), PD := Space(true, 2), W := Space(false, 3)]),
          Memory(4, {"R", "P"}, map[RD := Space(true, 1), PD := Space(true, 2), W := Space(false, 3)]),
          map[1 := ClonePublishes("P")], map[1 := Draft({"R", "P"}, 3)], {W}, map[1 := RD, 2 := PD, 3 := W])

  lemma ReachedWOvertook()
    ensures Reached(RepoLock, W_OVERTOOK)
  {
    ReachedPComposed();
    assert RepoOf(P_COMPOSED.rpcs[1]) != W.repo;
    ReachedCreateWaits(RepoLock, P_COMPOSED, 2, W);
    ReachedPublishedNow(RepoLock, CreateWaits(P_COMPOSED, 2, W), 2);
    WOvertakes();
  }

  lemma WOvertakes()
    ensures PublishedNow(CreateWaits(P_COMPOSED, 2, W), 2) == W_OVERTOOK
  {
    var w := CreateWaits(P_COMPOSED, 2, W);
    assert w.rpcs - {2} == W_OVERTOOK.rpcs && w.drafts - {2} == W_OVERTOOK.drafts;
  }

  /** The clone of P writes its older counter; then W is finalized. */
  const STALE: World :=
    World(Disk(3, {"R", "P"}, map[RD := Space(true, 1), PD := Space(true, 2), W := Space(false, 3)]),
          W_OVERTOOK.mem, map[], map[], {W}, W_OVERTOOK.owner)

  lemma ReachedStale()
    ensures Reached(RepoLock, STALE)
  {
    ReachedWOvertook();
    ReachedNext(RepoLock, W_OVERTOOK, Proceed(1));
    assert W_OVERTOOK.rpcs - {1} == map[] && W_OVERTOOK.drafts - {1} == map[];
    assert Apply(W_OVERTOOK, Proceed(1)) == STALE;
  }

  const STALE_FINALIZED: World :=
    STALE.(disk := Disk(3, {"R", "P"}, map[RD := Space(true, 1), PD := Space(true, 2), W := Space(true, 3)]),
           mem := Memory(4, {"R", "P"}, map[RD := Space(true, 1), PD := Space(true, 2), W := Space(true, 3)]))

  lemma ReachedStaleFinalized()
    ensures Reached(RepoLock, STALE_FINALIZED)
  {
    ReachedStale();
    ReachedNext(RepoLock, STALE, Issue(3, Finalize(W)));
    ReachedNext(RepoLock, Apply(STALE, Issue(3, Finalize(W))), Proceed(3));
    StaleFinalizes();
  }

  lemma StaleFinalizes()
    ensures Apply(Apply(STALE, Issue(3, Finalize(W))), Proceed(3)) == STALE_FINALIZED
  {
    FinalizeIssued(STALE, 3, W);
    var w := Apply(STALE, Issue(3, Finalize(W)));
    FinalizeWritten(w, 3, W);
    assert w.rpcs - {3} == map[];
  }

  /** One request per repo at a time is not enough: an older counter overwrites a newer one. */
  lemma StaleCounterCollides()
    ensures exists moves :: KeptBy(Clients, moves) && KeptBy(RepoLock, moves) && Collision(Run(moves))
  {
    ReachedStaleFinalized();
    AtCounterCollides(RepoLock, STALE_FINALIZED, W);
  }

  /** T has been cloned and acknowledged while P's content waits. */
  const T_OVERTOOK: World :=
    World(Disk(4, {"R", "T"}, map[RD := Space(true, 1), PD := Space(true, 2), TD := Space(true, 3)]),
          Memory(4, {"R", "P", "T"}, map[RD := Space(true, 1), PD := Space(true, 2), TD := Space(true, 3)]),
          map[1 := ClonePublishes("P")], map[1 := Draft({"R", "P"}, 3)], {}, map[1 := RD, 2 := PD, 3 := TD])

  /** Without the file lock another clone can also take an acknowledged repo out of repos.toml. */
  lemma AcknowledgedRepoDropped()
    ensures Reached(RepoLock, T_OVERTOOK)
    ensures "T" in T_OVERTOOK.disk.listed && "T" !in Apply(T_OVERTOOK, Proceed(1)).disk.listed
  {
    ReachedPComposed();
    assert RepoOf(P_COMPOSED.rpcs[1]) != "T";
    ReachedCloneWaits(RepoLock, P_COMPOSED, 2, "T");
    ReachedPublishedNow(RepoLock, CloneWaits(P_COMPOSED, 2, "T"), 2);
    TOvertakes();
  }

  lemma TOvertakes()
    ensures PublishedNow(CloneWaits(P_COMPOSED, 2, "T"), 2) == T_OVERTOOK
  {
    var w := CloneWaits(P_COMPOSED, 2, "T");
    assert {"R"} + {"T"} == {"R", "T"} && {"R", "P"} + {"T"} == {"R", "P", "T"};
    assert w.rpcs - {2} == T_OVERTOOK.rpcs && w.drafts - {2} == T_OVERTOOK.drafts;
  }

  // Requests on one workspace overtake each other.

  /** W has been created, published and acknowledged. */
  const CREATED_W: World :=
    World(Disk(3, {"R"}, map[RD := Space(true, 1), W := Space(false, 2)]),
          Memory(3, {"R"}, map[RD := Space(true, 1), W := Space(false, 2)]), map[], map[], {W}, map[1 := RD, 2 := W])

  lemma ReachedCreatedW()
    ensures Reached(FileLock, CREATED_W)
  {
    ReachedR(FileLock);
    ReachedCreateWaits(FileLock, CLONED_R, 1, W);
    var w := CreateWaits(CLONED_R, 1, W);
    ReachedPublishedNow(FileLock, w, 1);
    CreatesW();
  }

  lemma CreatesW()
    ensures PublishedNow(CreateWaits(CLONED_R, 1, W), 1) == CREATED_W
  {
  }

  /** Its finalize is under way when a second create rewrites its config. */
  const REWRITTEN: World :=
    World(Disk(3, {"R"}, map[RD := Space(true, 1), W := Space(false, 3)]),
          Memory(4, {"R"}, map[RD := Space(true, 1), W := Space(true, 2)]),
          map[2 := FinalizeWrites(W), 3 := CreateRegisters(W, 3)], map[], {}, map[1 := RD, 2 := W, 3 := W])

  lemma ReachedRewritten()
    ensures Reached(FileLock, REWRITTEN)
  {
    ReachedCreatedW();
    ReachedNext(FileLock, CREATED_W, Issue(2, Finalize(W)));
    var w1 := Apply(CREATED_W, Issue(2, Finalize(W)));
    ReachedNext(FileLock, w1, Issue(3, Create(W)));
    ReachedNext(FileLock, Apply(w1, Issue(3, Create(W))), Proceed(3));
    Rewrites();
  }

  lemma Rewrites()
    ensures Apply(Apply(Apply(CREATED_W, Issue(2, Finalize(W))), Issue(3, Create(W))), Proceed(3)) == REWRITTEN
  {
    FinalizeIssued(CREATED_W, 2, W);
    var w1 := Apply(CREATED_W, Issue(2, Finalize(W)));
    var w2 := Apply(w1, Issue(3, Create(W)));
    assert w2 == World(w1.disk, Memory(4, {"R"}, w1.mem.spaces), map[2 := FinalizeWrites(W), 3 := CreateWrites(W, 3)],
                       map[], {}, map[1 := RD, 2 := W, 3 := W]);
    CreateWrite(w2, 3, W, 3);
  }

  /** The finalize then marks the rewritten config active, slot and all. */
  const FINALIZED_LATE: World :=
    REWRITTEN.(disk := Disk(3, {"R"}, map[RD := Space(true, 1), W := Space(true, 3)]), rpcs := map[3 := CreateRegisters(W, 3)])

  lemma ReachedFinalizedLate()
    ensures Reached(FileLock, FINALIZED_LATE)
  {
    ReachedRewritten();
    ReachedNext(FileLock, REWRITTEN, Proceed(2));
    FinalizesLate();
  }

  lemma FinalizesLate()
    ensures Apply(REWRITTEN, Proceed(2)) == FINALIZED_LATE
  {
    FinalizeWritten(REWRITTEN, 2, W);
    assert REWRITTEN.rpcs - {2} == FINALIZED_LATE.rpcs;
  }

  /** A lock on repos.toml alone is not enough either: the finalize keeps a slot that was never persisted. */
  lemma FinalizeRaceCollides()
    ensures exists moves :: KeptBy(Clients, moves) && KeptBy(FileLock, moves) && Collision(Run(moves))
  {
    ReachedFinalizedLate();
    AtCounterCollides(FileLock, FINALIZED_LATE, W);
  }
}
