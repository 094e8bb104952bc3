/**
 * The workspace slot allocator: `repos.toml`, the `workspace.toml` files and the
 * in-memory registry, with a crash possible between any two writes.
 */
module Slots {
  import opened Common

  datatype Key = Key(repo: string, ws: string)

  /** The state and slot of a workspace, on disk or in memory. */
  datatype Space = Space(active: bool, slot: nat)

  datatype Disk = Disk(next: nat, listed: set<string>, configs: map<Key, Space>)

  datatype Memory = Memory(next: nat, repos: set<string>, spaces: map<Key, Space>)

  /** What the RPC being served does next. RPCs are served one at a time. */
  datatype Rpc =
    | Idle
    | CloneWrites(repo: string, slot: nat)
    | CloneRegisters(repo: string, slot: nat)
    | ClonePublishes(repo: string)
    | CreateWrites(key: Key, slot: nat)
    | CreateRegisters(key: Key, slot: nat)
    | CreatePublishes(key: Key)
    | FinalizeWrites(key: Key)
    | DeleteRemoves(key: Key)
    | RepoRemoves(repo: string)
    | RepoUnlists(repo: string)

  /**
   * `ready`: workspaces whose latest create was acknowledged. `owner`: the
   * workspace each slot was last allocated to, a history variable.
   */
  datatype State = State(disk: Disk, mem: Memory, rpc: Rpc, ready: set<Key>, owner: map<nat, Key>)

  datatype Action =
    | Clone(repo: string)
    | Create(key: Key)
    | Finalize(key: Key)
    | Touch(key: Key)
    | Delete(key: Key)
    | DeleteRepo(repo: string)
    | ForgetRepo(repo: string)
    /** The RPC in flight takes its next step. */
    | Advance
    /** That step fails; the RPC gives up where the code gives up. */
    | Fail
    /** A directory removal that leaves `kept` behind. */
    | Remove(kept: set<Key>)
    /** The daemon dies and restarts; some repos fail to open and some configs to load. */
    | Crash(failed: set<string>, skipped: set<Key>, next: nat)

  const MAX_SLOT: nat := 0xFFFF_FFFF

  const INIT: State := State(Disk(1, {}, map[]), Memory(1, {}, map[]), Idle, {}, map[])

  function DefaultOf(repo: string): Key {
    Key(repo, "default")
  }

  function Max(a: nat, b: nat): nat {
    if a < b then b else a
  }

  // ---- The daemon's steps ---------------------------------------------------

  /** `RootFs::register_workspace`, once the name is known to be free. */
  function Register(m: Memory, k: Key, space: Space): Memory {
    m.(next := Max(m.next, space.slot + 1), spaces := m.spaces[k := space])
  }

  /** `alloc_slot` for workspace `k`; on overflow the request dies and nothing changes. */
  function Allocate(s: State, k: Key, rpc: Rpc): State {
    if s.mem.next == MAX_SLOT then s
    else s.(mem := s.mem.(next := s.mem.next + 1), rpc := rpc, owner := s.owner[s.mem.next := k])
  }

  function Begin(s: State, a: Action): State {
    match a
    case Clone(repo) =>
      if repo in s.mem.repos then s
      else Allocate(s.(mem := s.mem.(repos := s.mem.repos + {repo})), DefaultOf(repo), CloneWrites(repo, s.mem.next))
    case Create(k) =>
      if k.repo !in s.mem.repos then s
      else Allocate(s.(ready := s.ready - {k}), k, CreateWrites(k, s.mem.next))
    case Finalize(k) =>
      if k !in s.mem.spaces then s
      else s.(mem := s.mem.(spaces := s.mem.spaces[k := s.mem.spaces[k].(active := true)]), rpc := FinalizeWrites(k))
    case Touch(k) =>
      if k !in s.mem.spaces then s
      else s.(disk := s.disk.(configs := s.disk.configs[k := s.mem.spaces[k]]))
    case Delete(k) =>
      if k !in s.mem.spaces then s
      else s.(mem := s.mem.(spaces := s.mem.spaces - {k}), rpc := DeleteRemoves(k))
    case DeleteRepo(repo) =>
      if repo !in s.mem.repos then s else s.(mem := WithoutRepo(s.mem, repo), rpc := RepoRemoves(repo))
    case ForgetRepo(repo) =>
      if repo !in s.mem.repos then s else s.(mem := WithoutRepo(s.mem, repo), rpc := RepoUnlists(repo))
    case _ => s
  }

  /** `RootFs::remove_repo`. */
  function WithoutRepo(m: Memory, repo: string): Memory {
    m.(repos := m.repos - {repo}, spaces := map k | k in m.spaces && k.repo != repo :: m.spaces[k])
  }

  /** The next write or registration of the RPC in flight. */
  function Continue(s: State): State {
    match s.rpc
    case CloneWrites(repo, slot) =>
      s.(disk := s.disk.(configs := s.disk.configs[DefaultOf(repo) := Space(true, slot)]), rpc := CloneRegisters(repo, slot))
    case CloneRegisters(repo, slot) =>
      if DefaultOf(repo) in s.mem.spaces then s.(rpc := Idle)
      else s.(mem := Register(s.mem, DefaultOf(repo), Space(true, slot)), rpc := ClonePublishes(repo))
    case ClonePublishes(repo) =>
      s.(disk := s.disk.(listed := s.disk.listed + {repo}, next := s.mem.next), rpc := Idle)
    case CreateWrites(k, slot) =>
      s.(disk := s.disk.(configs := s.disk.configs[k := Space(false, slot)]), rpc := CreateRegisters(k, slot))
    case CreateRegisters(k, slot) =>
      if k in s.mem.spaces then s.(rpc := Idle)
      else s.(mem := Register(s.mem, k, Space(false, slot)), rpc := CreatePublishes(k))
    case CreatePublishes(k) =>
      s.(disk := s.disk.(next := s.mem.next), ready := s.ready + {k}, rpc := Idle)
    case FinalizeWrites(k) =>
      if k !in s.disk.configs then s.(rpc := Idle)
      else s.(disk := s.disk.(configs := s.disk.configs[k := s.disk.configs[k].(active := true)]), rpc := Idle)
    case DeleteRemoves(k) =>
      s.(disk := s.disk.(configs := s.disk.configs - {k}), rpc := Idle)
    case RepoRemoves(repo) =>
      Removed(s, repo, {})
    case RepoUnlists(repo) =>
      s.(disk := s.disk.(listed := s.disk.listed - {repo}, next := s.mem.next), rpc := Idle)
    case Idle => s
  }

  function Removed(s: State, repo: string, kept: set<Key>): State {
    s.(disk := s.disk.(configs := map k | k in s.disk.configs && (k.repo != repo || k in kept) :: s.disk.configs[k]),
       rpc := RepoUnlists(repo))
  }

  /** `next` is what registering these workspaces makes of the persisted counter. */
  ghost predicate Bumped(start: nat, spaces: map<Key, Space>, next: nat) {
    && start <= next
    && (forall k :: k in spaces ==> spaces[k].slot < next)
    && (next == start || exists k :: k in spaces && next == spaces[k].slot + 1)
  }

  /** `rehydrate_root_fs` registers the active configs of the listed repos it can open. */
  function Reloaded(d: Disk, failed: set<string>, skipped: set<Key>): map<Key, Space> {
    map k | k in d.configs && d.configs[k].active && k.repo in d.listed - failed && k !in skipped :: d.configs[k]
  }

  ghost function Apply(s: State, a: Action): State {
    match a
    case Crash(failed, skipped, next) =>
      if Bumped(s.disk.next, Reloaded(s.disk, failed, skipped), next)
      then s.(mem := Memory(next, s.disk.listed - failed, Reloaded(s.disk, failed, skipped)), rpc := Idle)
      else s
    case Advance => Continue(s)
    case Fail => if s.rpc.RepoRemoves? then s.(rpc := RepoUnlists(s.rpc.repo)) else s.(rpc := Idle)
    case Remove(kept) => if s.rpc.RepoRemoves? then Removed(s, s.rpc.repo, kept) else s
    case _ => if s.rpc.Idle? then Begin(s, a) else s
  }

  /** What clients are asked to respect: clone only names not in repos.toml; finalize only after an acknowledged create. */
  datatype Discipline = CloneNewNames | FinalizeCreated

  predicate Respects(d: Discipline, s: State, a: Action) {
    match d
    case CloneNewNames => a.Clone? ==> a.repo !in s.disk.listed
    case FinalizeCreated => a.Finalize? ==> a.key in s.ready
  }

  predicate Disciplined(s: State, a: Action) {
    Respects(CloneNewNames, s, a) && Respects(FinalizeCreated, s, a)
  }

  ghost function Run(actions: seq<Action>): State {
    if actions == [] then INIT else Apply(Run(actions[..|actions| - 1]), actions[|actions| - 1])
  }

  /** A run that respects one discipline at every step. */
  ghost predicate RespectedBy(d: Discipline, actions: seq<Action>) {
    actions == [] ||
    (RespectedBy(d, actions[..|actions| - 1]) && Respects(d, Run(actions[..|actions| - 1]), actions[|actions| - 1]))
  }

  ghost predicate DisciplinedRun(actions: seq<Action>) {
    RespectedBy(CloneNewNames, actions) && RespectedBy(FinalizeCreated, actions)
  }

  // ---- The invariant --------------------------------------------------------

  /** The `default` config a crashed clone leaves for a repo that is not in repos.toml. */
  predicate Orphan(listed: set<string>, k: Key) {
    k.ws == "default" && k.repo !in listed
  }

  /** A config that a restart may register, now or once its client finalizes it. */
  predicate Settled(d: Disk, ready: set<Key>, k: Key) {
    k in d.configs && (d.configs[k].active || k in ready) && !Orphan(d.listed, k)
  }

  ghost predicate Owns(owner: map<nat, Key>, k: Key, slot: nat) {
    slot in owner && owner[slot] == k
  }

  ghost predicate MemoryOwned(m: Memory, owner: map<nat, Key>) {
    forall k :: k in m.spaces ==> m.spaces[k].slot < m.next && Owns(owner, k, m.spaces[k].slot)
  }

  ghost predicate DiskOwned(d: Disk, ready: set<Key>, owner: map<nat, Key>) {
    forall k :: Settled(d, ready, k) ==> d.configs[k].slot < d.next && Owns(owner, k, d.configs[k].slot)
  }

  /** A registered workspace and its settled config name the same slot. */
  ghost predicate Agree(d: Disk, m: Memory, ready: set<Key>) {
    forall k :: k in m.spaces && Settled(d, ready, k) ==> d.configs[k].slot == m.spaces[k].slot
  }

  /** Slots of usable workspaces lie below the persisted counter. */
  ghost predicate Durable(d: Disk, m: Memory, ready: set<Key>) {
    forall k :: k in m.spaces && (m.spaces[k].active || k in ready) && !Orphan(d.listed, k) ==> m.spaces[k].slot < d.next
  }

  /** The slot just allocated belongs to `k` and nobody uses it yet. */
  ghost predicate Unused(s: State, k: Key, slot: nat) {
    && s.disk.next <= slot < s.mem.next && Owns(s.owner, k, slot)
    && forall other :: other in s.mem.spaces ==> s.mem.spaces[other].slot != slot
  }

  ghost predicate InFlight(s: State) {
    match s.rpc
    case CloneWrites(repo, slot) => Unused(s, DefaultOf(repo), slot) && repo !in s.disk.listed
    case CloneRegisters(repo, slot) =>
      && Unused(s, DefaultOf(repo), slot) && repo !in s.disk.listed
      && DefaultOf(repo) in s.disk.configs && s.disk.configs[DefaultOf(repo)] == Space(true, slot)
    case ClonePublishes(repo) =>
      && repo !in s.disk.listed && DefaultOf(repo) in s.mem.spaces && DefaultOf(repo) in s.disk.configs
      && s.disk.configs[DefaultOf(repo)] == s.mem.spaces[DefaultOf(repo)] && s.mem.spaces[DefaultOf(repo)].active
    case CreateWrites(k, slot) => Unused(s, k, slot) && k !in s.ready
    case CreateRegisters(k, slot) =>
      Unused(s, k, slot) && k !in s.ready && k in s.disk.configs && s.disk.configs[k] == Space(false, slot)
    case CreatePublishes(k) =>
      k in s.mem.spaces && k in s.disk.configs && s.disk.configs[k] == s.mem.spaces[k] && !s.disk.configs[k].active
    case FinalizeWrites(k) => k in s.ready && k in s.mem.spaces && s.mem.spaces[k].active
    case _ => true
  }

  ghost predicate Inv(s: State) {
    && 1 <= s.disk.next <= s.mem.next <= MAX_SLOT
    && MemoryOwned(s.mem, s.owner)
    && DiskOwned(s.disk, s.ready, s.owner)
    && Agree(s.disk, s.mem, s.ready)
    && Durable(s.disk, s.mem, s.ready)
    && InFlight(s)
  }

  lemma InitInv()
    ensures Inv(INIT)
  {
  }

  lemma AllocateKeepsInv(s: State, k: Key, rpc: Rpc)
    requires Inv(s) && s.rpc.Idle?
    requires (rpc == CreateWrites(k, s.mem.next) && k !in s.ready)
          || (exists repo :: rpc == CloneWrites(repo, s.mem.next) && k == DefaultOf(repo) && repo !in s.disk.listed)
    ensures Inv(Allocate(s, k, rpc))
  {
  }

  lemma BeginKeepsInv(s: State, a: Action)
    requires Inv(s) && s.rpc.Idle? && Disciplined(s, a)
    ensures Inv(Begin(s, a))
  {
    match a
    case Clone(repo) =>
      if repo !in s.mem.repos {
        var s1 := s.(mem := s.mem.(repos := s.mem.repos + {repo}));
        AllocateKeepsInv(s1, DefaultOf(repo), CloneWrites(repo, s.mem.next));
      }
    case Create(k) =>
      if k.repo in s.mem.repos {
        var s1 := s.(ready := s.ready - {k});
        AllocateKeepsInv(s1, k, CreateWrites(k, s.mem.next));
      }
    case _ =>
  }

  lemma CloneKeepsInv(s: State)
    requires Inv(s) && (s.rpc.CloneWrites? || s.rpc.CloneRegisters? || s.rpc.ClonePublishes?)
    ensures Inv(Continue(s))
  {
  }

  lemma CreateKeepsInv(s: State)
    requires Inv(s) && (s.rpc.CreateWrites? || s.rpc.CreateRegisters? || s.rpc.CreatePublishes?)
    ensures Inv(Continue(s))
  {
  }

  lemma OthersKeepInv(s: State)
    requires Inv(s) && (s.rpc.Idle? || s.rpc.FinalizeWrites? || s.rpc.DeleteRemoves? || s.rpc.RepoRemoves? || s.rpc.RepoUnlists?)
    ensures Inv(Continue(s))
  {
  }

  lemma ApplyKeepsInv(s: State, a: Action)
    requires Inv(s) && Disciplined(s, a)
    ensures Inv(Apply(s, a))
  {
    match a
    case Crash(failed, skipped, next) =>
    case Advance =>
      if s.rpc.CloneWrites? || s.rpc.CloneRegisters? || s.rpc.ClonePublishes? {
        CloneKeepsInv(s);
      } else if s.rpc.CreateWrites? || s.rpc.CreateRegisters? || s.rpc.CreatePublishes? {
        CreateKeepsInv(s);
      } else {
        OthersKeepInv(s);
      }
    case Fail =>
    case Remove(kept) =>
    case _ => if s.rpc.Idle? { BeginKeepsInv(s, a); }
  }

  lemma {:induction false} RunInv(actions: seq<Action>)
    requires DisciplinedRun(actions)
    ensures Inv(Run(actions))
  {
    if actions != [] {
      RunInv(actions[..|actions| - 1]);
      ApplyKeepsInv(Run(actions[..|actions| - 1]), actions[|actions| - 1]);
    }
  }

  // ---- What the invariant means ---------------------------------------------

  /** In every disciplined run, no two registered workspaces share a slot. */
  lemma NoSharedSlots(actions: seq<Action>, k1: Key, k2: Key)
    requires DisciplinedRun(actions)
    requires k1 in Run(actions).mem.spaces && k2 in Run(actions).mem.spaces && k1 != k2
    ensures Run(actions).mem.spaces[k1].slot != Run(actions).mem.spaces[k2].slot
  {
    RunInv(actions);
  }

  /** The slot the next request would be given. */
  function NextSlot(s: State): nat {
    s.mem.next
  }

  /**
   * A slot about to be handed out is not 0, is held by no registered workspace,
   * and by no config that any restart could register.
   */
  lemma AllocatedSlotIsFresh(actions: seq<Action>, k: Key, failed: set<string>, skipped: set<Key>)
    requires DisciplinedRun(actions)
    ensures NextSlot(Run(actions)) >= 1
    ensures k in Run(actions).mem.spaces ==> Run(actions).mem.spaces[k].slot != NextSlot(Run(actions))
    ensures k in Reloaded(Run(actions).disk, failed, skipped) ==>
              Reloaded(Run(actions).disk, failed, skipped)[k].slot != NextSlot(Run(actions))
  {
    RunInv(actions);
    var s := Run(actions);
    if k in Reloaded(s.disk, failed, skipped) {
      assert Settled(s.disk, s.ready, k);
    }
  }

  /** A workspace that comes back after a crash comes back with the slot it had. */
  lemma RestartKeepsSlots(actions: seq<Action>, failed: set<string>, skipped: set<Key>, next: nat, k: Key)
    requires DisciplinedRun(actions)
    requires k in Run(actions).mem.spaces && k in Apply(Run(actions), Crash(failed, skipped, next)).mem.spaces
    ensures Apply(Run(actions), Crash(failed, skipped, next)).mem.spaces[k].slot == Run(actions).mem.spaces[k].slot
  {
    RunInv(actions);
    var s := Run(actions);
    if k in Reloaded(s.disk, failed, skipped) {
      assert Settled(s.disk, s.ready, k);
    }
  }

  /** `k` is on disk, active, with this slot, in a listed repo, and nothing under way will change that. */
  ghost predicate Established(s: State, k: Key, slot: nat) {
    && k in s.disk.configs && s.disk.configs[k] == Space(true, slot) && k.repo in s.disk.listed
    && (k in s.mem.spaces ==> s.mem.spaces[k] == Space(true, slot))
    && match s.rpc
       case CloneWrites(repo, _) => repo != k.repo
       case CloneRegisters(repo, _) => repo != k.repo
       case CreateWrites(other, _) => other != k
       case CreateRegisters(other, _) => other != k
       case DeleteRemoves(other) => other != k
       case RepoRemoves(repo) => repo != k.repo
       case RepoUnlists(repo) => repo != k.repo
       case _ => true
  }

  /** Requests that give `k` up: deleting it or its repo, forgetting the repo, or creating it anew. */
  predicate GivesUp(a: Action, k: Key) {
    match a
    case Create(other) => other == k
    case Delete(other) => other == k
    case DeleteRepo(repo) => repo == k.repo
    case ForgetRepo(repo) => repo == k.repo
    case _ => false
  }

  lemma EstablishedKept(s: State, a: Action, k: Key, slot: nat)
    requires Established(s, k, slot) && Respects(CloneNewNames, s, a) && !GivesUp(a, k)
    ensures Established(Apply(s, a), k, slot)
  {
  }

  lemma {:induction false} EstablishedThrough(actions: seq<Action>, more: seq<Action>, k: Key, slot: nat)
    requires RespectedBy(CloneNewNames, actions + more) && Established(Run(actions), k, slot)
    requires forall a :: a in more ==> !GivesUp(a, k)
    ensures Established(Run(actions + more), k, slot)
    decreases |more|
  {
    var all := actions + more;
    if more == [] {
      assert all == actions;
    } else {
      var n := |more| - 1;
      assert all[..|all| - 1] == actions + more[..n] && all[|all| - 1] == more[n] && more[n] in more;
      assert forall a :: a in more[..n] ==> a in more;
      EstablishedThrough(actions, more[..n], k, slot);
      EstablishedKept(Run(actions + more[..n]), more[n], k, slot);
    }
  }

  /** A restart that can open the repo and read the config registers an established workspace, with its slot. */
  lemma EstablishedReloads(s: State, k: Key, slot: nat, failed: set<string>, skipped: set<Key>)
    requires Established(s, k, slot) && k.repo !in failed && k !in skipped
    ensures k in Reloaded(s.disk, failed, skipped) && Reloaded(s.disk, failed, skipped)[k] == Space(true, slot)
  {
  }

  /**
   * Once a finalize has succeeded in a listed repo, in every later state up to a
   * request that gives the workspace up, crashes included, any restart that can
   * read its files registers it with the slot it was created with.
   */
  lemma FinalizedSurvives(actions: seq<Action>, more: seq<Action>, k: Key, failed: set<string>, skipped: set<Key>)
    requires DisciplinedRun(actions) && Run(actions).rpc == FinalizeWrites(k)
    requires k in Run(actions).disk.configs && k.repo in Run(actions).disk.listed
    requires RespectedBy(CloneNewNames, (actions + [Advance]) + more)
    requires (forall a :: a in more ==> !GivesUp(a, k)) && k.repo !in failed && k !in skipped
    ensures k in Run(actions).mem.spaces
    ensures var s := Run((actions + [Advance]) + more);
            var slot := Run(actions).mem.spaces[k].slot;
            && k in Reloaded(s.disk, failed, skipped) && Reloaded(s.disk, failed, skipped)[k] == Space(true, slot)
            && (k in s.mem.spaces ==> s.mem.spaces[k] == Space(true, slot))
  {
    RunInv(actions);
    var s := Run(actions);
    var slot := s.mem.spaces[k].slot;
    var done := actions + [Advance];
    assert done[..|done| - 1] == actions;
    assert Settled(s.disk, s.ready, k);
    assert Established(Run(done), k, slot);
    EstablishedThrough(done, more, k, slot);
    EstablishedReloads(Run(done + more), k, slot, failed, skipped);
  }

  /** The same for the default workspace of a clone that has been acknowledged. */
  lemma ClonedSurvives(actions: seq<Action>, more: seq<Action>, repo: string, failed: set<string>, skipped: set<Key>)
    requires DisciplinedRun(actions) && Run(actions).rpc == ClonePublishes(repo)
    requires RespectedBy(CloneNewNames, (actions + [Advance]) + more)
    requires (forall a :: a in more ==> !GivesUp(a, DefaultOf(repo))) && repo !in failed && DefaultOf(repo) !in skipped
    ensures var s := Run((actions + [Advance]) + more);
            var k := DefaultOf(repo);
            k in Run(actions).mem.spaces && k in Reloaded(s.disk, failed, skipped)
            && Reloaded(s.disk, failed, skipped)[k] == Space(true, Run(actions).mem.spaces[k].slot)
  {
    RunInv(actions);
    var k := DefaultOf(repo);
    var slot := Run(actions).mem.spaces[k].slot;
    var done := actions + [Advance];
    assert done[..|done| - 1] == actions;
    assert Established(Run(done), k, slot);
    EstablishedThrough(done, more, k, slot);
    EstablishedReloads(Run(done + more), k, slot, failed, skipped);
  }

  // ---- What is deleted stays deleted ----------------------------------------

  /** `k` is neither registered nor on disk, and nothing under way will change that. */
  ghost predicate Gone(s: State, k: Key) {
    && k !in s.mem.spaces && k !in s.disk.configs
    && match s.rpc
       case CloneWrites(repo, _) => DefaultOf(repo) != k
       case CloneRegisters(repo, _) => DefaultOf(repo) != k
       case CreateWrites(other, _) => other != k
       case CreateRegisters(other, _) => other != k
       case _ => true
  }

  predicate BringsBack(a: Action, k: Key) {
    a == Create(k) || (a.Clone? && DefaultOf(a.repo) == k)
  }

  lemma GoneKept(s: State, a: Action, k: Key)
    requires Gone(s, k) && !BringsBack(a, k)
    ensures Gone(Apply(s, a), k)
  {
  }

  lemma {:induction false} GoneThrough(actions: seq<Action>, more: seq<Action>, k: Key)
    requires Gone(Run(actions), k) && forall a :: a in more ==> !BringsBack(a, k)
    ensures Gone(Run(actions + more), k)
    decreases |more|
  {
    var all := actions + more;
    if more == [] {
      assert all == actions;
    } else {
      var n := |more| - 1;
      assert all[..|all| - 1] == actions + more[..n] && all[|all| - 1] == more[n] && more[n] in more;
      assert forall a :: a in more[..n] ==> a in more;
      GoneThrough(actions, more[..n], k);
      GoneKept(Run(actions + more[..n]), more[n], k);
    }
  }

  lemma RunNext(actions: seq<Action>, a: Action)
    ensures Run(actions + [a]) == Apply(Run(actions), a)
  {
    assert (actions + [a])[..|actions|] == actions;
  }

  /**
   * A delete that has been carried out: until the workspace is created or its repo
   * cloned again, it is not registered, and no restart registers it.
   */
  lemma DeletedStaysGone(actions: seq<Action>, more: seq<Action>, k: Key, failed: set<string>, skipped: set<Key>)
    requires Run(actions).rpc.Idle? && k in Run(actions).mem.spaces && forall a :: a in more ==> !BringsBack(a, k)
    ensures var s := Run(actions + [Delete(k)] + [Advance] + more);
            k !in s.mem.spaces && k !in s.disk.configs && k !in Reloaded(s.disk, failed, skipped)
  {
    RunNext(actions, Delete(k));
    RunNext(actions + [Delete(k)], Advance);
    GoneThrough(actions + [Delete(k)] + [Advance], more, k);
  }

  /** `repo` is neither listed nor open, and nothing under way will change that. */
  ghost predicate RepoGone(s: State, repo: string) {
    && repo !in s.disk.listed && repo !in s.mem.repos && (forall k :: k in s.mem.spaces ==> k.repo != repo)
    && match s.rpc
       case CloneWrites(other, _) => other != repo
       case CloneRegisters(other, _) => other != repo
       case ClonePublishes(other) => other != repo
       case CreateWrites(k, _) => k.repo != repo
       case CreateRegisters(k, _) => k.repo != repo
       case _ => true
  }

  lemma RepoGoneKept(s: State, a: Action, repo: string)
    requires RepoGone(s, repo) && a != Clone(repo)
    ensures RepoGone(Apply(s, a), repo)
  {
  }

  lemma {:induction false} RepoGoneThrough(actions: seq<Action>, more: seq<Action>, repo: string)
    requires RepoGone(Run(actions), repo) && Clone(repo) !in more
    ensures RepoGone(Run(actions + more), repo)
    decreases |more|
  {
    var all := actions + more;
    if more == [] {
      assert all == actions;
    } else {
      var n := |more| - 1;
      assert all[..|all| - 1] == actions + more[..n] && all[|all| - 1] == more[n] && more[n] in more;
      assert forall a :: a in more[..n] ==> a in more;
      RepoGoneThrough(actions, more[..n], repo);
      RepoGoneKept(Run(actions + more[..n]), more[n], repo);
    }
  }

  lemma RepoDeleted(s: State, removal: Action, repo: string)
    requires s.rpc.Idle? && repo in s.mem.repos && (removal.Advance? || removal.Fail? || removal.Remove?)
    ensures var end := Apply(Apply(Apply(s, DeleteRepo(repo)), removal), Advance);
            && RepoGone(end, repo)
            && (removal.Advance? ==> forall k :: k in end.disk.configs ==> k.repo != repo)
            && (forall k :: k in s.disk.configs && (k.repo != repo || removal.Fail? || (removal.Remove? && k in removal.kept)) ==>
                  k in end.disk.configs && end.disk.configs[k] == s.disk.configs[k])
  {
    var s1 := Apply(s, DeleteRepo(repo));
    var s2 := Apply(s1, removal);
    assert s2.rpc == RepoUnlists(repo) && s2.mem == s1.mem;
  }

  lemma RepoForgotten(s: State, repo: string)
    requires s.rpc.Idle? && repo in s.mem.repos
    ensures var end := Apply(Apply(s, ForgetRepo(repo)), Advance); RepoGone(end, repo) && end.disk.configs == s.disk.configs
  {
    assert Apply(s, ForgetRepo(repo)).rpc == RepoUnlists(repo);
  }

  /**
   * A repo that has been deleted, however much of its directory could be removed,
   * has no registered workspace until it is cloned again, and no restart gives it
   * one; and if the removal succeeded none of its configs is left behind.
   */
  lemma DeletedRepoStaysGone(actions: seq<Action>, removal: Action, more: seq<Action>, repo: string,
                             failed: set<string>, skipped: set<Key>, k: Key)
    requires Run(actions).rpc.Idle? && repo in Run(actions).mem.repos && k.repo == repo && Clone(repo) !in more
    requires removal.Advance? || removal.Fail? || removal.Remove?
    ensures var s := Run(actions + [DeleteRepo(repo)] + [removal] + [Advance]);
            removal.Advance? ==> k !in s.disk.configs
    ensures var s := Run(actions + [DeleteRepo(repo)] + [removal] + [Advance] + more);
            repo !in s.disk.listed && k !in s.mem.spaces && k !in Reloaded(s.disk, failed, skipped)
  {
    RunNext(actions, DeleteRepo(repo));
    RunNext(actions + [DeleteRepo(repo)], removal);
    RunNext(actions + [DeleteRepo(repo)] + [removal], Advance);
    RepoDeleted(Run(actions), removal, repo);
    RepoGoneThrough(actions + [DeleteRepo(repo)] + [removal] + [Advance], more, repo);
  }

  /** A repo that has been forgotten keeps its files, and is not looked at again until it is cloned. */
  lemma ForgottenRepoStaysGone(actions: seq<Action>, more: seq<Action>, repo: string, failed: set<string>, skipped: set<Key>, k: Key)
    requires Run(actions).rpc.Idle? && repo in Run(actions).mem.repos && k.repo == repo && Clone(repo) !in more
    ensures Run(actions + [ForgetRepo(repo)] + [Advance]).disk.configs == Run(actions).disk.configs
    ensures var s := Run(actions + [ForgetRepo(repo)] + [Advance] + more);
            repo !in s.disk.listed && k !in s.mem.spaces && k !in Reloaded(s.disk, failed, skipped)
  {
    RunNext(actions, ForgetRepo(repo));
    RunNext(actions + [ForgetRepo(repo)], Advance);
    RepoForgotten(Run(actions), repo);
    RepoGoneThrough(actions + [ForgetRepo(repo)] + [Advance], more, repo);
  }

  /**
   * The last writes of a delete may fail, and it is acknowledged all the same. For
   * an active workspace of a listed repo: it comes back at a restart iff its
   * directory could not be removed, ...
   */
  lemma DeletedComesBackIff(s: State, k: Key, removal: Action)
    requires s.rpc.Idle? && k in s.mem.spaces && (removal.Advance? || removal.Fail?)
    requires k in s.disk.configs && s.disk.configs[k].active && k.repo in s.disk.listed
    ensures var end := Apply(Apply(s, Delete(k)), removal);
            && end.rpc.Idle? && k !in end.mem.spaces
            && (k in Reloaded(end.disk, {}, {}) <==> removal.Fail?)
  {
  }

  /** ... and after a delete of the repo iff its config was left behind and repos.toml could not be written. */
  lemma DeletedRepoComesBackIff(s: State, k: Key, removal: Action, unlisting: Action)
    requires s.rpc.Idle? && k.repo in s.mem.repos && (removal.Advance? || removal.Fail? || removal.Remove?)
    requires k in s.disk.configs && s.disk.configs[k].active && k.repo in s.disk.listed && (unlisting.Advance? || unlisting.Fail?)
    ensures var end := Apply(Apply(Apply(s, DeleteRepo(k.repo)), removal), unlisting);
            && end.rpc.Idle? && k !in end.mem.spaces
            && (k in Reloaded(end.disk, {}, {}) <==> unlisting.Fail? && (removal.Fail? || (removal.Remove? && k in removal.kept)))
  {
    var s2 := Apply(Apply(s, DeleteRepo(k.repo)), removal);
    assert s2.rpc == RepoUnlists(k.repo);
  }

  /** Requests about things that are not there, or a clone of what is, change nothing. */
  lemma RequestRefused(s: State, a: Action)
    requires s.rpc.Idle?
    requires || (a.Clone? && a.repo in s.mem.repos) || (a.Create? && a.key.repo !in s.mem.repos)
             || ((a.Finalize? || a.Touch? || a.Delete?) && a.key !in s.mem.spaces)
             || ((a.DeleteRepo? || a.ForgetRepo?) && a.repo !in s.mem.repos)
    ensures Apply(s, a) == s
  {
  }

  /** A snapshot writes back the workspace as it is registered, and touches no other file. */
  lemma TouchWritesBack(s: State, k: Key)
    requires s.rpc.Idle? && k in s.mem.spaces
    ensures var s' := Apply(s, Touch(k));
            && s'.mem == s.mem && s'.disk.listed == s.disk.listed && s'.disk.next == s.disk.next
            && k in s'.disk.configs && s'.disk.configs[k].slot == s.mem.spaces[k].slot
            && s'.disk.configs[k].active == s.mem.spaces[k].active
            && forall j :: j != k ==> (j in s'.disk.configs <==> j in s.disk.configs) && (j in s.disk.configs ==> s'.disk.configs[j] == s.disk.configs[j])
  {
  }

  // ---- Why the two disciplines are needed -----------------------------------

  /** Some run that respects `d`, if nothing else, ends in `s`. */
  ghost predicate Reached(d: Discipline, s: State) {
    exists actions :: RespectedBy(d, actions) && Run(actions) == s
  }

  lemma ReachedInit(d: Discipline)
    ensures Reached(d, INIT)
  {
    assert RespectedBy(d, []) && Run([]) == INIT;
  }

  lemma ReachedNext(d: Discipline, s: State, a: Action)
    requires Reached(d, s) && Respects(d, s, a)
    ensures Reached(d, Apply(s, a))
  {
    var actions :| RespectedBy(d, actions) && Run(actions) == s;
    var more := actions + [a];
    assert more[..|more| - 1] == actions;
    assert RespectedBy(d, more) && Run(more) == Apply(s, a);
  }

  lemma ReachedThrice(d: Discipline, s: State)
    requires Reached(d, s)
    ensures Reached(d, Continue(s)) && Reached(d, Continue(Continue(s))) && Reached(d, Continue(Continue(Continue(s))))
  {
    ReachedNext(d, s, Advance);
    ReachedNext(d, Continue(s), Advance);
    ReachedNext(d, Continue(Continue(s)), Advance);
  }

  /** Two registered workspaces share a slot. */
  ghost predicate Collision(s: State) {
    exists k1, k2 :: k1 in s.mem.spaces && k2 in s.mem.spaces && k1 != k2 && s.mem.spaces[k1].slot == s.mem.spaces[k2].slot
  }

  /** The state a clone run to the end leaves. */
  function Cloned(s: State, repo: string): State {
    var n, k := s.mem.next, DefaultOf(repo);
    State(Disk(n + 1, s.disk.listed + {repo}, s.disk.configs[k := Space(true, n)]),
          Memory(n + 1, s.mem.repos + {repo}, s.mem.spaces[k := Space(true, n)]), Idle, s.ready, s.owner[n := k])
  }

  lemma ReachedByClone(d: Discipline, s: State, repo: string)
    requires Reached(d, s) && Respects(d, s, Clone(repo)) && s.rpc.Idle? && repo !in s.mem.repos && DefaultOf(repo) !in s.mem.spaces && s.mem.next < MAX_SLOT
    ensures Reached(d, Cloned(s, repo))
  {
    ReachedNext(d, s, Clone(repo));
    ReachedThrice(d, Begin(s, Clone(repo)));
    CloneSteps(s, repo);
  }

  lemma CloneSteps(s: State, repo: string)
    requires s.rpc.Idle? && repo !in s.mem.repos && DefaultOf(repo) !in s.mem.spaces && s.mem.next < MAX_SLOT
    ensures Continue(Continue(Continue(Begin(s, Clone(repo))))) == Cloned(s, repo)
  {
  }

  /** The state a create of an unregistered name leaves, run to the end. */
  function Created(s: State, k: Key): State {
    var n := s.mem.next;
    State(Disk(n + 1, s.disk.listed, s.disk.configs[k := Space(false, n)]),
          Memory(n + 1, s.mem.repos, s.mem.spaces[k := Space(false, n)]), Idle, s.ready - {k} + {k}, s.owner[n := k])
  }

  lemma ReachedByCreate(d: Discipline, s: State, k: Key)
    requires Reached(d, s) && s.rpc.Idle? && k.repo in s.mem.repos && k !in s.mem.spaces && s.mem.next < MAX_SLOT
    ensures Reached(d, Created(s, k))
  {
    ReachedNext(d, s, Create(k));
    ReachedThrice(d, Begin(s, Create(k)));
    CreateSteps(s, k);
  }

  lemma CreateSteps(s: State, k: Key)
    requires s.rpc.Idle? && k.repo in s.mem.repos && k !in s.mem.spaces && s.mem.next < MAX_SLOT
    ensures Continue(Continue(Continue(Begin(s, Create(k))))) == Created(s, k)
  {
  }

  /** A second create of a registered name is refused, but only after its config has been rewritten. */
  function Refused(s: State, k: Key): State {
    var n := s.mem.next;
    s.(disk := s.disk.(configs := s.disk.configs[k := Space(false, n)]), mem := s.mem.(next := n + 1),
       ready := s.ready - {k}, owner := s.owner[n := k])
  }

  lemma ReachedByRefusal(d: Discipline, s: State, k: Key)
    requires Reached(d, s) && s.rpc.Idle? && k.repo in s.mem.repos && k in s.mem.spaces && s.mem.next < MAX_SLOT
    ensures Reached(d, Refused(s, k))
  {
    ReachedNext(d, s, Create(k));
    ReachedThrice(d, Begin(s, Create(k)));
    RefusalSteps(s, k);
  }

  lemma RefusalSteps(s: State, k: Key)
    requires s.rpc.Idle? && k.repo in s.mem.repos && k in s.mem.spaces && s.mem.next < MAX_SLOT
    ensures Continue(Continue(Begin(s, Create(k)))) == Refused(s, k)
    ensures !Begin(s, Create(k)).rpc.Idle?
  {
  }

  function Finalized(s: State, k: Key): State
    requires k in s.mem.spaces && k in s.disk.configs
  {
    s.(disk := s.disk.(configs := s.disk.configs[k := s.disk.configs[k].(active := true)]),
       mem := s.mem.(spaces := s.mem.spaces[k := s.mem.spaces[k].(active := true)]))
  }

  lemma ReachedByFinalize(d: Discipline, s: State, k: Key)
    requires Reached(d, s) && Respects(d, s, Finalize(k)) && s.rpc.Idle? && k in s.mem.spaces && k in s.disk.configs
    ensures Reached(d, Finalized(s, k))
  {
    ReachedNext(d, s, Finalize(k));
    ReachedThrice(d, Begin(s, Finalize(k)));
    FinalizeSteps(s, k);
  }

  lemma FinalizeSteps(s: State, k: Key)
    requires s.rpc.Idle? && k in s.mem.spaces && k in s.disk.configs
    ensures Continue(Begin(s, Finalize(k))) == Finalized(s, k)
  {
  }

  const RD: Key := DefaultOf("R")
  const QD: Key := DefaultOf("Q")
  const W: Key := Key("R", "w")

  /**
   * Cloning only new names is not enough. A refused second create has already put
   * a slot that was never persisted into workspace.toml, and finalizing keeps it.
   */
  lemma RefusedCreateCollides()
    ensures exists actions :: RespectedBy(CloneNewNames, actions) && Collision(Run(actions))
  {
    var d := CloneNewNames;
    ReachedInit(d);
    ReachedByClone(d, INIT, "R");
    var s1 := Cloned(INIT, "R");
    ReachedByCreate(d, s1, W);
    var s2 := Created(s1, W);
    ReachedByRefusal(d, s2, W);
    var s3 := Refused(s2, W);
    ReachedByFinalize(d, s3, W);
    var s4 := Finalized(s3, W);
    assert s4.disk.listed == {"R"} && s4.disk.next == 3 && W in s4.disk.configs && s4.disk.configs[W] == Space(true, 3);
    LostThenReused(d, s4, W);
  }

  /** A config at the persisted counter is enough: its repo fails to open once, and another clone is given its slot. */
  lemma LostThenReused(d: Discipline, s: State, k: Key)
    requires Reached(d, s) && s.disk.listed == {"R"} && k.repo == "R" && s.disk.next < MAX_SLOT
    requires k in s.disk.configs && s.disk.configs[k] == Space(true, s.disk.next)
    requires forall other :: other in s.disk.configs ==> s.disk.configs[other].slot <= s.disk.next
    ensures exists actions :: RespectedBy(d, actions) && Collision(Run(actions))
  {
    var n := s.disk.next;
    ReachedNext(d, s, Crash({"R"}, {}, n));
    var s1 := Apply(s, Crash({"R"}, {}, n));
    LoseR(s, n);
    ReachedByClone(d, s1, "Q");
    var s2 := Cloned(s1, "Q");
    ReachedNext(d, s2, Crash({}, {}, n + 1));
    BothReloaded(s2, k, n);
    assert Reached(d, Apply(s2, Crash({}, {}, n + 1)));
  }

  lemma LoseR(s: State, n: nat)
    requires s.disk.listed == {"R"} && s.disk.next == n
    ensures Apply(s, Crash({"R"}, {}, n)) == s.(mem := Memory(n, {}, map[]), rpc := Idle)
  {
    assert Reloaded(s.disk, {"R"}, {}) == map[] && Bumped(n, map[], n);
    assert s.disk.listed - {"R"} == {};
  }

  lemma BothReloaded(s: State, k: Key, n: nat)
    requires s.disk.next == n + 1 && s.disk.listed == {"R", "Q"} && k.repo == "R"
    requires k in s.disk.configs && QD in s.disk.configs && s.disk.configs[k] == s.disk.configs[QD] == Space(true, n)
    requires forall other :: other in s.disk.configs ==> s.disk.configs[other].slot <= n
    ensures Collision(Apply(s, Crash({}, {}, n + 1)))
  {
    var back := Reloaded(s.disk, {}, {});
    assert k in back && QD in back && k != QD;
    assert Bumped(n + 1, back, n + 1);
  }

  /**
   * Finalizing only what was created is not enough either. A clone of a name still
   * in repos.toml, cut short by a crash, leaves a listed config with an unpersisted slot.
   */
  lemma ReclonedNameCollides()
    ensures exists actions :: RespectedBy(FinalizeCreated, actions) && Collision(Run(actions))
  {
    var d := FinalizeCreated;
    ReachedInit(d);
    ReachedByClone(d, INIT, "R");
    var s1 := Cloned(INIT, "R");
    ReachedNext(d, s1, Crash({"R"}, {}, 2));
    var s2 := Apply(s1, Crash({"R"}, {}, 2));
    LoseR(s1, 2);
    ReachedNext(d, s2, Clone("R"));
    ReachedThrice(d, Begin(s2, Clone("R")));
    CutShort(s2);
    LostThenReused(d, Continue(Begin(s2, Clone("R"))), RD);
  }

  lemma CutShort(s: State)
    requires s.rpc.Idle? && s.mem == Memory(2, {}, map[]) && s.disk == Disk(2, {"R"}, map[RD := Space(true, 1)])
    ensures Continue(Begin(s, Clone("R"))).disk == Disk(2, {"R"}, map[RD := Space(true, 2)])
  {
  }
}
