/**
 * `FsRemoteStore::cas_ref` on a shared directory: flock, read, compare, then
 * tmp + fsync + rename (or unlink), by any number of processes that may fail or
 * die between any two system calls, with readers that take no lock.
 */
module DirStore {
  import opened ByteOrder
  import opened Common

  type Name = Bytes
  type Pid = nat

  // ---- Names ------------------------------------------------------------

  const DOT: byte := 46
  const LOCK_NAME: Name := [46, 108, 111, 99, 107]   // ".lock"
  const TMP_PREFIX: Name := [46, 116, 109, 112, 46]  // ".tmp."

  /** `validate_ref_name`. */
  predicate ValidRefName(n: Name) {
    n != [] && 0 !in n && SLASH !in n && n != [DOT] && n != [DOT, DOT]
  }

  predicate IsTmp(n: Name) {
    |n| >= 5 && n[..5] == TMP_PREFIX
  }

  /** Names `list_refs` hides. */
  predicate Internal(n: Name) {
    n == LOCK_NAME || IsTmp(n)
  }

  predicate IsHexDigit(b: byte) {
    48 <= b <= 57 || 97 <= b <= 102
  }

  /** What `cas_ref` calls its temporary files: the prefix and sixteen lower-case hex digits. */
  predicate IsTmpFile(n: Name) {
    IsTmp(n) && |n| == 21 && forall i :: 5 <= i < 21 ==> IsHexDigit(n[i])
  }

  /** Names `cas_ref` itself writes to; fewer than those the listing hides. */
  predicate Own(n: Name) {
    n == LOCK_NAME || IsTmpFile(n)
  }

  function Digit(d: nat): byte
    requires d < 16
  {
    if d < 10 then (48 + d) as byte else (87 + d) as byte
  }

  /** The `k` low digits of `r`, most significant first. */
  function Digits(r: nat, k: nat): Name {
    if k == 0 then [] else Digits(r / 16, k - 1) + [Digit(r % 16)]
  }

  function Pow16(k: nat): nat {
    if k == 0 then 1 else 16 * Pow16(k - 1)
  }

  lemma {:induction false} DigitsAreHex(r: nat, k: nat)
    ensures |Digits(r, k)| == k && forall i :: 0 <= i < k ==> IsHexDigit(Digits(r, k)[i])
  {
    if k > 0 { DigitsAreHex(r / 16, k - 1); }
  }

  lemma {:induction false} HexIsDigits(s: Name) returns (r: nat)
    requires forall i :: 0 <= i < |s| ==> IsHexDigit(s[i])
    ensures r < Pow16(|s|) && s == Digits(r, |s|)
    decreases |s|
  {
    if s == [] {
      r := 0;
    } else {
      var k := |s| - 1;
      var hi := HexIsDigits(s[..k]);
      var lo: nat := if s[k] <= 57 then (s[k] - 48) as nat else (s[k] - 87) as nat;
      assert IsHexDigit(s[k]) && Digit(lo) == s[k];
      r := 16 * hi + lo;
      assert r / 16 == hi && r % 16 == lo;
    }
  }

  /** The name made of a 64-bit random number. */
  function TmpNameOf(r: nat): Name {
    TMP_PREFIX + Digits(r, 16)
  }

  /** The temporary names are exactly those some 64-bit number gives. */
  lemma TmpFileIff(n: Name)
    ensures IsTmpFile(n) <==> exists r: nat :: r < Pow16(16) && n == TmpNameOf(r)
  {
    if IsTmpFile(n) {
      var rest := n[5..];
      forall i | 0 <= i < |rest| ensures IsHexDigit(rest[i]) { assert rest[i] == n[i + 5]; }
      var r := HexIsDigits(rest);
      assert n == n[..5] + rest && n == TmpNameOf(r);
    }
    forall r: nat | r < Pow16(16) && n == TmpNameOf(r) ensures IsTmpFile(n) {
      DigitsAreHex(r, 16);
      assert n[..5] == TMP_PREFIX;
      forall i | 5 <= i < 21 ensures IsHexDigit(n[i]) { assert n[i] == Digits(r, 16)[i - 5]; }
    }
  }

  type Directory = map<Name, Bytes>

  function Lookup(files: Directory, n: Name): RefValue {
    if n in files then Some(files[n]) else None
  }

  // ---- Processes ----------------------------------------------------------

  datatype Phase =
    | Waiting                     // before flock
    | Locked                      // lock held, ref not read yet
    | Ready                       // compared equal
    | Filling(tmp: Name)          // tmp file open, content not complete
    | Filled(tmp: Name)           // tmp file complete and synced
    | Releasing(outcome: CasOutcome)
    | Returned(outcome: CasOutcome)
    | Failing                     // an I/O error is being returned, lock still held
    | Dead                        // returned an error, or crashed

  datatype Proc = Proc(name: Name, expected: RefValue, desired: RefValue, phase: Phase, began: nat, ended: nat)

  /** One visible change of the directory: `writer` swapped `before` for `after`. */
  datatype Commit = Commit(name: Name, before: RefValue, after: RefValue, writer: Pid)

  datatype State = State(initial: Directory, files: Directory, holder: Option<Pid>,
                         procs: map<Pid, Proc>, log: seq<Commit>)

  datatype Action =
    | Begin(p: Pid, name: Name, expected: RefValue, desired: RefValue)
    | Acquire(p: Pid)
    | Load(p: Pid)
    | CreateTmp(p: Pid, tmp: Name, torn: Bytes)
    | FinishTmp(p: Pid)
    | Publish(p: Pid)             // rename, or unlink when the ref is to be deleted
    | IoError(p: Pid, cleanUp: bool)
    | Release(p: Pid)
    | Crash(p: Pid)

  predicate Critical(ph: Phase) {
    ph.Locked? || ph.Ready? || ph.Filling? || ph.Filled? || ph.Releasing? || ph.Failing?
  }

  function Moved(s: State, p: Pid, ph: Phase): State
    requires p in s.procs
  {
    s.(procs := s.procs[p := s.procs[p].(phase := ph, ended := |s.log|)])
  }

  predicate Enabled(s: State, a: Action) {
    if a.Begin? then a.p !in s.procs && ValidRefName(a.name)
    else
      && a.p in s.procs
      && var pr := s.procs[a.p];
         match a
         case Begin(_, _, _, _) => false
         case Acquire(_) => pr.phase.Waiting? && s.holder.None?
         case Load(_) => pr.phase.Locked?
         case CreateTmp(_, tmp, _) => pr.phase.Ready? && pr.desired.Some? && IsTmpFile(tmp)
         case FinishTmp(_) => pr.phase.Filling? && pr.desired.Some?
         case Publish(_) => if pr.desired.Some? then pr.phase.Filled? else pr.phase.Ready?
         case IoError(_, _) => Critical(pr.phase) && !pr.phase.Releasing?
         case Release(_) => pr.phase.Releasing? || pr.phase.Failing?
         case Crash(_) => !pr.phase.Returned?
  }

  function PublishStep(s: State, p: Pid): State
    requires p in s.procs
  {
    var pr := s.procs[p];
    var files :=
      if pr.desired.None? then s.files - {pr.name}
      else if pr.phase.Filled? then (s.files - {pr.phase.tmp})[pr.name := pr.desired.value]
      else s.files;
    Moved(s.(files := files, log := s.log + [Commit(pr.name, pr.expected, pr.desired, p)]), p, Releasing(Updated))
  }

  function Step(s: State, a: Action): State {
    if !Enabled(s, a) then s
    else
      match a
      case Begin(p, name, expected, desired) =>
        s.(procs := s.procs[p := Proc(name, expected, desired, Waiting, |s.log|, |s.log|)])
      case Acquire(p) =>
        var files := if LOCK_NAME in s.files then s.files else s.files[LOCK_NAME := []];
        Moved(s.(holder := Some(p), files := files), p, Locked)
      case Load(p) =>
        var current := Lookup(s.files, s.procs[p].name);
        Moved(s, p, if current != s.procs[p].expected then Releasing(Conflict(current)) else Ready)
      case CreateTmp(p, tmp, torn) => Moved(s.(files := s.files[tmp := torn]), p, Filling(tmp))
      case FinishTmp(p) =>
        var tmp := s.procs[p].phase.tmp;
        Moved(s.(files := s.files[tmp := s.procs[p].desired.value]), p, Filled(tmp))
      case Publish(p) => PublishStep(s, p)
      case IoError(p, cleanUp) =>
        var files := if cleanUp && s.procs[p].phase.Filled? then s.files - {s.procs[p].phase.tmp} else s.files;
        Moved(s.(files := files), p, Failing)
      case Release(p) =>
        var ph := s.procs[p].phase;
        Moved(s.(holder := None), p, if ph.Releasing? then Returned(ph.outcome) else Dead)
      case Crash(p) =>
        Moved(s.(holder := if s.holder == Some(p) then None else s.holder), p, Dead)
  }

  function Run(s: State, acts: seq<Action>): State
    decreases |acts|
  {
    if acts == [] then s else Run(Step(s, acts[0]), acts[1..])
  }

  /** The hypothesis: callers stay off the names the store uses for itself. */
  predicate Polite(a: Action) {
    a.Begin? ==> !Own(a.name)
  }

  predicate AllPolite(acts: seq<Action>) {
    forall a :: a in acts ==> Polite(a)
  }

  predicate Init(s: State) {
    s.files == s.initial && s.holder.None? && s.procs == map[] && s.log == []
  }

  // ---- The atomic map the directory stands for ------------------------------

  /** The value of ref `n` after the first `k` commits. */
  function ValueAt(initial: Directory, log: seq<Commit>, n: Name, k: nat): RefValue
    requires k <= |log|
  {
    if k == 0 then Lookup(initial, n)
    else if log[k - 1].name == n then log[k - 1].after
    else ValueAt(initial, log, n, k - 1)
  }

  lemma {:induction false} ValueAtPrefix(initial: Directory, log: seq<Commit>, more: seq<Commit>, n: Name, k: nat)
    requires log <= more && k <= |log|
    ensures ValueAt(initial, more, n, k) == ValueAt(initial, log, n, k)
  {
    if k > 0 { ValueAtPrefix(initial, log, more, n, k - 1); }
  }

  // ---- Invariant --------------------------------------------------------

  /** Every ref file holds its last committed value; tmp files and the lock are invisible. */
  ghost predicate Faithful(s: State) {
    forall n :: !Own(n) ==> Lookup(s.files, n) == ValueAt(s.initial, s.log, n, |s.log|)
  }

  predicate LockInv(s: State) {
    && (s.holder.Some? ==> s.holder.value in s.procs && Critical(s.procs[s.holder.value].phase))
    && (forall p :: p in s.procs && Critical(s.procs[p].phase) ==> s.holder == Some(p))
  }

  predicate Swapped(s: State, p: Pid) {
    && p in s.procs
    && exists k {:trigger s.log[k]} ::
         && s.procs[p].began <= k < s.procs[p].ended && k < |s.log|
         && s.log[k] == Commit(s.procs[p].name, s.procs[p].expected, s.procs[p].desired, p)
  }

  predicate Refused(s: State, p: Pid, v: RefValue) {
    && p in s.procs
    && v != s.procs[p].expected
    && exists k :: s.procs[p].began <= k <= s.procs[p].ended && k <= |s.log|
                   && ValueAt(s.initial, s.log, s.procs[p].name, k) == v
  }

  predicate OutcomeInv(s: State, p: Pid, outcome: CasOutcome) {
    match outcome
    case Updated => Swapped(s, p)
    case Conflict(v) => Refused(s, p, v)
  }

  predicate ProcInv(s: State, p: Pid)
    requires p in s.procs
  {
    var pr := s.procs[p];
    && !Own(pr.name)
    && pr.began <= pr.ended <= |s.log|
    && match pr.phase
       case Ready => Lookup(s.files, pr.name) == pr.expected
       case Filling(tmp) => Lookup(s.files, pr.name) == pr.expected && IsTmpFile(tmp)
       case Filled(tmp) => Lookup(s.files, pr.name) == pr.expected && IsTmpFile(tmp) && Lookup(s.files, tmp) == pr.desired
       case Releasing(outcome) => OutcomeInv(s, p, outcome)
       case Returned(outcome) => OutcomeInv(s, p, outcome)
       case _ => true
  }

  predicate LogInv(s: State) {
    forall k {:trigger s.log[k]} :: 0 <= k < |s.log| ==>
      s.log[k].before == ValueAt(s.initial, s.log, s.log[k].name, k)
  }

  predicate AllProcs(s: State) {
    forall p :: p in s.procs ==> ProcInv(s, p)
  }

  ghost predicate Inv(s: State) {
    Faithful(s) && LockInv(s) && AllProcs(s) && LogInv(s)
  }

  /** What another process knows survives a step it takes no part in. */
  lemma BystanderInv(s: State, s': State, q: Pid)
    requires s'.initial == s.initial && s.log <= s'.log
    requires q in s.procs && q in s'.procs && s'.procs[q] == s.procs[q] && ProcInv(s, q)
    requires Critical(s.procs[q].phase) ==> s'.files == s.files
    ensures ProcInv(s', q)
  {
    var pr := s.procs[q];
    if pr.phase.Releasing? || pr.phase.Returned? {
      match pr.phase.outcome
      case Updated =>
        var k :| pr.began <= k < pr.ended && k < |s.log| && s.log[k] == Commit(pr.name, pr.expected, pr.desired, q);
        assert s'.log[k] == s.log[k];
      case Conflict(v) =>
        var k :| pr.began <= k <= pr.ended && k <= |s.log| && ValueAt(s.initial, s.log, pr.name, k) == v;
        ValueAtPrefix(s.initial, s.log, s'.log, pr.name, k);
    }
  }

  lemma BystandersInv(s: State, s': State, p: Pid)
    requires AllProcs(s) && LockInv(s) && s'.initial == s.initial && s.log <= s'.log
    requires p in s'.procs && s'.procs == s.procs[p := s'.procs[p]] && ProcInv(s', p)
    requires s'.files == s.files || s.holder == Some(p) || s.holder.None?
    ensures AllProcs(s')
  {
    forall q | q in s'.procs ensures ProcInv(s', q) {
      if q != p { BystanderInv(s, s', q); }
    }
  }

  /** Outside the store's own names, only the published one changes. */
  lemma PublishedFile(s: State, p: Pid, m: Name)
    requires p in s.procs && ProcInv(s, p) && Enabled(s, Publish(p)) && !Own(m)
    ensures Lookup(PublishStep(s, p).files, m) == if m == s.procs[p].name then s.procs[p].desired else Lookup(s.files, m)
  {
  }

  lemma PublishFaithful(s: State, p: Pid)
    requires Inv(s) && Enabled(s, Publish(p))
    ensures Faithful(PublishStep(s, p))
  {
    var s' := PublishStep(s, p);
    forall m | !Own(m) ensures Lookup(s'.files, m) == ValueAt(s'.initial, s'.log, m, |s'.log|) {
      PublishedFile(s, p, m);
      ValueAtPrefix(s.initial, s.log, s'.log, m, |s.log|);
    }
  }

  lemma PublishLog(s: State, p: Pid)
    requires Inv(s) && Enabled(s, Publish(p))
    ensures LogInv(PublishStep(s, p))
  {
    var s' := PublishStep(s, p);
    var n := |s.log|;
    assert ProcInv(s, p);
    forall k | 0 <= k < |s'.log| ensures s'.log[k].before == ValueAt(s'.initial, s'.log, s'.log[k].name, k) {
      ValueAtPrefix(s.initial, s.log, s'.log, s'.log[k].name, k);
      if k < n { assert s'.log[k] == s.log[k]; }
    }
  }

  lemma PublishInv(s: State, p: Pid)
    requires Inv(s) && Enabled(s, Publish(p))
    ensures Inv(PublishStep(s, p))
  {
    var s' := PublishStep(s, p);
    var pr := s.procs[p];
    assert ProcInv(s, p);
    PublishFaithful(s, p);
    PublishLog(s, p);
    assert s'.log[|s.log|] == Commit(pr.name, pr.expected, pr.desired, p);
    assert Swapped(s', p);
    BystandersInv(s, s', p);
  }

  lemma QuietInv(s: State, a: Action)
    requires Inv(s) && Enabled(s, a) && !a.Publish? && Polite(a)
    ensures Inv(Step(s, a))
  {
    var s' := Step(s, a);
    QuietFiles(s, a);
    QuietProc(s, a);
    QuietLock(s, a);
    BystandersInv(s, s', a.p);
  }

  lemma QuietLock(s: State, a: Action)
    requires LockInv(s) && Enabled(s, a) && !a.Publish?
    ensures LockInv(Step(s, a))
    ensures a.p in Step(s, a).procs && Step(s, a).procs == s.procs[a.p := Step(s, a).procs[a.p]]
    ensures Step(s, a).files == s.files || s.holder == Some(a.p) || s.holder.None?
  {
  }

  /** Only the store's own names are touched before the rename. */
  lemma QuietFiles(s: State, a: Action)
    requires Inv(s) && Enabled(s, a) && !a.Publish? && Polite(a)
    ensures Step(s, a).log == s.log && Step(s, a).initial == s.initial
    ensures forall n :: !Own(n) ==> Lookup(Step(s, a).files, n) == Lookup(s.files, n)
  {
    if a.p in s.procs { assert ProcInv(s, a.p); }
  }

  lemma QuietProc(s: State, a: Action)
    requires Inv(s) && Enabled(s, a) && !a.Publish? && Polite(a)
    ensures a.p in Step(s, a).procs && ProcInv(Step(s, a), a.p)
  {
    var s' := Step(s, a);
    QuietFiles(s, a);
    if a.p in s.procs {
      var pr := s.procs[a.p];
      assert ProcInv(s, a.p);
      if a.Load? {
        assert Lookup(s.files, pr.name) == ValueAt(s.initial, s.log, pr.name, |s.log|);
      } else if a.Release? && pr.phase.Releasing? {
        match pr.phase.outcome
        case Updated =>
          var k :| pr.began <= k < pr.ended && k < |s.log| && s.log[k] == Commit(pr.name, pr.expected, pr.desired, a.p);
          assert s'.log[k] == s.log[k];
        case Conflict(v) =>
          var k :| pr.began <= k <= pr.ended && k <= |s.log| && ValueAt(s.initial, s.log, pr.name, k) == v;
      }
    }
  }

  lemma StepInv(s: State, a: Action)
    requires Inv(s) && Polite(a)
    ensures Inv(Step(s, a))
  {
    if Enabled(s, a) {
      if a.Publish? { PublishInv(s, a.p); } else { QuietInv(s, a); }
    }
  }

  lemma InitialKept(s: State, a: Action)
    ensures Step(s, a).initial == s.initial
  {
  }

  lemma PoliteSplit(acts: seq<Action>)
    requires AllPolite(acts) && acts != []
    ensures Polite(acts[0]) && AllPolite(acts[1..])
  {
    assert acts[0] in acts && forall a :: a in acts[1..] ==> a in acts;
  }

  lemma {:induction false} RunInv(s: State, acts: seq<Action>)
    requires Inv(s) && AllPolite(acts)
    ensures Inv(Run(s, acts)) && Run(s, acts).initial == s.initial
    decreases |acts|
  {
    if acts != [] {
      PoliteSplit(acts);
      InitialKept(s, acts[0]);
      StepInv(s, acts[0]);
      RunInv(Step(s, acts[0]), acts[1..]);
    }
  }

  // ---- Refinement ---------------------------------------------------------

  /**
   * In every state of every run, crashes and torn tmp files included: a lock-free
   * read of any ref returns its last committed value; every commit replaced
   * exactly the value its caller expected; `Updated` means the caller committed,
   * and `Conflict` carries a different value the ref held during the call.
   */
  lemma DirCasRefinesAtomicMap(s: State, acts: seq<Action>)
    requires Init(s) && AllPolite(acts)
    ensures var end := Run(s, acts);
            && (forall n :: !Own(n) ==> Lookup(end.files, n) == ValueAt(s.initial, end.log, n, |end.log|))
            && (forall k {:trigger end.log[k]} :: 0 <= k < |end.log| ==>
                  end.log[k].before == ValueAt(s.initial, end.log, end.log[k].name, k))
            && (forall p :: p in end.procs && end.procs[p].phase == Returned(Updated) ==> Swapped(end, p))
            && (forall p, v :: p in end.procs && end.procs[p].phase == Returned(Conflict(v)) ==> Refused(end, p, v))
  {
    RunInv(s, acts);
    var end := Run(s, acts);
    forall p | p in end.procs && end.procs[p].phase == Returned(Updated) ensures Swapped(end, p) {
      assert ProcInv(end, p);
    }
    forall p, v | p in end.procs && end.procs[p].phase == Returned(Conflict(v)) ensures Refused(end, p, v) {
      assert ProcInv(end, p);
    }
  }

  // ---- list_refs ----------------------------------------------------------

  ghost function LiveNames(files: Directory): set<Name> {
    set n | n in files && !Internal(n)
  }

  method SortNames(names: set<Name>) returns (out: seq<Name>)
    ensures out == Order(names)
  {
    out := [];
    var rest := names;
    while rest != {}
      invariant out + Order(rest) == Order(names)
      decreases |rest|
    {
      LeastExists(rest);
      var n :| n in rest && IsLeast(rest, n);
      OrderOfLeast(rest, n);
      out := out + [n];
      rest := rest - {n};
    }
  }

  method ListRefs(files: Directory) returns (out: seq<Name>)
    ensures Ascending(out) && Elems(out) == LiveNames(files)
  {
    var names: set<Name> := {};
    var rest := files.Keys;
    while rest != {}
      invariant rest <= files.Keys
      invariant names == set n | n in files && n !in rest && !Internal(n)
      decreases |rest|
    {
      var n :| n in rest;
      rest := rest - {n};
      if !Internal(n) {
        names := names + {n};
      }
    }
    assert names == LiveNames(files);
    out := SortNames(names);
    OrderAscends(names);
  }

  /** The listing is exactly the refs that exist, at any moment of any run. */
  lemma ListingIsLiveRefs(s: State, acts: seq<Action>, n: Name)
    requires Init(s) && AllPolite(acts) && !Internal(n)
    ensures var end := Run(s, acts); n in LiveNames(end.files) <==> ValueAt(s.initial, end.log, n, |end.log|).Some?
  {
    RunInv(s, acts);
    assert Faithful(Run(s, acts));
  }

  // ---- Exactly which names work ---------------------------------------------

  const EMPTY_DIR: State := State(map[], map[], None, map[], [])

  /** The temporary file of a call whose random number is zero. */
  const ZERO_TMP: Name := [46, 116, 109, 112, 46, 48, 48, 48, 48, 48, 48, 48, 48, 48, 48, 48, 48, 48, 48, 48, 48]

  /** Callers stay off the store's own names, with the possible exception of `n`. */
  predicate PoliteBut(acts: seq<Action>, n: Name) {
    forall a :: a in acts ==> Polite(a) || (a.Begin? && a.name == n)
  }

  /** In every run from an empty directory a lock-free reader of `n` sees only committed values. */
  ghost predicate ReadsCommitted(n: Name) {
    forall acts :: PoliteBut(acts, n) ==>
      var end := Run(EMPTY_DIR, acts); Lookup(end.files, n) == ValueAt(map[], end.log, n, |end.log|)
  }

  /** In every run from an empty directory `n` is listed iff it has a committed value. */
  ghost predicate ListedIffLive(n: Name) {
    forall acts :: PoliteBut(acts, n) ==>
      var end := Run(EMPTY_DIR, acts); n in LiveNames(end.files) <==> ValueAt(map[], end.log, n, |end.log|).Some?
  }

  lemma RunCons(s: State, a: Action, rest: seq<Action>)
    ensures Run(s, [a] + rest) == Run(Step(s, a), rest)
  {
    assert ([a] + rest)[1..] == rest;
  }

  lemma Run3(s: State, a: Action, b: Action, c: Action, rest: seq<Action>)
    ensures Run(s, [a, b, c] + rest) == Run(Step(Step(Step(s, a), b), c), rest)
  {
    assert [a, b, c] + rest == [a] + ([b] + ([c] + rest));
    RunCons(s, a, [b] + ([c] + rest));
    RunCons(Step(s, a), b, [c] + rest);
    RunCons(Step(Step(s, a), b), c, rest);
  }

  /** What a first caller finds under `n` once it holds the lock of an empty directory. */
  function FoundAtFirst(n: Name): RefValue {
    if n == LOCK_NAME then Some([]) else None
  }

  function Opening(n: Name, expected: RefValue, v: Bytes): seq<Action> {
    [Begin(0, n, expected, Some(v)), Acquire(0), Load(0)]
  }

  lemma Opened(n: Name, expected: RefValue, v: Bytes, rest: seq<Action>)
    requires ValidRefName(n)
    ensures Run(EMPTY_DIR, Opening(n, expected, v) + rest) ==
              Run(State(map[], map[LOCK_NAME := []], Some(0),
                        map[0 := Proc(n, expected, Some(v),
                                      if FoundAtFirst(n) == expected then Ready else Releasing(Conflict(FoundAtFirst(n))),
                                      0, 0)], []), rest)
  {
    Run3(EMPTY_DIR, Begin(0, n, expected, Some(v)), Acquire(0), Load(0), rest);
    var s1 := Step(EMPTY_DIR, Begin(0, n, expected, Some(v)));
    var s2 := Step(s1, Acquire(0));
    assert s2 == State(map[], map[LOCK_NAME := []], Some(0), map[0 := Proc(n, expected, Some(v), Locked, 0, 0)], []);
    assert Lookup(s2.files, n) == FoundAtFirst(n);
    var phase := if FoundAtFirst(n) == expected then Ready else Releasing(Conflict(FoundAtFirst(n)));
    assert Step(s2, Load(0)).procs == map[0 := Proc(n, expected, Some(v), phase, 0, 0)];
  }

  /** A call that is answered `Updated` for an internal name leaves a ref no listing shows. */
  lemma InternalNameUnlisted(n: Name, v: Bytes)
    requires ValidRefName(n) && Internal(n)
    ensures var end := Run(EMPTY_DIR, Opening(n, FoundAtFirst(n), v)
                                      + ([CreateTmp(0, ZERO_TMP, []), FinishTmp(0), Publish(0)] + [Release(0)]));
            && 0 in end.procs && end.procs[0].phase == Returned(Updated)
            && |end.log| == 1 && ValueAt(map[], end.log, n, 1) == Some(v)
            && n !in LiveNames(end.files)
  {
    var e := FoundAtFirst(n);
    var rest := [CreateTmp(0, ZERO_TMP, []), FinishTmp(0), Publish(0)];
    Opened(n, e, v, rest + [Release(0)]);
    var s := State(map[], map[LOCK_NAME := []], Some(0), map[0 := Proc(n, e, Some(v), Ready, 0, 0)], []);
    Run3(s, CreateTmp(0, ZERO_TMP, []), FinishTmp(0), Publish(0), [Release(0)]);
    var s3 := Step(Step(Step(s, CreateTmp(0, ZERO_TMP, [])), FinishTmp(0)), Publish(0));
    PublishedFromReady(s, v);
    Released(s3);
    assert s3.log[0].name == n && ValueAt(map[], s3.log, n, 1) == Some(v);
  }

  lemma Released(s: State)
    requires 0 in s.procs && s.procs[0].phase.Releasing?
    ensures var end := Run(s, [Release(0)]);
            0 in end.procs && end.procs[0].phase == Returned(s.procs[0].phase.outcome) && end.log == s.log
  {
    RunCons(s, Release(0), []);
    assert [Release(0)] + [] == [Release(0)];
  }

  /** The three steps from a matching comparison to the rename. */
  lemma PublishedFromReady(s: State, v: Bytes)
    requires 0 in s.procs && s.procs[0].phase == Ready && s.procs[0].desired == Some(v)
    ensures var end := Step(Step(Step(s, CreateTmp(0, ZERO_TMP, [])), FinishTmp(0)), Publish(0));
            && 0 in end.procs && end.procs[0].phase == Releasing(Updated)
            && end.log == s.log + [Commit(s.procs[0].name, s.procs[0].expected, Some(v), 0)]
  {
    assert IsTmpFile(ZERO_TMP);
    var s1 := Step(s, CreateTmp(0, ZERO_TMP, []));
    assert s1.procs[0].phase == Filling(ZERO_TMP);
    var s2 := Step(s1, FinishTmp(0));
    assert s2.procs[0].phase == Filled(ZERO_TMP);
  }

  /** `list_refs` is exact for `n` iff `n` is not one of the store's own names. */
  lemma ListingExactIff(n: Name)
    requires ValidRefName(n)
    ensures ListedIffLive(n) <==> !Internal(n)
  {
    if Internal(n) {
      var acts := Opening(n, FoundAtFirst(n), []) + ([CreateTmp(0, ZERO_TMP, []), FinishTmp(0), Publish(0)] + [Release(0)]);
      InternalNameUnlisted(n, []);
      assert PoliteBut(acts, n);
    } else {
      forall acts | PoliteBut(acts, n)
        ensures var end := Run(EMPTY_DIR, acts); n in LiveNames(end.files) <==> ValueAt(map[], end.log, n, |end.log|).Some?
      {
        assert AllPolite(acts);
        ListingIsLiveRefs(EMPTY_DIR, acts, n);
      }
    }
  }

  const PLAIN_NAME: Name := [97]

  /** Another caller's ordinary update makes uncommitted bytes visible under one of the store's own names. */
  lemma OwnNameTorn(n: Name)
    requires Own(n)
    ensures var end := Run(EMPTY_DIR, Opening(PLAIN_NAME, None, []) + [CreateTmp(0, n, [7])]);
            end.log == [] && Lookup(end.files, n).Some?
  {
    Opened(PLAIN_NAME, None, [], [CreateTmp(0, n, [7])]);
    var s := State(map[], map[LOCK_NAME := []], Some(0), map[0 := Proc(PLAIN_NAME, None, Some([]), Ready, 0, 0)], []);
    RunCons(s, CreateTmp(0, n, [7]), []);
    assert [CreateTmp(0, n, [7])] + [] == [CreateTmp(0, n, [7])];
  }

  /** Readers of `n` see only committed values iff `n` is not one of the store's own names. */
  lemma ReadersExactIff(n: Name)
    requires ValidRefName(n)
    ensures ReadsCommitted(n) <==> !Own(n)
  {
    if Own(n) {
      OwnNameTorn(n);
      assert PoliteBut(Opening(PLAIN_NAME, None, []) + [CreateTmp(0, n, [7])], n);
    } else {
      forall acts | PoliteBut(acts, n)
        ensures var end := Run(EMPTY_DIR, acts); Lookup(end.files, n) == ValueAt(map[], end.log, n, |end.log|)
      {
        assert AllPolite(acts);
        RunInv(EMPTY_DIR, acts);
        assert Faithful(Run(EMPTY_DIR, acts));
      }
    }
  }

  const TMP_FOO: Name := [46, 116, 109, 112, 46, 102, 111, 111]

  /** The two conditions differ: a ref `.tmp.foo` is read correctly in every run, and never listed. */
  lemma HiddenButReadable()
    ensures ValidRefName(TMP_FOO) && ReadsCommitted(TMP_FOO) && !ListedIffLive(TMP_FOO)
  {
    assert ValidRefName(TMP_FOO) && TMP_FOO[..5] == TMP_PREFIX;
    ReadersExactIff(TMP_FOO);
    ListingExactIff(TMP_FOO);
  }

  /** Creating the ref `.lock` in an empty directory is refused with a value the ref never held. */
  lemma LockNameIsRefused(v: Bytes)
    ensures var end := Run(EMPTY_DIR, Opening(LOCK_NAME, None, v) + [Release(0)]);
            && ValidRefName(LOCK_NAME)
            && 0 in end.procs && end.procs[0].phase == Returned(Conflict(Some([])))
            && end.log == [] && ValueAt(map[], end.log, LOCK_NAME, 0) == None
  {
    assert ValidRefName(LOCK_NAME);
    Opened(LOCK_NAME, None, v, [Release(0)]);
    var s := State(map[], map[LOCK_NAME := []], Some(0),
                   map[0 := Proc(LOCK_NAME, None, Some(v), Releasing(Conflict(Some([]))), 0, 0)], []);
    RunCons(s, Release(0), []);
    assert [Release(0)] + [] == [Release(0)];
  }

  // ---- Answers --------------------------------------------------------------

  /** The directory once the lock has been taken for the first time. */
  function WithLockFile(files: Directory): Directory {
    if LOCK_NAME in files then files else files[LOCK_NAME := []]
  }

  /** Lock, read, compare. */
  lemma SoloOpens(s: State, p: Pid, n: Name, expected: RefValue, desired: RefValue)
    requires p !in s.procs && s.holder.None? && ValidRefName(n) && !Own(n)
    ensures var was := Lookup(s.files, n);
            var phase := if was == expected then Ready else Releasing(Conflict(was));
            Step(Step(Step(s, Begin(p, n, expected, desired)), Acquire(p)), Load(p)) ==
              s.(files := WithLockFile(s.files), holder := Some(p),
                 procs := s.procs[p := Proc(n, expected, desired, phase, |s.log|, |s.log|)])
  {
    var s1 := Step(s, Begin(p, n, expected, desired));
    var s2 := Step(s1, Acquire(p));
    assert s2.procs == s.procs[p := Proc(n, expected, desired, Locked, |s.log|, |s.log|)];
    assert Lookup(s2.files, n) == Lookup(s.files, n);
    var was := Lookup(s.files, n);
    var phase := if was == expected then Ready else Releasing(Conflict(was));
    assert Step(s2, Load(p)).procs == s.procs[p := Proc(n, expected, desired, phase, |s.log|, |s.log|)];
  }

  /** Write the temporary file and rename it, or remove the ref. */
  function Swapping(p: Pid, desired: RefValue, tmp: Name): seq<Action> {
    if desired.Some? then [CreateTmp(p, tmp, []), FinishTmp(p), Publish(p)] else [Publish(p)]
  }

  /** The files after a swap of one ref. */
  function WithRef(files: Directory, n: Name, v: RefValue): Directory {
    if v.Some? then files[n := v.value] else files - {n}
  }

  /** `end` is `s` after process `p` has swapped its ref. */
  predicate HasSwapped(s: State, p: Pid, end: State)
    requires p in s.procs
  {
    var pr := s.procs[p];
    && end.files == WithRef(s.files, pr.name, pr.desired)
    && end.log == s.log + [Commit(pr.name, pr.expected, pr.desired, p)]
    && p in end.procs && end.procs[p].phase == Releasing(Updated)
  }

  lemma SoloRemoves(s: State, p: Pid)
    requires p in s.procs && s.procs[p].phase == Ready && s.procs[p].desired.None?
    ensures HasSwapped(s, p, Step(s, Publish(p)))
  {
  }

  lemma SoloRenames(s: State, p: Pid, tmp: Name)
    requires p in s.procs && s.procs[p].phase == Ready && s.procs[p].desired.Some?
    requires IsTmpFile(tmp) && tmp !in s.files && tmp != s.procs[p].name
    ensures HasSwapped(s, p, Step(Step(Step(s, CreateTmp(p, tmp, [])), FinishTmp(p)), Publish(p)))
  {
    var v := s.procs[p].desired.value;
    var s1 := Step(s, CreateTmp(p, tmp, []));
    assert s1.procs[p].phase == Filling(tmp) && s1.files == s.files[tmp := []];
    var s2 := Step(s1, FinishTmp(p));
    assert s2.procs[p].phase == Filled(tmp) && s2.files == s.files[tmp := v];
    assert s.files[tmp := v] - {tmp} == s.files;
  }

  lemma SoloSwaps(s: State, p: Pid, tmp: Name, rest: seq<Action>) returns (end: State)
    requires p in s.procs && s.procs[p].phase == Ready && IsTmpFile(tmp) && tmp !in s.files && tmp != s.procs[p].name
    ensures Run(s, Swapping(p, s.procs[p].desired, tmp) + rest) == Run(end, rest) && HasSwapped(s, p, end)
  {
    if s.procs[p].desired.None? {
      RunCons(s, Publish(p), rest);
      SoloRemoves(s, p);
      end := Step(s, Publish(p));
    } else {
      Run3(s, CreateTmp(p, tmp, []), FinishTmp(p), Publish(p), rest);
      SoloRenames(s, p, tmp);
      end := Step(Step(Step(s, CreateTmp(p, tmp, [])), FinishTmp(p)), Publish(p));
    }
  }

  /** A refused call has nothing left to do but to return. */
  lemma NothingToSwap(s: State, p: Pid, tmp: Name, rest: seq<Action>)
    requires p in s.procs && s.procs[p].phase.Releasing?
    ensures Run(s, Swapping(p, s.procs[p].desired, tmp) + rest) == Run(s, rest)
  {
    if s.procs[p].desired.None? {
      RunCons(s, Publish(p), rest);
    } else {
      Run3(s, CreateTmp(p, tmp, []), FinishTmp(p), Publish(p), rest);
    }
  }

  function SoloCas(p: Pid, n: Name, expected: RefValue, desired: RefValue, tmp: Name): seq<Action> {
    [Begin(p, n, expected, desired), Acquire(p), Load(p)] + (Swapping(p, desired, tmp) + [Release(p)])
  }

  /**
   * `cas_ref` with the lock free and nothing failing, on any directory: it answers
   * `Updated` and the ref has the desired value, or is gone, iff it had the
   * expected one; otherwise it answers the value there is. No other ref changes,
   * no temporary file stays, and the lock is free again.
   */
  lemma SoloAnswer(s: State, p: Pid, n: Name, expected: RefValue, desired: RefValue, tmp: Name)
    requires p !in s.procs && s.holder.None? && ValidRefName(n) && !Own(n) && IsTmpFile(tmp) && tmp !in s.files
    ensures var was := Lookup(s.files, n);
            var end := Run(s, SoloCas(p, n, expected, desired, tmp));
            && p in end.procs && end.procs[p].phase == Returned(if was == expected then Updated else Conflict(was))
            && end.files == (if was == expected then WithRef(WithLockFile(s.files), n, desired) else WithLockFile(s.files))
            && Lookup(end.files, n) == (if was == expected then desired else was)
            && end.log == (if was == expected then s.log + [Commit(n, expected, desired, p)] else s.log)
            && end.holder.None?
  {
    Run3(s, Begin(p, n, expected, desired), Acquire(p), Load(p), Swapping(p, desired, tmp) + [Release(p)]);
    SoloOpens(s, p, n, expected, desired);
    var s3 := Step(Step(Step(s, Begin(p, n, expected, desired)), Acquire(p)), Load(p));
    if Lookup(s.files, n) == expected {
      var s4 := SoloSwaps(s3, p, tmp, [Release(p)]);
      SoloReleases(s4, p);
    } else {
      NothingToSwap(s3, p, tmp, [Release(p)]);
      SoloReleases(s3, p);
    }
  }

  lemma SoloReleases(s: State, p: Pid)
    requires p in s.procs && (s.procs[p].phase.Releasing? || s.procs[p].phase.Failing?)
    ensures var end := Run(s, [Release(p)]);
            && p in end.procs && end.holder.None? && end.files == s.files && end.log == s.log
            && end.procs[p].phase == if s.procs[p].phase.Releasing? then Returned(s.procs[p].phase.outcome) else Dead
  {
    RunCons(s, Release(p), []);
    assert [Release(p)] + [] == [Release(p)];
  }

  /**
   * A call that fails returns an error, changes no ref and frees the lock. Only a
   * failed rename takes its temporary file away; otherwise it stays.
   */
  lemma FailedCall(s: State, p: Pid)
    requires p in s.procs && Critical(s.procs[p].phase) && !s.procs[p].phase.Releasing?
    ensures var end := Run(s, [IoError(p, s.procs[p].phase.Filled?)] + [Release(p)]);
            && p in end.procs && end.procs[p].phase == Dead && end.holder.None? && end.log == s.log
            && end.files == if s.procs[p].phase.Filled? then s.files - {s.procs[p].phase.tmp} else s.files
  {
    RunCons(s, IoError(p, s.procs[p].phase.Filled?), [Release(p)]);
    SoloReleases(Step(s, IoError(p, s.procs[p].phase.Filled?)), p);
  }

  /** A process that dies leaves every file as it is, and the lock free if it held it. */
  lemma DeathLeavesFiles(s: State, p: Pid, q: Pid)
    requires LockInv(s) && p in s.procs && !s.procs[p].phase.Returned?
    ensures var end := Step(s, Crash(p));
            && end.files == s.files && end.log == s.log && end.procs[p].phase == Dead
            && (end.holder == Some(q) <==> s.holder == Some(q) && q != p)
  {
  }

  /** A call is taken up iff its name is not empty, has no NUL and no slash in it, and is not a dot or two. */
  lemma TakenUpIff(s: State, p: Pid, n: Name, expected: RefValue, desired: RefValue)
    requires p !in s.procs
    ensures var s' := Step(s, Begin(p, n, expected, desired));
            && (p in s'.procs <==> |n| > 0 && (forall i :: 0 <= i < |n| ==> n[i] != 0 && n[i] != 47) && n != [46] && n != [46, 46])
            && (p !in s'.procs ==> s' == s)
            && (p in s'.procs ==> s'.procs[p].name == n && s'.procs[p].expected == expected && s'.procs[p].desired == desired)
  {
  }

  /** Process `p` was struck by an I/O error or died. */
  predicate Struck(p: Pid, acts: seq<Action>) {
    Crash(p) in acts || IoError(p, true) in acts || IoError(p, false) in acts
  }

  predicate FailuresExplained(s: State, acts: seq<Action>) {
    forall p :: p in s.procs && (s.procs[p].phase.Dead? || s.procs[p].phase.Failing?) ==> Struck(p, acts)
  }

  lemma StepExplained(s: State, past: seq<Action>, a: Action)
    requires FailuresExplained(s, past)
    ensures FailuresExplained(Step(s, a), past + [a])
  {
    var s', now := Step(s, a), past + [a];
    forall p | p in s'.procs && (s'.procs[p].phase.Dead? || s'.procs[p].phase.Failing?) ensures Struck(p, now) {
      if p in s.procs && (s.procs[p].phase.Dead? || s.procs[p].phase.Failing?) {
        assert forall b :: b in past ==> b in now;
      } else {
        assert a in now;
        if a.IoError? { assert a == IoError(p, a.cleanUp); }
      }
    }
  }

  /** In every run a call fails only because of an I/O error of its own or its death. */
  lemma {:induction false} FailuresAreFaults(s: State, past: seq<Action>, acts: seq<Action>)
    requires FailuresExplained(s, past)
    ensures FailuresExplained(Run(s, acts), past + acts)
    decreases |acts|
  {
    if acts == [] {
      assert past + acts == past;
    } else {
      StepExplained(s, past, acts[0]);
      FailuresAreFaults(Step(s, acts[0]), past + [acts[0]], acts[1..]);
      assert past + [acts[0]] + acts[1..] == past + acts;
    }
  }
}
