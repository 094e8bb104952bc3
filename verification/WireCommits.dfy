/** Commits on the wire: the CLI's codec and the daemon's, which disagree on one flag. */
module WireCommits {
  import opened Common

  datatype Signature = Signature(name: string, email: string, millis: int, tzOffset: int)

  /** A jj commit. A merge is its terms in order; there is always an odd number of them. */
  datatype Commit = Commit(parents: seq<Bytes>, predecessors: seq<Bytes>, rootTree: seq<Bytes>, labels: seq<string>,
                           changeId: Bytes, description: string, author: Signature, committer: Signature,
                           signed: Option<Bytes>)

  datatype WireTimestamp = WireTimestamp(millis: int, tzOffset: int)

  datatype WireSignature = WireSignature(name: string, email: string, timestamp: Option<WireTimestamp>)

  datatype WireCommit = WireCommit(parents: seq<Bytes>, predecessors: seq<Bytes>, rootTree: seq<Bytes>,
                                   labels: seq<string>, usesConflictFormat: bool, changeId: Bytes, description: string,
                                   author: Option<WireSignature>, committer: Option<WireSignature>, sig: Option<Bytes>)

  datatype CodecError = MissingAuthor | MissingCommitter | MissingTimestamp | EvenMerge

  /** What every jj commit satisfies: `Merge` has an odd number of terms. */
  predicate WellFormed(c: Commit) {
    |c.rootTree| % 2 == 1 && |c.labels| % 2 == 1
  }

  predicate Resolved<T>(terms: seq<T>) {
    |terms| == 1
  }

  function SignatureToWire(s: Signature): WireSignature {
    WireSignature(s.name, s.email, Some(WireTimestamp(s.millis, s.tzOffset)))
  }

  function SignatureFromWire(w: WireSignature): Option<Signature> {
    if w.timestamp.None? then None
    else Some(Signature(w.name, w.email, w.timestamp.value.millis, w.timestamp.value.tzOffset))
  }

  // ---- The CLI's codec ------------------------------------------------------

  /** The flag is always set, labels are sent only for a conflict, and a signature never. */
  function CliToWire(c: Commit): WireCommit {
    WireCommit(c.parents, c.predecessors, c.rootTree, if Resolved(c.labels) then [] else c.labels, true,
               c.changeId, c.description, Some(SignatureToWire(c.author)), Some(SignatureToWire(c.committer)), None)
  }

  /** `ConflictLabels::from_vec`: no labels is the resolved empty label. */
  function LabelsFromVec(labels: seq<string>): seq<string> {
    if labels == [] then [""] else labels
  }

  /** The flag is ignored; an even merge trips an assertion in jj-lib, modelled as an error; both signatures must be there. */
  function CliFromWire(w: WireCommit): Result<Commit, CodecError> {
    if |w.rootTree| % 2 == 0 || (w.labels != [] && |w.labels| % 2 == 0) then Err(EvenMerge)
    else if w.author.None? then Err(MissingAuthor)
    else if SignatureFromWire(w.author.value).None? then Err(MissingTimestamp)
    else if w.committer.None? then Err(MissingCommitter)
    else if SignatureFromWire(w.committer.value).None? then Err(MissingTimestamp)
    else Ok(Commit(w.parents, w.predecessors, w.rootTree, LabelsFromVec(w.labels), w.changeId, w.description,
                   SignatureFromWire(w.author.value).value, SignatureFromWire(w.committer.value).value, w.sig))
  }

  // ---- The daemon's codec ---------------------------------------------------

  const NOBODY: Signature := Signature("", "", 0, 0)

  /** Without the flag the first tree id is the whole merge; an absent signature is an empty one. */
  function DaemonFromWire(w: WireCommit): Result<Commit, CodecError> {
    var rootTree := if w.usesConflictFormat then w.rootTree
                    else if w.rootTree == [] then [[]] else [w.rootTree[0]];
    if |rootTree| % 2 == 0 then Err(EvenMerge)
    else if w.author.Some? && SignatureFromWire(w.author.value).None? then Err(MissingTimestamp)
    else if w.committer.Some? && SignatureFromWire(w.committer.value).None? then Err(MissingTimestamp)
    else if w.labels != [] && |w.labels| % 2 == 0 then Err(EvenMerge)
    else Ok(Commit(w.parents, w.predecessors, rootTree, LabelsFromVec(w.labels), w.changeId, w.description,
                   if w.author.None? then NOBODY else SignatureFromWire(w.author.value).value,
                   if w.committer.None? then NOBODY else SignatureFromWire(w.committer.value).value, w.sig))
  }

  /** The flag is set only for a real merge. */
  function DaemonToWire(c: Commit): WireCommit {
    WireCommit(c.parents, c.predecessors, c.rootTree, if Resolved(c.labels) then [] else c.labels, |c.rootTree| != 1,
               c.changeId, c.description, Some(SignatureToWire(c.author)), Some(SignatureToWire(c.committer)), c.signed)
  }

  // ---- Composition ----------------------------------------------------------

  /** CLI to daemon to CLI. */
  function ThroughDaemon(c: Commit): Result<Commit, CodecError> {
    match DaemonFromWire(CliToWire(c))
    case Err(e) => Err(e)
    case Ok(stored) => CliFromWire(DaemonToWire(stored))
  }

  /** Labels that survive: those of a conflict, or none. */
  predicate PlainLabels(labels: seq<string>) {
    !Resolved(labels) || labels == [""]
  }

  /**
   * Every commit comes back, and it comes back field for field exactly when it is
   * unsigned and its labels are those of a conflict or the empty one.
   */
  lemma CommitRoundTrip(c: Commit)
    requires WellFormed(c)
    ensures ThroughDaemon(c).Ok?
    ensures ThroughDaemon(c) == Ok(c) <==> c.signed.None? && PlainLabels(c.labels)
    ensures ThroughDaemon(c) == Ok(c.(signed := None, labels := if Resolved(c.labels) then [""] else c.labels))
  {
    assert SignatureFromWire(SignatureToWire(c.author)) == Some(c.author);
    assert SignatureFromWire(SignatureToWire(c.committer)) == Some(c.committer);
    if Resolved(c.labels) { assert c.labels == [c.labels[0]]; }
  }

  /** The two sides' different flags are read alike by either decoder. */
  lemma FlagIsHarmless(c: Commit)
    requires WellFormed(c)
    ensures DaemonFromWire(DaemonToWire(c)) == DaemonFromWire(DaemonToWire(c).(usesConflictFormat := true))
    ensures CliFromWire(DaemonToWire(c)) == CliFromWire(DaemonToWire(c).(usesConflictFormat := true))
    ensures DaemonToWire(c).usesConflictFormat == CliToWire(c).usesConflictFormat <==> !Resolved(c.rootTree)
  {
    if |c.rootTree| == 1 { assert c.rootTree == [c.rootTree[0]]; }
  }

  /** A commit that git holds is read by the CLI as it is, signature included; only a lone label is lost. */
  lemma StoredCommitReads(c: Commit)
    requires WellFormed(c)
    ensures CliFromWire(DaemonToWire(c)) == Ok(c.(labels := if |c.labels| == 1 then [""] else c.labels))
  {
    assert SignatureFromWire(SignatureToWire(c.author)) == Some(c.author);
    assert SignatureFromWire(SignatureToWire(c.committer)) == Some(c.committer);
  }

  // ---- The two decoders -------------------------------------------------------

  /** The message as the daemon understands it: the first tree id without the flag, empty signatures for absent ones. */
  function AsDaemonReads(w: WireCommit): WireCommit {
    var nobody := Some(WireSignature("", "", Some(WireTimestamp(0, 0))));
    w.(rootTree := if w.usesConflictFormat then w.rootTree else if w.rootTree == [] then [[]] else w.rootTree[..1],
       author := if w.author.None? then nobody else w.author, committer := if w.committer.None? then nobody else w.committer)
  }

  /**
   * On every message at all, the daemon decodes what the CLI would decode if the
   * tree ids were cut to the first where the flag is missing, and empty signatures
   * stood for absent ones; it refuses exactly when the CLI would refuse that.
   */
  lemma DaemonIsLenient(w: WireCommit)
    ensures DaemonFromWire(w).Ok? <==> CliFromWire(AsDaemonReads(w)).Ok?
    ensures DaemonFromWire(w).Ok? ==> DaemonFromWire(w) == CliFromWire(AsDaemonReads(w))
    ensures w.usesConflictFormat && CliFromWire(w).Ok? ==> DaemonFromWire(w) == CliFromWire(w)
  {
    if !w.usesConflictFormat && w.rootTree != [] { assert w.rootTree[..1] == [w.rootTree[0]]; }
  }

  /** What the CLI accepts: merges of odd length and both signatures with their times; each refusal names what is wrong. */
  lemma CliAccepts(w: WireCommit)
    ensures CliFromWire(w).Ok? <==>
              && |w.rootTree| % 2 == 1 && (w.labels == [] || |w.labels| % 2 == 1)
              && w.author.Some? && w.author.value.timestamp.Some? && w.committer.Some? && w.committer.value.timestamp.Some?
    ensures CliFromWire(w) == Err(MissingAuthor) ==> w.author.None?
    ensures CliFromWire(w) == Err(MissingCommitter) ==> w.committer.None? && w.author.Some?
    ensures CliFromWire(w) == Err(EvenMerge) <==> |w.rootTree| % 2 == 0 || (w.labels != [] && |w.labels| % 2 == 0)
  {
  }
}
