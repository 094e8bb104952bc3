# kiki: a verified model

kiki is a virtual filesystem daemon for jj: several daemons and CLIs share one
content-addressed remote plus a compare-and-swap catalog of refs. This project
models the parts whose correctness depends on interleavings, crashes and graph
closure, and proves what they guarantee. It also proves, by concrete runs, where
a natural guarantee fails and on exactly which condition it holds.

| file | what it models |
|---|---|
| `Common.dfy`, `ByteOrder.dfy` | shared types; the order of byte strings and the ascending form of a set |
| `OpHeadsCodec.dfy` | the bytes of the `op_heads` ref |
| `OpHeadsProtocol.dfy`, `OpHeadsClient.dfy` | `update_op_heads`: all interleavings of any number of callers; one caller's retry loop |
| `OpGraph.dfy` | the operation graph on the remote, on top of the protocol |
| `S3Cas.dfy`, `DirStore.dfy` | two compare-and-swap backends as step systems |
| `OpHeadsOnS3.dfy` | the protocol composed with the object store, request by request |
| `GitObjects.dfy`, `Stores.dfy` | objects, tree graphs, the local store, a faulty remote with other writers |
| `Fetch.dfy`, `Push.dfy`, `TreeCheck.dfy`, `Replication.dfy` | read-through, the push walk, the completeness checker, and their agreement |
| `Slots.dfy`, `Registry.dfy` | the workspace slot allocator across crashes, and the start-up scan |
| `SlotRaces.dfy` | the same allocator with requests interleaved between reading and writing repos.toml |
| `MountMeta.dfy`, `Hex.dfy` | `mount.toml` durability and its hex fields |
| `Bookmarks.dfy` | bookmark export, detection and import |
| `OpPrefix.dfy` | operation-id prefix resolution over two layers |
| `WireTrees.dfy`, `WireCommits.dfy` | the CLI's and the daemon's codecs, composed |

Concurrency and crashes are modelled as runs: sequences of atomic steps chosen
freely, including failures after or before an effect, lost replies and restarts.
Loops and updated objects of the program are methods and classes. The network,
clocks, randomness and failures are parameters or free choices of a step.

Library contracts assumed, each as an explicit hypothesis or parameter: object
hashing is injective; a parsed git tree names 20-byte ids; equal entity tags mean equal bodies; an
object store executes each conditional request atomically (sections 13.1.1,
13.1.2 and 15.5.13 of RFC 9110); `rename` and `flock` are atomic, and a `rename`
that reports an error had no effect; git gives back the tree entries and refs it
was given; `ConflictLabels::from_vec` reads an empty list as the resolved empty
label and keeps any other.

## What the proofs found

- Two first updates of `op_heads` can lose a head: the second read of an
  iteration that saw no heads uses whatever value has appeared since as its CAS
  precondition (`CreationRaceLosesHead`). `SwapExactIff` gives the condition.
- A ref value that is readable but not canonical makes even a lone caller use up
  its 64 retries (`NonCanonicalExhausts`), because the precondition is re-encoded.
- The comment at cli/src/op_heads_store.rs:181-185 says a conflict's `actual`
  value is used for the retry; the code reads the ref again, and so does the model.
- A conflict reported by the S3 store can name the expected value, exactly when a
  412 was followed by the value coming back (`ConflictNamesExpectedIff`). The
  protocol tolerates it (`OpHeadsOnS3`).
- store/src/lib.rs:109-112 explains why `.lock` needs no reservation, but `.lock`
  and every name starting with `.tmp.` are admitted and then never listed; all
  other names are (`ListingExactIff`). Unsafe to read are only the names the store
  itself uses: `.lock`, and `.tmp.` followed by 16 lower-case hex digits
  (`ReadersExactIff`). A ref `.tmp.foo` is thus read correctly and never listed
  (`HiddenButReadable`).
- Slots: cloning only new names is not enough, because a refused second create has
  already put an unpersisted slot into `workspace.toml` (`RefusedCreateCollides`);
  finalizing only created workspaces is not enough either (`ReclonedNameCollides`).
  Both together are (`NoSharedSlots`), when requests are served one at a time.
- The handlers interleave, and repos.toml is read and written back without a lock.
  Then the same disciplined clients can be given one slot twice: an older counter
  overwrites a newer one (`StaleCounterCollides`), or a finalize meets a second
  create of its workspace (`FinalizeRaceCollides`). One request per repo at a time
  and one writer of repos.toml at a time restore the guarantee
  (`LocksPreventCollisions`); neither of the two can be left out. The overwriting
  write can also drop a repo whose clone was acknowledged (`AcknowledgedRepoDropped`).
- The completeness checker keeps one visited set for trees and blobs. An id met
  first as a file and then as a subtree is not descended into, so a graph can pass
  with a file missing (`PassesThoughIncomplete`). A pass is right exactly when every
  id met both ways is itself complete and present (`CheckTreeComplete`).
- A delete is acknowledged even if its directory could not be removed; then the next
  restart brings the workspace back (`DeletedComesBackIff`).
- What is remembered as exported ignores how the export went. Detection stays
  silent exactly when the export missed nothing (`ExportThenDetect`); otherwise
  the next import drops the missed bookmarks from the view (`ExportThenImport`),
  and a ref listing that fails drops them all (`FailedListingDeletesAll`).

## Model

| member | source | states |
|---|---|---|
| OpHeadsCodec.Encode | cli/src/op_heads_store.rs:69-83 | the loop over the ordered set produces the length-prefixed concatenation of its ids in ascending order |
| OpHeadsCodec.DecodeLoop | cli/src/op_heads_store.rs:87-116 | the index loop computes the recursive decoding, with the same error at the same place |
| OpHeadsCodec.DecodeMeaning | cli/src/op_heads_store.rs:85-116 | decoding succeeds iff the whole buffer is a sequence of framed entries, and yields exactly the non-empty ones |
| OpHeadsCodec.DecodeErrorMeans | cli/src/op_heads_store.rs:87-116 | every refused buffer is some whole entries and a rest cut short, and the error gives that rest's length, or the declared and the remaining length |
| OpHeadsCodec.PrefixOrdered | cli/src/op_heads_store.rs:69-83 | the length prefix is big-endian: a longer entry has the greater prefix |
| OpHeadsCodec.EncodeThenDecode | cli/src/op_heads_store.rs:67-116 | decode inverts encode on all sets of non-empty ids shorter than 2^32 bytes; an empty id is the only thing lost; the result is canonical |
| OpHeadsCodec.EncodeInjective | cli/src/op_heads_store.rs:69-83 | different sets have different encodings |
| OpHeadsCodec.DecodeThenEncode | cli/src/op_heads_store.rs:69-116 | encode inverts decode iff the buffer is strictly ascending without empty entries |
| OpHeadsProtocol.StepInv | cli/src/op_heads_store.rs:172-243 | every step of every caller keeps the invariant tying reads, swaps, lost CASes and the ref's history together |
| OpHeadsProtocol.NonEmptyForever | cli/src/op_heads_store.rs:187-234 | once a CAS has succeeded, or if heads were there to begin with, the ref is present, canonical and names a head in every later state of every run |
| OpHeadsProtocol.SwapExactIff | cli/src/op_heads_store.rs:187-234 | from any ref an update can replace, also an empty value: a successful iteration turns the heads at its swap into those minus old ids plus new id iff its two reads did not straddle the first heads, or nothing was there to lose |
| OpHeadsProtocol.LaterIterationsExact | cli/src/op_heads_store.rs:195-216 | every iteration begun once there are heads is exact |
| OpHeadsProtocol.HeadLossIsBlamed | cli/src/op_heads_store.rs:187-234 | a head disappears only through an update that names it or one whose reads straddled the first heads |
| OpHeadsProtocol.ExhaustionIsCharged | cli/src/op_heads_store.rs:186-243 | giving up after 64 retries means 64 distinct swaps by other callers during the call |
| OpHeadsProtocol.AnswersAreEarned | cli/src/op_heads_store.rs:172-243 | in every run: success means a swap of that very call with the ids it asked for, an error means a failed request or a lost reply, and every swap was asked for by its client |
| OpHeadsProtocol.SoloIteration | cli/src/op_heads_store.rs:187-234 | an undisturbed iteration succeeds iff the ref is absent, decodes to nothing, or is canonical; otherwise nothing changes |
| OpHeadsProtocol.SoloUpdate | cli/src/op_heads_store.rs:172-234 | from any state an undisturbed update on a replaceable value succeeds at once and installs the heads minus the old ids plus the new one, touching nobody else's call |
| OpHeadsProtocol.NonCanonicalExhausts | cli/src/op_heads_store.rs:186-243 | on a readable non-canonical value a lone caller loses all 64 retries to nobody |
| OpHeadsProtocol.CreationRaceLosesHead | cli/src/op_heads_store.rs:195-213 | for any two ids and any ref without heads, a run in which both first updates succeed and one head is gone |
| OpHeadsClient.NextHeads | cli/src/op_heads_store.rs:189-193 | the removal loop and the insertion compute the advanced set |
| OpHeadsClient.ReadSet | cli/src/op_heads_store.rs:150-164 | a failed request is a read error, a value that cannot be decoded is that decoding error, anything else yields the decoded set, empty for an absent ref |
| OpHeadsClient.ExpectedFor | cli/src/op_heads_store.rs:195-216 | the CAS precondition: a second look at a ref without heads, failing iff that request fails; the encoding of what was read otherwise |
| OpHeadsClient.Iterate | cli/src/op_heads_store.rs:187-234 | one iteration against a ref others may change before each request and requests that may fail: it gets through iff the value was readable and no request failed, what it installs when it wins, that a loss means the ref differed from its precondition, what each error means and leaves behind; undisturbed it wins iff the value is replaceable |
| OpHeadsClient.UpdateOpHeads | cli/src/op_heads_store.rs:172-243 | success installed the advanced set of the winning iteration's own read; it fails only by a failed last request or an unreadable value; an error left the ref to others or had installed it all the same; not converging is 64 consecutive lost iterations; without rivals and faults it succeeds iff the value is replaceable |
| OpHeadsClient.WonTurnExactIff | cli/src/op_heads_store.rs:195-216 | for one caller: the installed set is exact for the value replaced iff the first read saw heads or nothing was lost |
| OpHeadsClient.LostTurnSawChange | cli/src/op_heads_store.rs:209-216 | with canonical values only, a lost iteration saw the ref change between its read and its CAS |
| OpGraph.StepInv | cli/src/op_store.rs:168-250 | every write, lost reply, read or heads step keeps operations, views, parents and heads closed |
| OpGraph.RemoteGraphClosed | daemon/src/service.rs:1763-1877 | in every reachable state every operation reachable from the decoded `op_heads` is on the remote, and so is its view |
| OpGraph.AnyoneCanPublish | cli/src/op_store.rs:168-250 | in every reachable state an undisturbed client can write a view and an operation on any of the current heads, or on the root, and take exactly their place in `op_heads` |
| OpGraph.AncestorsCanBeLearnt | cli/src/op_store.rs:168-250 | every ancestor of a head can be learnt, and then built on, by reading the operations on the way |
| OpGraph.AlwaysReplaceable | cli/src/op_heads_store.rs:172-243 | in every reachable state an undisturbed update can replace the ref |
| OpGraph.RootNeverStored | cli/src/op_store.rs:168-250 | the synthetic root operation and root view never reach the remote |
| OpGraph.RepliesMean | daemon/src/service.rs:1763-1877 | a write is stored unless it failed before its effect, and counts for its client only once acknowledged |
| S3Cas.WriteIsSwap | daemon/src/remote/s3.rs:240-315 | a conditional write that passes replaces exactly the value the call had compared |
| S3Cas.CasLinearizes | daemon/src/remote/s3.rs:219-315 | in every interleaving each effective write is one atomic CAS inside its call, no call writes twice, `Updated` has such an instant, and a `Conflict` value was held during the call |
| S3Cas.SoloAnswer | daemon/src/remote/s3.rs:219-315 | undisturbed, on any store: `Updated` and the desired value, or no object, iff the key held the expected one; otherwise the value there is, and nothing is written |
| S3Cas.Swapped | daemon/src/remote/s3.rs:240-315 | an undisturbed write happens once, and is answered `Updated` iff its reply arrives |
| S3Cas.RefusedAnswer | daemon/src/remote/s3.rs:266-276 | after a 412 the answer is the value found by the second GET |
| S3Cas.ErrorsAreFaults | daemon/src/remote/s3.rs:219-315 | in every run a call errs only by a failed request or lost reply of its own, so a write that went through was answered `Updated` but for one |
| S3Cas.ConflictCanNameExpected | daemon/src/remote/s3.rs:266-276 | a run in which the value reported after a 412 is the expected one |
| S3Cas.ConflictNamesExpectedIff | daemon/src/remote/s3.rs:234-315 | in every run a conflict names the expected value iff a 412 was followed by that value coming back; that takes another call's write inside this one |
| OpHeadsOnS3.StepRefines | cli/src/op_heads_store.rs:172-243 | with every CAS carried out by the S3 requests, each step is a step of the protocol on one atomic ref or invisible there |
| OpHeadsOnS3.RunRefines | daemon/src/remote/s3.rs:219-315 | every interleaved run over the object store is a run of the protocol |
| OpHeadsOnS3.OpHeadsOnS3Safe | cli/src/op_heads_store.rs:186-243 | so over S3: writes are the protocol's swaps and exact under the same condition, heads stay once written, and 64 lost retries are 64 distinct writes of others |
| OpHeadsOnS3.SoloUpdate | cli/src/op_heads_store.rs:172-234 | in every reachable state, whatever others have in flight, an undisturbed update carried out by the S3 requests advances the heads exactly as asked, in one write |
| OpHeadsOnS3.RefusalReaches | daemon/src/remote/s3.rs:266-276 | a conflict sends its caller into the next retry, or out after the last; a failed request ends the call with an error |
| DirStore.DirCasRefinesAtomicMap | store/src/fs.rs:279-381 | with any processes, crashes and torn temporary files, for all refs except the lock file and `.tmp.` plus 16 hex digits: lock-free readers see the last committed value, each commit replaced what its caller expected, outcomes are truthful |
| DirStore.SoloAnswer | store/src/fs.rs:298-381 | with the lock free and nothing failing, on any directory: `Updated` and the desired value, or no file, iff the ref had the expected one; otherwise the value there is; no other file changes and the lock is free again |
| DirStore.FailedCall | store/src/fs.rs:315-374 | a call that fails changes no ref and frees the lock; only a failed rename takes its temporary file away |
| DirStore.DeathLeavesFiles | store/src/fs.rs:298-381 | a process that dies leaves the files as they are and frees only its own lock |
| DirStore.FailuresAreFaults | store/src/fs.rs:298-381 | in every run a call fails only by an I/O error of its own or its death |
| DirStore.TakenUpIff | store/src/lib.rs:113-127 | a call is taken up iff its name is not empty, holds no NUL and no slash, and is not one or two dots; otherwise nothing happens |
| DirStore.TmpFileIff | store/src/fs.rs:338-341 | the temporary names are exactly the prefix with the 16 lower-case hex digits of some 64-bit number |
| DirStore.ListRefs | store/src/fs.rs:383-419 | the listing loop returns exactly the non-internal names, ascending |
| DirStore.ListingIsLiveRefs | store/src/fs.rs:383-419 | at every moment of every run a name that is neither `.lock` nor starts with `.tmp.` is listed iff the ref currently has a value |
| DirStore.LockNameIsRefused | store/src/lib.rs:113-127 | creating a ref named like the lock file is refused with a value the ref never held |
| DirStore.InternalNameUnlisted | store/src/fs.rs:298-419 | for every name that validation admits and the listing hides, a call answered `Updated` leaves a ref no listing shows |
| DirStore.ListingExactIff | store/src/fs.rs:383-419 | a valid name is listed exactly when live, in all runs from an empty directory, iff it is neither `.lock` nor starts with `.tmp.` |
| DirStore.ReadersExactIff | store/src/fs.rs:279-342 | readers of a valid name see only committed values, in all such runs, iff it is not one of the store's own: the lock file, or `.tmp.` plus exactly 16 lower-case hex digits |
| DirStore.HiddenButReadable | store/src/fs.rs:334-419 | the two conditions differ: `.tmp.foo` is a valid ref, read correctly in every run and never listed |
| Stores.LocalStore.WriteObject | daemon/src/git_store.rs:361-381 | an object is stored under its own hash and nothing is replaced |
| Fetch.FetchGitObject | daemon/src/remote/fetch.rs:96-129 | whatever the remote returns, the cache stays keyed by hash; it succeeds iff the answer is the content the id names and the local write works, and then exactly that object is added; each error is reported exactly in its own case |
| Fetch.ReadTreeThrough | daemon/src/remote/fetch.rs:174-192 | a successful tree read is what the local store then answers; it succeeds iff the tree is readable locally, or unknown locally and the remote's answer is genuine and parses; a cached tree needs no remote; not found, remote failure and local errors exactly in their cases |
| Fetch.ReadFileThrough | daemon/src/remote/fetch.rs:133-152 | a successful read hashes to the requested id and is cached; it succeeds iff the file is there locally, or unknown locally and the remote's answer is genuine; a cached id needs no remote; errors exactly in their cases |
| Fetch.ServeReads | daemon/src/remote/fetch.rs:96-152 | over any run of file, tree, view and operation reads, against a remote that may give any answer to any request, replies agree with the id-to-content function and a question once answered is always answered the same; without faults every question whose content is held locally or remotely is answered |
| Fetch.OpStoreTables.Write | daemon/src/service.rs:170-238 | a row is written iff its id is 64 bytes, not all zero and the canonical id of its bytes, also if the remote put fails, which is reported iff it does; an acknowledged write leaves its bytes on the remote unless the key was there, and removes nothing; a rejected one touches nothing |
| Fetch.OpStoreTables.Read | daemon/src/service.rs:1808-1930 | the reply in every case: a row, a remote answer with the requested canonical id, which becomes a row, absent, corrupt, a failed request, or an id of the wrong length; a row answers without the remote |
| Fetch.ServeOne | daemon/src/service.rs:1808-1930 | one request of any kind: a question answered before gets the same answer without the remote |
| Push.PushIfMissing | daemon/src/service.rs:1231-1252 | without a fault: success iff the remote has the object or the local store does, an unreadable id and a missing object are told apart, and an object that is there is not sent again; nothing is removed; a sound remote stays sound |
| Push.PushEntries | daemon/src/service.rs:1208-1225 | every file and symlink of a tree is pushed and every subtree, and nothing else, queued; without faults it succeeds if all leaves are on the remote or local |
| Push.PushReachable | daemon/src/service.rs:1182-1228 | the walk ends on every finite graph, shared or cyclic, from any remote; success means everything reachable is on the remote under its kind; without faults it succeeds whenever the two stores together hold everything; neither store loses anything |
| Push.WalkClosed | daemon/src/service.rs:1187-1227 | a finished walk's visited set covers everything reachable |
| TreeCheck.Checker.MarkTree | daemon/src/check.rs:103-126 | a first-met tree is counted and reported exactly by its state |
| TreeCheck.HealthMeans | daemon/src/check.rs:103-165 | missing is a well-formed id the store does not hold; corrupt is an id of the wrong length, or an object that is no tree or does not parse; the empty tree is always there |
| TreeCheck.Checker.ProbeBlob | daemon/src/check.rs:139-165 | a first-met file or symlink is counted and reported exactly by its state |
| TreeCheck.Checker.WalkTree | daemon/src/check.rs:96-173 | the recursion ends on every graph, is the functional walk, and every tree it newly enters is finished when it returns |
| TreeCheck.FinishedCovers | daemon/src/check.rs:96-173 | a finished walk has entered exactly the reachable trees and probed exactly their leaves |
| TreeCheck.OkIffComplete | daemon/src/check.rs:42-46 | nothing is missing or corrupt iff every reachable tree is readable and every leaf exists |
| TreeCheck.CheckTreeComplete | daemon/src/check.rs:84-94 | on every graph: what is reported missing is not in the store and what is reported corrupt is malformed, each once; the graph is complete iff the check passes and every id met both as tree and as blob is complete below and present; where no id is met both ways: all are reported, the check passes iff the graph is complete, and the count is trees plus blobs plus submodule entries |
| TreeCheck.PassedIsRightIff | daemon/src/check.rs:96-173 | the condition under which a pass is right, for any finished walk |
| TreeCheck.ShadowedSubtreePasses | daemon/src/check.rs:136-142 | a tree listing a present id as a file and then as a subtree passes, whatever lies below the subtree |
| TreeCheck.PassesThoughIncomplete | daemon/src/check.rs:136-142 | a concrete graph that passes with a file missing |
| Replication.DescentAgrees | daemon/src/service.rs:1187-1227 | every path through the remote's trees is a path through the local ones |
| Replication.ClosedIsComplete | daemon/src/check.rs:84-173 | a closed, sound remote is complete in the checker's sense and meets its hypothesis |
| Replication.PushThenCheck | daemon/src/service.rs:1182-1228 | after any number of interrupted walks, a successful one closes the remote and the checker passes it; without faults the first walk succeeds if the two stores together hold everything |
| Replication.HypothesesCanBeMet | daemon/src/git_store.rs:239-280 | a git, a tree with a file, a store and a remote that meet all the hypotheses |
| Slots.ApplyKeepsInv | daemon/src/service.rs:3122-3282 | every write, failure, refusal, removal and restart keeps the slot invariant, orphaned `default` configs included |
| Slots.NoSharedSlots | daemon/src/service.rs:2592-2652 | in every disciplined run, crashes between any two writes included, no two registered workspaces share a slot |
| Slots.AllocatedSlotIsFresh | daemon/src/vfs/root_fs.rs:390-398 | the slot about to be handed out is not 0, not in use, and not in any config a restart could register |
| Slots.RestartKeepsSlots | daemon/src/lib.rs:557-690 | a workspace that comes back after a crash has the slot it had |
| Slots.FinalizedSurvives | daemon/src/service.rs:3237-3282 | after a successful finalize in a listed repo, in every later state until a request gives the workspace up, any restart that can read its files registers it with its slot |
| Slots.ClonedSurvives | daemon/src/service.rs:2640-2652 | the same for the default workspace of an acknowledged clone |
| Slots.EstablishedThrough | daemon/src/service.rs:3122-3282 | no crash, failure or other request moves or drops a workspace that is active in a listed repo |
| Slots.DeletedStaysGone | daemon/src/service.rs:3320-3360 | once a delete has removed the directory, the workspace is not registered and no restart registers it, until it is created or its repo cloned again |
| Slots.DeletedComesBackIff | daemon/src/service.rs:3320-3360 | the delete of an active workspace is undone by the next restart iff the directory could not be removed |
| Slots.DeletedRepoStaysGone | daemon/src/service.rs:3363-3409 | a deleted repo, however much of it could be removed, has no workspace until it is cloned again, and no restart gives it one |
| Slots.DeletedRepoComesBackIff | daemon/src/service.rs:3363-3409 | a deleted repo's workspace comes back iff its config was left behind and repos.toml could not be written |
| Slots.ForgottenRepoStaysGone | daemon/src/service.rs:3412-3440 | a forgotten repo keeps its files and is not registered until it is cloned again |
| Slots.RequestRefused | daemon/src/service.rs:3122-3440 | requests about repos or workspaces that are not there, and a clone of a registered repo, change nothing |
| Slots.TouchWritesBack | daemon/src/vfs/root_fs.rs:482-570 | writing a workspace back keeps its slot and state and touches no other config |
| Slots.RefusedCreateCollides | daemon/src/service.rs:3150-3214 | a run that clones only new names, but finalizes after a refused create, ends with two workspaces on one slot |
| Slots.ReclonedNameCollides | daemon/src/service.rs:2592-2652 | a run that finalizes only created workspaces, but clones a listed name, ends with two workspaces on one slot |
| SlotRaces.StepInv | daemon/src/service.rs:2592-2652 | with one request per repo and one writer of repos.toml at a time, every step of every interleaved request, failure and restart keeps the slot invariant |
| SlotRaces.LocksPreventCollisions | daemon/src/service.rs:3122-3282 | under both locks no interleaved run of disciplined clients, crashes included, puts two workspaces on one slot |
| SlotRaces.UndisturbedIsSlots | daemon/src/service.rs:2640-2652 | reading and writing back repos.toml with nobody in between is the atomic publication of `Slots`, and every other step is its step |
| SlotRaces.RequestsAreSlots | daemon/src/service.rs:2592-2652 | issuing a request and restarting do what they do in `Slots` |
| SlotRaces.GivingUpStops | daemon/src/service.rs:3363-3409 | a request that gives up has no further effect, except that a repo being deleted is still to be unlisted |
| SlotRaces.PartialRemoval | daemon/src/service.rs:3377-3388 | a removal that stops halfway leaves exactly the configs it did not get to |
| SlotRaces.StaleCounterCollides | daemon/src/service.rs:3216-3223 | with one request per repo only: a run in which an older counter overwrites a newer one and two workspaces end on one slot |
| SlotRaces.FinalizeRaceCollides | daemon/src/service.rs:3237-3282 | with one writer of repos.toml only: a run in which a finalize meets a second create of its workspace and two workspaces end on one slot |
| SlotRaces.AcknowledgedRepoDropped | daemon/src/service.rs:2640-2652 | a run in which a clone's write takes another acknowledged clone out of repos.toml |
| Registry.RootFs.RegisterWorkspace | daemon/src/vfs/root_fs.rs:279-319 | refuses an unknown repo and a taken name without effect; otherwise registers and keeps the counter ahead |
| Registry.RootFs.AllocSlot | daemon/src/vfs/root_fs.rs:390-398 | returns the counter and advances it; at the u32 limit nothing changes |
| Registry.ScanRepo | daemon/src/lib.rs:622-673 | the inner loop registers exactly the active configs of one repo, in any order |
| Registry.Rehydrate | daemon/src/lib.rs:557-690 | the start-up scan yields exactly the active configs of the listed repos that open, and a counter above all of them |
| MountMeta.MemoryEqualsFile | daemon/src/service.rs:2042-2060 | at every step of every run memory equals mount.toml outside the publishing window |
| MountMeta.FailureChangesNothing | daemon/src/service.rs:2049-2058 | a failed persist leaves file and memory as they were before the request |
| MountMeta.RestartIsAckedOrInFlight | daemon/src/service.rs:486-610 | a restart returns the last acknowledged metadata or the whole update in flight, never a mix |
| MountMeta.AckedSurvives | daemon/src/mount_meta.rs:66-89 | a registered mount comes back after any crash unless it cannot be opened |
| MountMeta.RequestTakesEffect | daemon/src/service.rs:2018-2060 | from any state with the lock free: a new mount has the given remote, no ids and the empty tree; a check-out replaces operation and workspace id, a snapshot the root, and nothing else; file, memory and acknowledgement agree |
| MountMeta.RequestRefused | daemon/src/service.rs:2042-2047 | requests on a path mounted already, not mounted, or with a root of the wrong length change nothing |
| MountMeta.RestartFinds | daemon/src/service.rs:486-610 | a restart returns exactly the mounts whose file opens and whose root has 0 or 20 bytes, field for field, an absent root read as the empty tree |
| MountMeta.EffectSurvives | daemon/src/service.rs:486-610 | what a request has written is what the next restart returns |
| Hex.Serialize | daemon/src/mount_meta.rs:167-174 | two lower-case digits per byte, spelling the bytes |
| Hex.Deserialize | daemon/src/mount_meta.rs:176-205 | succeeds iff the length is even and all digits are hex, and returns what they spell |
| Hex.RoundTrip | daemon/src/mount_meta.rs:164-206 | reading back what was written gives the same bytes |
| Hex.DigitsInOrder | daemon/src/mount_meta.rs:167-205 | the digits are 0 to 9 and a to f in this order, and upper case is read like lower case |
| Bookmarks.Detect | daemon/src/service.rs:2431-2468 | one change for each differing name with its new value, none before the first export; a failed ref listing reads as no refs |
| Bookmarks.PatchInAnyOrder | daemon/src/service.rs:2441-2465 | the reported changes, in any order, turn the exported map into the current refs |
| Bookmarks.NoChangeIffEqual | daemon/src/service.rs:2441-2465 | nothing is reported iff the maps are equal |
| Bookmarks.ApplyImports | cli/src/main.rs:551-602 | all changes are applied in order, or none if a commit cannot be read |
| Bookmarks.ImportIsPatch | cli/src/main.rs:551-602 | importing into the view patches exactly its exportable part |
| Bookmarks.GitRepo.ExportBookmarks | daemon/src/git_ops.rs:182-204 | refs are set in order up to the first whose commit is not there or whose write fails; all of them iff there is none such and the repo opens |
| Bookmarks.GitRepo.CleanupStaleRefs | daemon/src/git_ops.rs:243-263 | what is left of the stale refs: all without a listing, exactly those that cannot be deleted if every git process starts, none iff there were none or everything succeeded |
| Bookmarks.GitRepo.WriteView | daemon/src/service.rs:1776-1802 | the refs after an export that may stop early, and that the remembered map ignores how it went |
| Bookmarks.SyncRound | daemon/src/service.rs:2431-2468 | detect, import, export, clean up, detect: with readable commits nothing more is reported however the export fares, all outside edits are in the view, no ref is moved back; a conflicted bookmark without a ref stays conflicted |
| Bookmarks.ExportThenDetect | daemon/src/service.rs:1776-1802 | for every list, refs and failures: detection after an export is silent iff what the export missed was there already and no stale ref is left |
| Bookmarks.ExportThenImport | cli/src/main.rs:551-602 | for every export: the next import leaves the view with git's refs, losing a bookmark iff the export missed it and git did not have it |
| Bookmarks.ExportExactIff | daemon/src/git_ops.rs:182-263 | the refs after export and clean-up equal the bookmarks under exactly that condition |
| Bookmarks.FailedListingDeletesAll | daemon/src/service.rs:2438-2465 | a failed listing reports every exported bookmark deleted, and importing that deletes them all |
| Bookmarks.FailedExportReadsAsDeletion | daemon/src/service.rs:1781-1802 | every bookmark an export did not get to, and that git did not have, is reported deleted |
| OpPrefix.ScanTable | daemon/src/git_store.rs:464-485 | the scan with its early exit says none, the one, or ambiguous by the number of matching ids |
| OpPrefix.ResolvesUnique | daemon/src/git_store.rs:480-484 | the specification determines the answer |
| OpPrefix.MatchesIsTextual | cli/src/op_store.rs:257 | the bytewise test on the root and the textual test on the table agree for prefixes of both parities |
| OpPrefix.MergeIsSpec | cli/src/op_store.rs:286-300 | merging the root's match gives the specification over table ids plus root, also if the table holds the root |
| OpPrefix.ResolvePrefix | cli/src/op_store.rs:252-301 | both layers together meet the specification for every table and prefix |
| WireTrees.TreeRoundTrip | cli/src/backend.rs:456-542 | a submodule-free tree comes back equal but for copy ids, however the store orders entries |
| WireTrees.WrittenIsDecoded | daemon/src/git_store.rs:613-650 | the CLI's encoding exists iff there is no submodule, and the daemon decodes it entry by entry |
| WireTrees.WireRoundTrip | cli/src/backend.rs:456-542 | the CLI reads back what it sends whole, copy ids included |
| WireTrees.KindsKept | daemon/src/git_store.rs:613-650 | git is given the same names and ids in order, executable files as executable, trees as trees, symlinks as symlinks |
| WireTrees.OddKinds | daemon/src/git_store.rs:613-650 | a conflict marker is stored as a plain file, and a submodule in git is read as a subtree |
| WireTrees.RefusedIff | cli/src/backend.rs:491-542 | the CLI refuses a message iff some entry has an empty name, a slash in it, no value or a conflict; the daemon iff some entry has no value |
| WireTrees.StoreRefusesIff | daemon/src/git_store.rs:521-549 | the store refuses a tree iff some name is empty or has a slash in it |
| WireTrees.SortSorts | daemon/src/git_store.rs:521-549 | sorting distinct names yields the strictly ascending sequence of the same entries |
| WireTrees.SortedUnique | cli/src/backend.rs:491-512 | a set of entries has one strictly ascending form |
| WireCommits.CommitRoundTrip | cli/src/backend.rs:358-415 | every commit with odd merges comes back, unchanged iff it is unsigned and its labels are a conflict's or the empty one |
| WireCommits.FlagIsHarmless | daemon/src/git_store.rs:697-842 | the two sides' different conflict-format flags are decoded alike |
| WireCommits.StoredCommitReads | cli/src/backend.rs:381-415 | a commit that git holds is read as it is, its signature included; only a lone label is lost |
| WireCommits.DaemonIsLenient | daemon/src/git_store.rs:697-842 | on every message the daemon decodes what the CLI would with the tree ids cut to the first where the flag is missing and empty signatures for absent ones, and refuses exactly when that is refused |
| WireCommits.CliAccepts | cli/src/backend.rs:381-415 | the CLI accepts iff merges are odd and both signatures with their times are there; each refusal names what is wrong |

## Left out

- Fetch.ReadTreeThrough: symlinks, commits and extras have fetch functions of the same shape; extras are stored unchecked, so no claim is made for them.
- Fetch.OpStoreTables.Read: decoding and rehashing a view or operation is one function parameter, not jj's format.
- Slots.NoSharedSlots: holds for clients that respect both disciplines, with requests served one at a time; each collision run breaks one discipline, and `SlotRaces` has the interleaved requests.
- SlotRaces.StepInv: a request's reading of repos.toml and composing of its new content is one step; a config write and a registration are one step each, as in `Slots`.
- TreeCheck.CheckTreeComplete: paths, expected kinds and error texts in findings are not modelled, and local I/O errors count as corruption only through the store's own error cases.
- WireCommits.CommitRoundTrip: composes the codecs; what jj's git backend does to a commit between write and read is not part of this model.
- Local refs in redb: one write transaction is the atomic compare-and-swap itself.
- S3 listing pagination, key layout and URL parsing: independent of the compare-and-swap proved here.
- `put_blob` and `get_blob` of the directory store: content-addressed puts enter as the contract of the remote in `Stores.dfy`.
- HEAD import and HEAD detection next to bookmarks: one comparison each, with no map to patch.
- Managed workspaces' op id and tree id in workspace.toml: only state and slot are kept in `Slots.dfy`; `mount.toml` covers the persist-then-publish pattern.
- Two paths whose mount directory names collide under the hash.
- The fault-injection generator (`fi.rs`): no property of the system depends on its sequence.
- `check_remote_ref_complete`: a placeholder that reports nothing.
- FUSE, NFS, tunnels, gRPC wrappers, start and stop of the daemon, the command line: operating-system and wire plumbing.
