# Verified models of OMNI OS components

A Dafny model of the parts of OMNI OS whose correctness is not visible from one function body:
the capability algebra, the container engine under concurrency, the emergency-recovery mode
machine, the privacy budget, the Orchestrator watch, the build-stamp calendar, and the SSH and
HTTP wire formats. `dafny verify dfyconfig.toml` checks all of it.

| file | models |
|---|---|
| `Scopes.dfy`, `Attenuation.dfy`, `Tokens.dfy`, `Revocation.dfy` | `crates/omni-capability` |
| `Containers.dfy`, `Engine.dfy` | `crates/omni-container` (engine and lifecycle) |
| `Sessions.dfy`, `Modes.dfy` | `crates/omni-agent/src/mode.rs` |
| `Privacy.dfy`, `Failover.dfy` | `crates/omni-agent/src/privacy.rs`, `security.rs` |
| `CivilDate.dfy` | `format_utc_date` of `crates/omni-kernel/build.rs` |
| `Ssh.dfy`, `Http.dfy` | `crates/omni-cmd-ssh`, `crates/omni-cmd-curl` |
| `Base.dfy`, `Decimal.dfy`, `Utf8.dfy` | machine integers, decimal text and UTF-8 as the standard library defines them |

Where the program updates an object in place, the model has a class with the same fields
(`MicroBloom`, `RevocationList`, `KvmEngine`, `EmergencyRecoveryManager`, `ModeManager`,
`PrivacyBudgetAccountant`, `SecurityWatch`). Each method is proved to do what a function on
values does, and the results about whole runs are proved of those functions.

What is outside the program is a parameter: hash functions, signing and encoding, fresh
identifiers and VM handles, hypervisor outcomes, clock readings. Nothing is assumed about them
except that VM handles are fresh, that the clock does not go back where a lemma says `Timed`,
and, in one lemma about signatures, that a signature checks under its own key. The places
of VMs are described for every run. Results about one container cover runs of up to 2^64 provisions:
the 2^64-th id is the reserved zero, and the one after it is the first to repeat.

## Results where the program and its documentation differ

- The scope test is documented to hold exactly when the child is at least as restrictive. It is
  sound, but rejects some children that are not wider (`ScopeSubsetIncomplete`, `ScopeSubsetOverhang`). For all scopes,
  `NeverWiderExactly` says when a child is not wider and `ScopeSubsetDecides` when the test agrees:
  it fails on a usable child exactly if every limit of the parent binds the child while some caveat
  is not listed or the written window, before the child's own time caveats, sticks out.
- An endpoint without a colon is not a subset of itself, so attenuating such a scope always
  fails (`ResourceSubsetReflexive`, `FoldOutcome`).
- "3 activations per 24 hours" is per counter window. Six can fall within five minutes
  (`SixWithinMinutes`); seven always span a day (`SevenSpanADay`). The promise holds over a run
  exactly when no call comes within a day of the third activation before it and finds the counter
  due for a reset or that activation in an earlier window (`GrantedExactly`, `DayLimitExactly`).
- `current_mode` reads the clock twice. If the readings fall on both sides of the expiry, the
  mode returns to High-Risk with the session left open, and from then on no activation through
  the mode manager can succeed (`StraddleReachable`, `LockedOutForever`).
  Driven with one clock value per poll and no session opened or closed directly, the two machines
  stay coupled over every run (`RecoveryIsSession`); in general exactly when every call is harmless
  where it is made (`CoupledAlways`).
- Leaving High-Risk is documented to be refused after a trigger. The program does not look at what
  activated it (`HighRiskAnswers`).
- A post-recovery report gives the session's age at the time of asking, not its actual length
  (`ReportOverstates`, `ReportDurationExact`).
- The ids a run hands out are distinct and non-zero exactly up to 2^64 - 1 provisions
  (`IdsDistinctExactly`), and runs of any number of provisions exist (`AnyNumberOfIds`). After 2^64
  an insert can replace a container and lose its VM (`ReplacementHappens`). Every VM has a place
  exactly when none did (`EveryVmInOnePlace`), and a lost one is lost for ever (`LostForever`).
- An internal hypervisor error is documented to move the container to Terminating. The program
  returns an error and changes no container, so it can stay Running with nobody running it
  (`FailedRunKeepsStore`, `InternalErrorStaysRunning`); only a terminate call ends a container
  (`EndedByTerminate`).
- SSH framing aligns the packet without its four-byte length field; section 6 of RFC 4253 counts
  it, and no frame is aligned in that sense (`FrameNeverAligned`). The one-byte padding field makes
  framing lossless exactly for block sizes up to 252 (`BlockSizeLimit`).
- A response is documented to be refused unless its status line starts with HTTP/1.1 and a
  three-digit code. The program takes any first word and any decimal number below 2^16
  (`StatusAcceptedExactly`, `StatusOddity`).
- An agent can be over its own privacy budget, exactly while its last allocation was below what it
  had been charged by then, less one tolerance (`OverspentExactly`).
- A request reaches the receiver as the intended lines and body exactly when no caller-supplied
  field contains CRLF (`RequestExact`); its fields then read back exactly when they are trimmed and
  no name contains a colon (`RequestFieldsParse`).

## Model

| member | source | states |
|---|---|---|
| Scopes.RSplitColon | crates/omni-capability/src/scope.rs:286-291 | splits at the last colon: succeeds exactly when there is one, loses nothing, and leaves no colon on the right |
| Scopes.PathMeaning | crates/omni-capability/src/scope.rs:266-280 | a pattern `p/**` covers p and what starts with p and a slash, any other pattern itself alone, with the suffix written out |
| Scopes.PathTestMeaning | crates/omni-capability/src/scope.rs:266-280 | below `p/**` the test accepts exactly a plain path, or a deep pattern's prefix, that is p or starts with p and a slash; below any other pattern only the same |
| Scopes.EndpointMeaning | crates/omni-capability/src/scope.rs:285-295 | a star stands for every host and port zero for every port, in patterns and in the test |
| Scopes.PathSubsetSound | crates/omni-capability/src/scope.rs:266-280 | a path matching an accepted child pattern matches the parent pattern |
| Scopes.PathSubsetComplete | crates/omni-capability/src/scope.rs:266-280 | if every path matching `a` matches `b`, the path test accepts, for all patterns |
| Scopes.EndpointSubsetComplete | crates/omni-capability/src/scope.rs:285-295 | for a child with a colon: if every concrete endpoint matching `a` matches `b`, the endpoint test accepts |
| Scopes.RangeSubsetComplete | crates/omni-capability/src/scope.rs:248-252 | a non-empty address range included in another resource is accepted, up to and past the top of the 64-bit space |
| Scopes.ResourceSubsetSound | crates/omni-capability/src/scope.rs:192-242 | on every pair of resources, an accepted child reaches no target the parent does not |
| Scopes.ResourceSubsetComplete | crates/omni-capability/src/scope.rs:192-242 | a resource naming some target and included in another is accepted |
| Scopes.ResourceSubsetDecides | crates/omni-capability/src/scope.rs:192-252 | the test is equivalent to inclusion of target sets for every resource naming something; for the rest, exactly what it accepts |
| Scopes.ResourceSubsetReflexive | crates/omni-capability/src/scope.rs:192-242 | a resource is below itself exactly when it is not an endpoint without a colon |
| Scopes.ResourceSubsetTransitive | crates/omni-capability/src/scope.rs:192-242 | transitive on all resources |
| Scopes.ResourceSubsetAntisymmetric | crates/omni-capability/src/scope.rs:192-242 | antisymmetric on all resources, malformed and empty ones included |
| Scopes.ScopeSubsetSound | crates/omni-capability/src/scope.rs:413-429 | an accepted child authorises no request its parent does not |
| Scopes.ScopeSubsetTransitive | crates/omni-capability/src/scope.rs:413-429 | the scope test is transitive |
| Scopes.LowerIsLatest | crates/omni-capability/src/attenuation.rs:59-65 | the folded lower bound is the maximum of the window start and all NotBefore times |
| Scopes.UpperIsEarliest | crates/omni-capability/src/attenuation.rs:52-58 | the folded upper bound is the minimum of the window end and all ExpiresAt times |
| Scopes.EffectiveSame | crates/omni-capability/src/scope.rs:368-404 | folding a scope's own time caveats into its window changes nothing it authorises |
| Scopes.NeverWiderExactly | crates/omni-capability/src/scope.rs:407-429 | for every pair of scopes, the child is never wider if and only if it authorises nothing or has the same action, a subset resource, an effective window inside the parent's, and every caveat of the parent listed or enforced by that window |
| Scopes.ScopeSubsetDecides | crates/omni-capability/src/scope.rs:407-429 | for every pair of scopes, exactly when the test agrees with not being wider: a usable child is misjudged if and only if it is within every limit of the parent and leaves a caveat unlisted or its written window too wide; the unlisted ones are time caveats, and a normal child's window is never too wide |
| Scopes.ListedIsDecided | crates/omni-capability/src/scope.rs:413-429 | a usable normal child that lists the parent's time caveats is judged exactly |
| Scopes.ScopeSubsetIncomplete | crates/omni-capability/src/scope.rs:425-428 | a child that is never wider and still rejected |
| Scopes.ScopeSubsetOverhang | crates/omni-capability/src/scope.rs:422-424 | a child whose own time caveat keeps it inside the parent's window, still rejected |
| Attenuation.ApplyCaveats | crates/omni-capability/src/attenuation.rs:109-115 | the loop computes the fold, and the result of a non-empty list passes the scope test against the parent |
| Attenuation.StepOutcome | crates/omni-capability/src/attenuation.rs:49-101 | one caveat succeeds exactly on a well-formed resource with a window that does not invert, and yields the meet; an inverted window is reported first, a malformed resource otherwise |
| Attenuation.MeetCompose | crates/omni-capability/src/attenuation.rs:109-115 | meets compose: a meet of a meet is the meet by both lists |
| Attenuation.FoldOutcome | crates/omni-capability/src/attenuation.rs:49-115 | a non-empty list succeeds exactly when the resource is well formed and the latest start is at most the earliest end; the result is the meet, with new caveats appended once each, and is below the parent |
| Attenuation.AttenuationExact | crates/omni-capability/src/attenuation.rs:1-25 | the child authorises a request if and only if the parent does and every applied caveat holds |
| Attenuation.OrderIndependent | crates/omni-capability/src/attenuation.rs:109-115 | any two lists with the same caveats succeed alike with the same window, caveat set and caveat count |
| Attenuation.Idempotent | crates/omni-capability/src/attenuation.rs:109-115 | applying the same list again returns the same scope |
| Attenuation.FoldAppend | crates/omni-capability/src/attenuation.rs:103-115 | two attenuations in a row are one by both lists |
| Attenuation.FoldKeepsNormal | crates/omni-capability/src/attenuation.rs:49-115 | attenuation leaves every time caveat folded into the window, so the written window is the effective one |
| Attenuation.RestrictExact | crates/omni-capability/src/attenuation.rs:124-134 | restriction replaces the resource or reports that it is no subset; the result is intersection with the new resource, and a refusal of a resource naming something has a witness target |
| Tokens.VerifyAgainstList | crates/omni-capability/src/token.rs:190-238 | the verdict with the Bloom-backed list equals the verdict with the plain revoked set |
| Tokens.SignatureExactly | crates/omni-capability/src/token.rs:169-180 | the signature check accepts if and only if the payload encodes and the issuer's key accepts the signature over the encoding, and which error otherwise |
| Tokens.VerdictExactly | crates/omni-capability/src/token.rs:190-238 | each verdict of full verification if and only if that condition is the first to fail among encoding, signature, revocation, window start, window end and node binding; accepted if and only if none does |
| Tokens.LinkExactly | crates/omni-capability/src/attenuation.rs:197-211 | a link holds if and only if the child names the parent's id and its scope is a subset; the id is checked first |
| Tokens.AttenuateOutcome | crates/omni-capability/src/attenuation.rs:161-182 | attenuation succeeds if and only if the resource is well formed, the bounds meet and the child payload encodes; the child has the fresh id, the parent's subject and id, the key's public key and a signature by the key, and is a valid link |
| Tokens.ChainSubset | crates/omni-capability/src/attenuation.rs:197-211 | in a chain of any length with valid links, every later scope is below every earlier one |
| Tokens.ChainLineage | crates/omni-capability/src/attenuation.rs:197-211 | every token of a checked chain names the one before it |
| Tokens.HopMakesLink | crates/omni-capability/src/attenuation.rs:161-182 | each successful attenuation yields a valid chain link |
| Tokens.ChainNeverWidens | crates/omni-capability/src/attenuation.rs:197-211 | whatever a later token authorises every ancestor authorises |
| Tokens.LeafTimeInEveryWindow | crates/omni-capability/src/token.rs:209-221 | a leaf accepted at a time puts that time in every ancestor's window |
| Tokens.DelegationChecks | crates/omni-capability/src/attenuation.rs:161-211 | every chain built by attenuation passes every link check and, if signatures check under their own key, every derived token's signature checks |
| Tokens.DelegationIsOneFold | crates/omni-capability/src/attenuation.rs:161-182 | the leaf scope is one fold of all caveats of all hops over the root scope |
| Tokens.DelegationExact | crates/omni-capability/src/attenuation.rs:1-25 | the leaf authorises a request if and only if the root does and all caveats of all hops hold; the subject is the root's |
| Revocation.Probe | crates/omni-capability/src/revocation.rs:102-107 | each wrapped index is inside the bit array |
| Revocation.ProbesExactly | crates/omni-capability/src/revocation.rs:95-109 | the probes are h0 + i * h1 for i from 0 to 6, modulo 2^64 and then the number of bits |
| Revocation.SetBitMarks | crates/omni-capability/src/revocation.rs:120-122 | setting a bit adds that index to the marked ones and clears none |
| Revocation.MicroBloom.constructor | crates/omni-capability/src/revocation.rs:67-82 | no bit set, at least ten bits per expected element and at least eighty |
| Revocation.MicroBloom.Indices | crates/omni-capability/src/revocation.rs:95-109 | the first seven slots are exactly the seven probes |
| Revocation.MicroBloom.Insert | crates/omni-capability/src/revocation.rs:112-125 | marks exactly the old bits and the item's probes |
| Revocation.MicroBloom.MightContain | crates/omni-capability/src/revocation.rs:129-142 | true exactly when all probes are marked |
| Revocation.RevocationList.constructor | crates/omni-capability/src/revocation.rs:179-184 | an empty list with an empty filter of the given hashes and capacity |
| Revocation.RevocationList.Revoke | crates/omni-capability/src/revocation.rs:189-192 | adds one id to the set, clears no bit, keeps every revoked id fully marked |
| Revocation.RevocationList.Contains | crates/omni-capability/src/revocation.rs:199-205 | true exactly for members of the revoked set |
| Revocation.TwoTiersAgree | crates/omni-capability/src/revocation.rs:15-17 | after any revocations, for any hashes and size, the two-tier answer is membership |
| Containers.MovedExactly | crates/omni-container/src/lifecycle.rs:76-114 | a transition sets that lifecycle and nothing else exactly along the twelve listed edges, and otherwise reports the missing container or the two states |
| Containers.ClaimedExactly | crates/omni-container/src/engine.rs:691-700 | a claim succeeds exactly on a container neither Terminating nor Terminated, takes its VM and keeps its console |
| Containers.HandleExactly | crates/omni-container/src/engine.rs:437-449 | the handle is the container's own, with the two errors told apart |
| Containers.Com1Front | crates/omni-container/src/engine.rs:458-491 | read front to back, console output is the data written to port 0x3F8 and nothing else |
| Containers.GuestLoop | crates/omni-container/src/engine.rs:458-491 | a finished loop returns the COM1 bytes of the exits before the first halt or shutdown; errors and other ports add nothing |
| Containers.KvmEngine.constructor | crates/omni-container/src/engine.rs:342-348 | no containers, and the first id is one |
| Containers.KvmEngine.AllocId | crates/omni-container/src/engine.rs:419-421 | returns the counter and advances it, wrapping at 2^64 |
| Containers.KvmEngine.Insert | crates/omni-container/src/engine.rs:566-578 | adds the container in Provisioning with its VM and an empty console, changing nothing else |
| Containers.KvmEngine.Transition | crates/omni-container/src/engine.rs:596-604 | moves the lifecycle along a table edge or changes nothing and reports why |
| Containers.KvmEngine.ClaimVm | crates/omni-container/src/engine.rs:691-700 | moves to Terminating and takes the handle, or changes nothing |
| Containers.KvmEngine.CloneHandle | crates/omni-container/src/engine.rs:437-449 | the stored handle, or not found, or no handle |
| Containers.KvmEngine.WriteBack | crates/omni-container/src/engine.rs:494-500 | the byte loop appends the whole output to that console and nothing else |
| Engine.CounterAlways | crates/omni-container/src/engine.rs:418-421 | in every run of any length the counter and each id handed out follow from how many were taken, wrap included |
| Engine.IdsDistinctExactly | crates/omni-container/src/engine.rs:418-421 | over every run, the ids handed out are pairwise distinct and non-zero exactly while at most 2^64 - 1 are taken |
| Engine.AnyNumberOfIds | crates/omni-container/src/engine.rs:532-582 | a run with any given number of provisions exists |
| Engine.IdsStep | crates/omni-container/src/engine.rs:565-578 | every event keeps ids in flight distinct from each other and from those in use |
| Engine.TrackNext | crates/omni-container/src/engine.rs:532-582 | no event puts a VM in a second place, and only replacing a container that has a VM takes one out of its place |
| Engine.HandleStep | crates/omni-container/src/engine.rs:691-722 | every event keeps: a container has a VM handle exactly while it is neither Terminating nor Terminated |
| Engine.HandleAlways | crates/omni-container/src/engine.rs:238-264 | in every run a container has a VM handle exactly while it is neither Terminating nor Terminated |
| Engine.TermStep | crates/omni-container/src/engine.rs:689-722 | every event keeps: Terminating exactly while one thread is terminating the container |
| Engine.ConsoleStep | crates/omni-container/src/engine.rs:457-500 | every event keeps consoles equal to the output of completed runs |
| Engine.InvAlways | crates/omni-container/src/engine.rs:515-726 | the joint invariant holds in every state of every interleaving of any number of threads, up to 2^64 provisions |
| Engine.EveryVmInOnePlace | crates/omni-container/src/engine.rs:532-582 | in every run no VM is in two of: container, in-flight provision, in-flight terminate, one destroy call, abandoned; every VM created is in one of them if and only if no insert replaced a container with a VM, and none does within 2^64 provisions |
| Engine.LostForever | crates/omni-container/src/engine.rs:565-578 | a VM in no place stays so in every continuation |
| Engine.ReplacementHappens | crates/omni-container/src/engine.rs:565-578 | a run of 2^64 + 1 provisions that replaces a container with a VM |
| Engine.NoVmDestroyedTwice | crates/omni-container/src/engine.rs:702-711 | in every run no two destroy calls name the same VM, and none names a VM still held or abandoned |
| Engine.InsertIsFresh | crates/omni-container/src/engine.rs:565-578 | an insert never replaces a container within 2^64 provisions, and ids are not zero within 2^64 - 1 |
| Engine.ContainerFacts | crates/omni-container/src/engine.rs:238-264 | the console is the unmixed COM1 output of completed runs in completion order; a container is Terminating exactly while a thread terminates it |
| Engine.LifecycleFollowsTable | crates/omni-container/src/lifecycle.rs:76-114 | containers appear in Provisioning and every lifecycle change is one of the twelve listed edges, caused by the matching operation |
| Engine.ControlExactly | crates/omni-container/src/engine.rs:594-700 | in every run, `run` and `resume` enter exactly a Provisioning, Suspended or Snapshotted container and `terminate` claims exactly one that has its VM; the whole new state, and no change otherwise |
| Engine.PauseExactly | crates/omni-container/src/engine.rs:618-676 | `suspend` acts exactly on Running and `snapshot` on Suspended; the whole new state, and no change otherwise |
| Engine.HandleTaken | crates/omni-container/src/engine.rs:437-449 | a guest run gets the VM its container has at that moment, or ends |
| Engine.VcpuExactly | crates/omni-container/src/engine.rs:451-455 | a vCPU starts the loop, or its failure ends the call |
| Engine.GuestRunExactly | crates/omni-container/src/engine.rs:458-491 | for any exits, the loop collects what was written to the console, a halt or shutdown keeps it for the write-back, and an error ends the call with no container changed |
| Engine.FailedRunKeepsStore | crates/omni-container/src/engine.rs:458-491 | a failing guest run ends its call and changes no container |
| Engine.EndedByTerminate | crates/omni-container/src/engine.rs:689-700 | in every run, a container that is Terminating or Terminated was claimed by a terminate call |
| Engine.InternalErrorStaysRunning | crates/omni-container/src/hypervisor.rs:132-135 | a run in which an internal error leaves the container Running with no thread at it |
| Engine.TerminateCompletes | crates/omni-container/src/engine.rs:678-726 | a terminate past its first section hands its VM to destroy and reaches Terminated whatever others do in between |
| Engine.OthersKeepPcRun | crates/omni-container/src/engine.rs:689-726 | no event of other threads moves a thread |
| Engine.TerminatedForever | crates/omni-container/src/lifecycle.rs:48-59 | a Terminated container stays so in every continuation |
| Sessions.EmergencyRecoveryManager.constructor | crates/omni-agent/src/mode.rs:194-202 | no session, counters at zero, empty history |
| Sessions.EmergencyRecoveryManager.Activate | crates/omni-agent/src/mode.rs:225-253 | opens a session with the next id or refuses without change, in the program's order of refusals |
| Sessions.EmergencyRecoveryManager.RecordAction | crates/omni-agent/src/mode.rs:294-314 | appends the action with the next action id, or returns zero without change |
| Sessions.EmergencyRecoveryManager.FinalizeSession | crates/omni-agent/src/mode.rs:427-444 | archives the open session and its summary |
| Sessions.EmergencyRecoveryManager.CheckExpiry | crates/omni-agent/src/mode.rs:332-342 | archives the session exactly when it is active and past its end |
| Sessions.EmergencyRecoveryManager.Deactivate | crates/omni-agent/src/mode.rs:361-364 | archives the open session, if any |
| Sessions.StepKeeps | crates/omni-agent/src/mode.rs:225-444 | every call keeps the book consistent with the sessions closed so far |
| Sessions.ActivateAnswers | crates/omni-agent/src/mode.rs:225-253 | over every run, granted exactly with no session open and one minute to one hour asked, with the next session number as id; which refusal otherwise, and no change |
| Sessions.RecordAnswers | crates/omni-agent/src/mode.rs:294-314 | over every run, the id returned is how many actions were ever recorded, or zero with no session open |
| Sessions.FinalizeAnswers | crates/omni-agent/src/mode.rs:427-444 | the summary returned is the entry added to the history, with whole seconds since the start |
| Sessions.CheckAnswers | crates/omni-agent/src/mode.rs:332-342 | over every run, true exactly when an open session's start plus duration has come, which then is archived |
| Sessions.BooksBalance | crates/omni-agent/src/mode.rs:225-444 | after any calls at any times, summaries match the closed sessions and all actions ever recorded are numbered 1, 2, 3 without gap |
| Sessions.CountersAgree | crates/omni-agent/src/mode.rs:176-189 | history ids are 1 to n, the session counter is n plus one if open, the action counter is archived plus open actions |
| Sessions.ActionIdsGrow | crates/omni-agent/src/mode.rs:302-303 | action ids grow strictly within a session and across sessions |
| Sessions.OpenSessionTellsCalls | crates/omni-agent/src/mode.rs:294-314 | the open session holds exactly the recorded calls in order, word for word |
| Sessions.ReportTellsLast | crates/omni-agent/src/mode.rs:384-404 | a report exists exactly when no session is open and one has ended; it lists the last session's actions and its duration is the capped age at asking |
| Sessions.ReportDurationExact | crates/omni-agent/src/mode.rs:390-398 | asked for after the end, the report's duration is the session's length exactly when the session ended in its last planned second, or earlier and the report is asked for within the same second |
| Sessions.ReportOverstates | crates/omni-agent/src/mode.rs:390-398 | a session ended after one minute is reported as ten minutes long when asked for nine minutes later |
| Modes.ModeManager.constructor | crates/omni-agent/src/mode.rs:505-515 | Standard mode, no activation, the reset stamped at creation |
| Modes.ModeManager.GetCurrentMode | crates/omni-agent/src/mode.rs:522-537 | expires recovery by the manager's or the machine's own reading, else reports the mode |
| Modes.ModeManager.EnterHighRisk | crates/omni-agent/src/mode.rs:545-555 | enters High-Risk with its kind unless in recovery |
| Modes.ModeManager.LeaveHighRisk | crates/omni-agent/src/mode.rs:565-572 | leaves High-Risk to Standard, refused elsewhere |
| Modes.ModeManager.ResetCounterIfNeeded | crates/omni-agent/src/mode.rs:677-683 | clears the counter and stamps the reset exactly after a day |
| Modes.ModeManager.EnterEmergencyRecovery | crates/omni-agent/src/mode.rs:599-628 | checks mode, rate and session in order, then opens, counts and stamps |
| Modes.ModeManager.SetEmergencyDuration | crates/omni-agent/src/mode.rs:652-654 | stores the duration moved into one to sixty minutes |
| Modes.PollAnswers | crates/omni-agent/src/mode.rs:522-537 | a poll answers the mode it leaves behind; outside recovery it changes nothing, in recovery it answers High-Risk exactly when the session or the expiry is over |
| Modes.HighRiskAnswers | crates/omni-agent/src/mode.rs:545-572 | answers and new states of entering and leaving High-Risk; leaving does not depend on what activated it |
| Modes.EmergencyAnswers | crates/omni-agent/src/mode.rs:599-628 | each answer of an activation exactly by mode, count less than a day after the reset, and open session; the whole new state but the session's contents |
| Modes.DefaultDuration | crates/omni-agent/src/mode.rs:652-654 | in every run the default duration is fifteen minutes until set, and then what was asked moved into one to sixty minutes |
| Modes.DefaultIsFido2 | crates/omni-agent/src/mode.rs:640-645 | the default activation is the one by password and FIDO2 for the stored duration |
| Modes.ModeEdges | crates/omni-agent/src/mode.rs:522-628 | recovery is entered only from and left only to High-Risk; the kind is set exactly outside Standard and changes only by the two High-Risk calls |
| Modes.KindAlways | crates/omni-agent/src/mode.rs:552-571 | in every run the activation kind is set exactly outside Standard |
| Modes.RateAlways | crates/omni-agent/src/mode.rs:599-683 | the rate bookkeeping invariant over every timed run |
| Modes.ThreePerWindow | crates/omni-agent/src/mode.rs:493-494 | at most three activations between resets, and resets at least a day apart |
| Modes.SevenSpanADay | crates/omni-agent/src/mode.rs:610-612 | any seven successive activations span at least 24 hours |
| Modes.SixWithinMinutes | crates/omni-agent/src/mode.rs:677-683 | a timed run with six activations within five minutes |
| Modes.GrantedExactly | crates/omni-agent/src/mode.rs:599-628 | in every timed run an emergency call is granted if and only if the mode is High-Risk, no session is open, and fewer than three were granted, a reset is due, or the third activation before it fell in an earlier window |
| Modes.DayLimitExactly | crates/omni-agent/src/mode.rs:610-612 | over every timed run, each fourth activation comes at least a day after the first of the three before it if and only if no emergency call comes in High-Risk without open session, within a day of the third activation before it, and with a reset due or that activation in an earlier window |
| Modes.CouplingExact | crates/omni-agent/src/mode.rs:482-491 | from a coupled state any call keeps recovery mode and open session together exactly when it is harmless |
| Modes.CoupledAlways | crates/omni-agent/src/mode.rs:522-628 | over every timed run, mode and session agree before and after each call if and only if every call is harmless where it is made |
| Modes.SingleReadingHarmless | crates/omni-agent/src/mode.rs:523-535 | in a coupled state, a poll with equal readings and calls that open or close no session directly are harmless |
| Modes.ExpiriesMatch | crates/omni-agent/src/mode.rs:620-626 | over harmless runs with one stamp per activation, the two expiries agree throughout |
| Modes.RecoveryIsSession | crates/omni-agent/src/mode.rs:482-491 | for every timed run whose polls have equal readings and whose direct calls only record actions: recovery exactly while a session is open, after every call, and with one stamp per activation the two expiries are equal |
| Modes.NoSessionError | crates/omni-agent/src/mode.rs:604-622 | the session error arises exactly in High-Risk under the rate limit with a session open; in a coupled state success depends on mode and rate alone |
| Modes.GrantOpensSession | crates/omni-agent/src/mode.rs:614-626 | a granted session starts at its reading and lasts what was asked, moved to the nearer bound |
| Modes.StraddleReachable | crates/omni-agent/src/mode.rs:524-534 | a run with readings in order reaches High-Risk with a session open |
| Modes.LockedOutForever | crates/omni-agent/src/mode.rs:230-232 | from there no mode-manager call ever grants recovery or closes the session |
| Modes.ExpiryAlways | crates/omni-agent/src/mode.rs:620-626 | in every run a recovery mode has an expiry at most an hour after the last grant's stamp |
| Modes.NeverLongerThanAnHour | crates/omni-agent/src/mode.rs:522-537 | in every run, also with direct session calls, recovery is never reported sixty minutes after its activation |
| Privacy.PrivacyBudgetAccountant.constructor | crates/omni-agent/src/privacy.rs:310-316 | nothing used, no agents, empty ledger |
| Privacy.PrivacyBudgetAccountant.Create | crates/omni-agent/src/privacy.rs:303-317 | an empty accountant, or InvalidEpsilon for negative or non-finite parameters |
| Privacy.PrivacyBudgetAccountant.TotalAllocated | crates/omni-agent/src/privacy.rs:355-359 | the iterator sum over the map, in any order |
| Privacy.PrivacyBudgetAccountant.AllocateAgent | crates/omni-agent/src/privacy.rs:342-398 | the in-place allocation does what the value-level one does |
| Privacy.PrivacyBudgetAccountant.Spend | crates/omni-agent/src/privacy.rs:436-522 | the in-place charge does what the value-level one does |
| Privacy.AllocateExact | crates/omni-agent/src/privacy.rs:342-398 | accepted exactly when all allocations then fit the maximum and one tolerance; consumption is carried over, nothing else changes |
| Privacy.ConsumeExact | crates/omni-agent/src/privacy.rs:436-485 | accepted exactly when free or within both budgets and one tolerance |
| Privacy.Tariff | crates/omni-agent/src/privacy.rs:670-678 | the price of each sensitivity, and the tolerance 2^-52 |
| Privacy.ChargeAnswers | crates/omni-agent/src/privacy.rs:436-522 | a charge answers what the agent has left, or the first limit it would pass with the amounts as they stand |
| Privacy.AllocateAnswers | crates/omni-agent/src/privacy.rs:342-398 | an allocation is refused for a negative or non-finite amount, else exactly for more than the other agents leave, and reports that amount |
| Privacy.CreateAnswers | crates/omni-agent/src/privacy.rs:303-317 | a new accountant exactly for finite, non-negative parameters |
| Privacy.AllocateBalances | crates/omni-agent/src/privacy.rs:342-398 | allocation keeps the books balanced |
| Privacy.ConsumeBalances | crates/omni-agent/src/privacy.rs:436-522 | a charge keeps the books balanced |
| Privacy.BooksBalance | crates/omni-agent/src/privacy.rs:342-522 | in every run used epsilon equals the ledger sum and the sum of per-agent consumption, and used and allocated totals never exceed the maximum plus one tolerance |
| Privacy.OverspentExactly | crates/omni-agent/src/privacy.rs:342-485 | over every run an agent's consumption exceeds its allocation and one tolerance if and only if its last accepted allocation was below its charges by then, less one tolerance |
| Privacy.LedgerOnlyGrows | crates/omni-agent/src/privacy.rs:17-19 | every earlier ledger is a prefix of every later one |
| Privacy.StepGrows | crates/omni-agent/src/privacy.rs:403-405 | denied calls change nothing |
| Privacy.PreFlightAgrees | crates/omni-agent/src/security.rs:758-809 | from every state the check gives the verdict and kind of denial of the charge, and the same denial unless the remainder is negative |
| Privacy.CheckedChargeMovesCost | crates/omni-agent/src/security.rs:717-727 | for data that is not public, a passed check followed by the charge moves exactly the cost on both books, within both budgets, and touches no other agent |
| Failover.SecurityWatch.constructor | crates/omni-agent/src/security.rs:580-595 | never seen alive, no misses, not degraded |
| Failover.SecurityWatch.ProcessHeartbeat | crates/omni-agent/src/security.rs:865-872 | records the beat, clears misses, and leaves the degraded role |
| Failover.SecurityWatch.CheckOrchestratorHealth | crates/omni-agent/src/security.rs:877-912 | counts the miss, attempts restarts, takes the role and alerts |
| Failover.StateFromHistory | crates/omni-agent/src/security.rs:52-67 | over every run misses, restart attempts and the role are functions of the dead polls since the last heartbeat |
| Failover.AlertSchedule | crates/omni-agent/src/security.rs:877-912 | two silent dead polls, Warnings 1 to 3, then Critical until a heartbeat |
| CivilDate.AlwaysValid | crates/omni-kernel/build.rs:97-107 | the closed form yields a Gregorian date for every integer day |
| CivilDate.YearOfEraBounds | crates/omni-kernel/build.rs:100-103 | the quotient formula finds the year whose span holds the day |
| CivilDate.SuccessorDay | crates/omni-kernel/build.rs:97-107 | the date of day n+1 is the calendar successor of the date of day n, for every integer n |
| CivilDate.ClosedFormIsCalendar | crates/omni-kernel/build.rs:97-107 | the closed form equals stepping a leap-year calendar day by day from 1970-01-01 |
| CivilDate.LaterDayLaterDate | crates/omni-kernel/build.rs:97-107 | a day is before another exactly when its date is before the other's by year, month and day; equal dates exactly for equal days |
| CivilDate.ClockRecoversMinute | crates/omni-kernel/build.rs:92-95 | day, hour and minute give back the timestamp's minute |
| CivilDate.StampReads | crates/omni-kernel/build.rs:90-110 | reading the printed stamp back gives the date of the stepped calendar and the hour and minute, in the documented layout, for every timestamp |
| CivilDate.StampIdentifiesMinute | crates/omni-kernel/build.rs:90-110 | two timestamps print alike exactly when they are in the same minute |
| Ssh.EncodePacket | crates/omni-cmd-ssh/src/lib.rs:174-211 | builds the frame, whose length without the length field is a multiple of the block size |
| Ssh.PaddingAligns | crates/omni-cmd-ssh/src/lib.rs:182-191 | padding lies in 4 to block + 3 and aligns the packet |
| Ssh.FrameNeverAligned | crates/omni-cmd-ssh/src/lib.rs:174-211 | every frame, length field included, is four bytes past a multiple of the block size |
| Ssh.PaddingUnique | crates/omni-cmd-ssh/src/lib.rs:182-191 | no other padding in that range does |
| Ssh.FrameIsImage | crates/omni-cmd-ssh/src/lib.rs:174-211 | a frame whose length fields do not truncate is the image of its packet |
| Ssh.FrameLayout | crates/omni-cmd-ssh/src/lib.rs:174-211 | every byte of a frame: big-endian length modulo 2^32, padding length modulo 256, payload, and zeros, four to block + 3, up to a multiple of the block size asked for but at least eight |
| Ssh.Be32RoundTrip | crates/omni-cmd-ssh/src/lib.rs:196-197 | the big-endian length field reads back |
| Ssh.DecodeCharacterised | crates/omni-cmd-ssh/src/lib.rs:236-268 | decoding yields a packet and length exactly when the data starts with that packet's image |
| Ssh.ProperPrefixUndecoded | crates/omni-cmd-ssh/src/lib.rs:219-222 | every proper prefix of an image decodes to nothing |
| Ssh.FrameRoundTrip | crates/omni-cmd-ssh/src/lib.rs:193-210 | a frame followed by anything decodes to its payload exactly when neither length field truncates |
| Ssh.BlockSizeLimit | crates/omni-cmd-ssh/src/lib.rs:206-207 | all payloads survive up to block size 252; above it one does not |
| Ssh.StreamRoundTrip | crates/omni-cmd-ssh/src/lib.rs:213-217 | a stream of images and an incomplete tail decodes to exactly those packets and that tail |
| Ssh.StreamReframes | crates/omni-cmd-ssh/src/lib.rs:236-268 | whatever is decoded from any bytes re-frames to the bytes consumed |
| Ssh.FramesRoundTrip | crates/omni-cmd-ssh/src/lib.rs:174-268 | the concatenation of frames of any payloads decodes to them in order, for block sizes up to 252 and lengths that fit 32 bits |
| Http.FindDoubleCrlf | crates/omni-cmd-curl/src/lib.rs:338-352 | the first CRLF CRLF, or none exactly when there is none |
| Http.SplitJoin | crates/omni-cmd-curl/src/lib.rs:302-304 | splitting joined CRLF-free lines gives them back |
| Http.SplitPieces | crates/omni-cmd-curl/src/lib.rs:302-304 | split pieces hold no CRLF |
| Http.JoinSplit | crates/omni-cmd-curl/src/lib.rs:302-304 | joining the pieces gives the text back, so splitting loses nothing |
| Http.CollectHeaders | crates/omni-cmd-curl/src/lib.rs:314-325 | the header loop, skipping lines without colon and stopping at an empty one |
| Http.TrimExactly | crates/omni-cmd-curl/src/lib.rs:319-323 | every text is its trimmed form between blanks |
| Http.TrimUnique | crates/omni-cmd-curl/src/lib.rs:319-323 | a trimmed text between any blanks trims to itself |
| Http.FieldExactly | crates/omni-cmd-curl/src/lib.rs:314-325 | a line with a colon contributes exactly the trimmed name and value around the first one, whatever blanks surround them |
| Http.NoFieldExactly | crates/omni-cmd-curl/src/lib.rs:314-325 | a line without a colon contributes nothing, and an empty one ends the headers |
| Http.ParseResponse | crates/omni-cmd-curl/src/lib.rs:295-333 | parses as specified, and only ever returns representable responses |
| Http.BoundaryIsFirst | crates/omni-cmd-curl/src/lib.rs:296-299 | in a message of CRLF-free lines the first CRLF CRLF ends the header section, whatever the body |
| Http.SectionsExact | crates/omni-cmd-curl/src/lib.rs:295-304 | of a message whose lines are not blank, lines and body are recovered exactly when no line contains CRLF |
| Http.TruncatedHeader | crates/omni-cmd-curl/src/lib.rs:278-281 | a message cut before its body is incomplete |
| Http.ParsedIsRepresentable | crates/omni-cmd-curl/src/lib.rs:306-325 | parsed fields hold no CRLF, header fields are trimmed, names have no colon |
| Http.StatusRoundTrip | crates/omni-cmd-curl/src/lib.rs:306-312 | a printed status line parses to its code and reason |
| Http.StatusAcceptedExactly | crates/omni-cmd-curl/src/lib.rs:306-312 | a status line yields a code and reason if and only if it is a first word, a second word that is a decimal number below 2^16 with optional plus sign, and the rest |
| Decimal.ParseU16Exactly | crates/omni-cmd-curl/src/lib.rs:312 | a number is accepted exactly as printed, below 2^16, with any zeros and one plus sign before it |
| Http.StatusOddity | crates/omni-cmd-curl/src/lib.rs:278-281 | an accepted line with neither the version nor three digits |
| Http.HeadersRoundTrip | crates/omni-cmd-curl/src/lib.rs:314-325 | printed clean headers parse back in order |
| Http.ResponseRoundTrip | crates/omni-cmd-curl/src/lib.rs:295-333 | parsing a printed response gives it back exactly when it is representable, for any body |
| Http.ReparseIsIdentity | crates/omni-cmd-curl/src/lib.rs:295-333 | printing and re-parsing any parsed response changes nothing, for all inputs |
| Http.PushHead | crates/omni-cmd-curl/src/lib.rs:232-246 | pushes the request line, Host and Connection |
| Http.PushHeaders | crates/omni-cmd-curl/src/lib.rs:248-251 | the header loop appends the caller's fields in order |
| Http.BuildRequest | crates/omni-cmd-curl/src/lib.rs:232-266 | builds the message of the request's lines and body |
| Http.RequestLineReads | crates/omni-cmd-curl/src/lib.rs:232-244 | the request line's first word is the method's name, followed by the path or a slash and the version |
| Http.RequestExact | crates/omni-cmd-curl/src/lib.rs:199-210 | a receiver recovers the intended lines and body exactly when no field contains CRLF |
| Http.RequestFieldsParse | crates/omni-cmd-curl/src/lib.rs:243-256 | of a request without CRLF in its fields, the header parser reads back Host, Connection, the caller's fields and the body length if and only if the Host value and those fields are trimmed and no name contains a colon; the length is the body's |
| Http.UrlRoundTrip | crates/omni-cmd-curl/src/lib.rs:382-407 | the URL of a Host value and path parses back exactly when the host has no colon or slash, is not empty on port 80, and the path is empty or starts with a slash |
| Http.UrlExactly | crates/omni-cmd-curl/src/lib.rs:382-407 | for every authority and path: which host, port and path come out, with 80 for a missing or malformed port and a slash for no path |
| Http.OtherScheme | crates/omni-cmd-curl/src/lib.rs:382-383 | a URL of another scheme is refused |

## Left out

- Ed25519, BLAKE3, postcard encoding, id generation and the TEE probe: parameters of the model.
- Privacy: rounding of double-precision sums is abstracted, because the arithmetic is over exact reals.
- Failover: the 32-bit miss and restart counters are unbounded, because reaching 2^32 takes centuries of polls.
- Sessions: 64-bit session and action counters are unbounded for the same reason, and one reading serves both elapsed-time fields of a summary.
- Revocation.MicroBloom.constructor: capacities whose bit count overflows the address space are not modelled, because the allocation fails first.
- Engine: use of a vCPU after its VM was destroyed is the hypervisor's to report and appears as a failing run; guest memory and attestation are not modelled.
- Http: argument parsing and the network transfer are not modelled.
- Ssh: argument parsing and the encrypted phase are not modelled.
- Text formatting of console output, audit strings, risk keyword classifiers, sandbox and policy tables, task and context bookkeeping: they would only add easy members.
