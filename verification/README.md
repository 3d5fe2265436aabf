# cube-container: verified model

A Dafny model of the stateful algorithms and codecs of cube-container, with
proofs of what they promise.

| files | subject |
|---|---|
| `HaNode`, `HaCluster`, `HaActiveId` | active-passive failover: one manager, and any number of them over a network that loses, delays, duplicates and reorders heartbeats |
| `Secrets`, `SecretsManager`, `SecretsExample` | the encrypted secret store, its cached cipher and two-pass key rotation |
| `Backend`, `Rollout`, `Scaling` | containers and replica lists; rolling and blue-green rollouts; replica scaling |
| `RateLimiter` | the sliding-window request limiter |
| `AuditChain`, `AuditTwins`, `AuditDisk`, `AuditExample` | the hash-chained audit log and its verifier |
| `Totp`, `TotpConcurrent`, `TotpExample` | one-time codes (RFC 4226 sections 5.3 and 5.4, RFC 6238 section 5.2), also with interleaved calls |
| `RollFile` | size-based log rotation with asynchronous deletion |
| `Paths`, `Archive`, `ArchiveRoundTrip`, `Retention` | volume archives, restore, and backup retention |
| `Scheduler`, `Sorting` | placement scoring and the shortlist |
| `ShellQuote`, `XmlEscape`, `DockerStream`, `Text`, `Endian`, `Common` | codecs, and what they share |

Objects that the program updates in place are classes; each method is tied to a
function on values or to a predicate over states, and the properties of whole runs
are lemmas about those. The clock, randomness, cryptography, the network, the disk
and the container backend are parameters or nondeterministic choices.

## Where the code and its promise differ

- Failover: the header comment (`mcp-server-go/ha.go:11-12`) says that the node with the lower
  ID stands down. The code compares priorities first and IDs only on a tie; the model follows the code.
  `LowerIdStandsDownIff` says exactly when the comment is right and `GreaterIdCanStandDown` gives an input for which it is not.
  `activeID`, documented as the ID of the currently active node (`mcp-server-go/ha.go:110`), is overwritten by any
  active heartbeat, even at a receiver that wins. `ActiveNamesAnotherIff` says exactly when an active node names another,
  `ActiveNamesItselfOrLoser` whom, and `WinnerCanNameLoser` is an instance.
- Key rotation: when randomness runs out in the second pass, the key has already been
  swapped, and the secrets not yet reached can no longer be read from memory. `RotationKeepsSecretsIff`
  gives the exact condition and `RotationCanLoseASecret` an instance. The file is not touched then.
- Secret file: a comment (`mcp-server-go/secrets.go:351`) promises a temporary file and a rename. The code
  rewrites the file in place (`mcp-server-go/secrets.go:405-408`), so a write that fails half way destroys the stored secrets:
  `SaveSurvivesIff` and `RotateKey` give the exact condition, `RotationCanLoseTheFile` an instance.
- Scaling and rollout: a creation whose reply names no container leaves it running and
  unregistered; `scaleUp` counts it as created. The contracts carry such containers as `unnamed`, and
  containers that survived a kill as `undead`.
- Rollout: a cancelled rolling update returns without rewriting the service file.
- Audit log: an entry is hashed as given but written as JSON, which replaces invalid UTF-8. With whole writes
  a session verifies exactly if all its text is valid UTF-8 (`SessionVerifiesIff`). A logger starts from the empty
  hash although its file is appended to, so a file with two non-empty sessions written whole never verifies
  (`TwoSessionsVerifyIff`).
- Audit log: a `|` inside any text field lets a different entry take its place without a trace, and only that:
  `PayloadDeterminesIff` for an entry, `LogIsDeterminedIff` for a log.
- Audit log: the errors of both writes are ignored while the chain moves on (`mcp-server-go/auth.go:681-686`), so a torn
  entry, or a lost one that is followed by another, breaks the file. `SessionVerifiesDespite` gives the exact condition, `LostEntryBreaksSession` an instance.
- Restore: the 10 GiB limit refuses a file of exactly that size (`FileAtTheLimit`). When the path of the
  archived directory is not canonical, file headers are written without data, and the restore fails unless
  all files are empty (`RestoreUndoesBackup`). A destination that is the root directory receives nothing.
- Retention: `PruneBackups` with a negative count slices out of range as soon as there is a backup.
- One-time codes: `Verify` looks only at the earliest matching period; if that one is used up,
  a later period with the same code is not tried. `UnusedPeriodRefusedIff` gives the exact condition and
  `UnusedPeriodCanBeRefused` an instance.
- One-time codes: a verification under way when its key is removed can still be accepted
  (`AcceptedWithoutSecretIff`, `RemovedKeyCanBeAccepted`).

## Model

| member | source | states |
|---|---|---|
| `HaCluster.BestEverActiveIsActive` | mcp-server-go/ha.go:339-354 | In every state of every run, under any loss, delay, duplication and reordering, the best-ranked node among all that were ever active is active now |
| `HaCluster.NeverLeaderless` | mcp-server-go/ha.go:339-400 | Once some node has been active, no state of any run is without an active node |
| `HaCluster.RunKeepsInv` | mcp-server-go/ha.go:339-354 | The invariant behind both: active heartbeats in flight come from nodes that were active and carry their true priority, and the best-ranked ever-active node is active |
| `HaCluster.StepKeepsInv` | mcp-server-go/ha.go:339-354 | Every step (time, dispatch, delivery, check, promotion) keeps that invariant |
| `HaCluster.BestResists` | mcp-server-go/ha.go:344-352 | No heartbeat in flight makes the best-ranked ever-active node stand down |
| `HaCluster.StepKeepsMembers` | mcp-server-go/ha.go:249-359 | No step changes which nodes exist, their IDs or their priorities |
| `HaCluster.RoundConverges` | mcp-server-go/ha.go:344-352 | Without promotions, once every active node has heard every other, in any order and amid any traffic, exactly the best-ranked one is active |
| `HaCluster.OutrankedStandsDown` | mcp-server-go/ha.go:344-352 | A node that hears an active node outranking it is not active afterwards, without a new promotion |
| `HaCluster.ActiveOnlyShrinks` | mcp-server-go/ha.go:344-352 | Without promotions no node becomes active |
| `HaCluster.DemotionsAreBounded` | mcp-server-go/ha.go:344-352 | Over any run that has known an active node, demotions stay below initially active nodes plus promotions |
| `HaCluster.RoleChangesBalance` | mcp-server-go/ha.go:344-352 | Demotions plus the finally active equal promotions plus the initially active |
| `HaCluster.PromotionNeedsSilence` | mcp-server-go/ha.go:595-618 | Every promotion goes back to a check of its own, used for no other promotion, at which the node was standby and had accepted no heartbeat for the whole failover timeout |
| `HaCluster.CheckSuspectsIff` | mcp-server-go/ha.go:456-466 | On every run, a check makes a node suspect exactly if it is standby and neither its first timer, nor an accepted heartbeat, nor a promotion is younger than the failover timeout |
| `HaCluster.TimerIsLatestStart` | mcp-server-go/ha.go:313-315 | The timer is the latest of its first value and of the heartbeats and promotions since |
| `HaCluster.OnlyPromotionActivates` | mcp-server-go/ha.go:388-400 | A node becomes active exactly by its promotion, which settles its suspicion |
| `HaCluster.TimerCoversDeliveries` | mcp-server-go/ha.go:456-466 | The failover timer lies between every accepted heartbeat and the present |
| `HaNode.OutranksIsTotalOrder` | mcp-server-go/ha.go:344-352 | Precedence by priority, then greater ID, is a strict total order on nodes with distinct IDs |
| `HaNode.StrLessIsLexicographic` | mcp-server-go/ha.go:347-347 | IDs compare lexicographically |
| `HaNode.ExactlyOneStandsDown` | mcp-server-go/ha.go:344-352 | Of two active nodes that hear each other exactly one stands down, the outranked one |
| `HaNode.LowerIdStandsDownIff` | mcp-server-go/ha.go:344-352 | The lower ID stands down, as the header comment promises, exactly if its priority number is not the lower one |
| `HaNode.GreaterIdCanStandDown` | mcp-server-go/ha.go:344-352 | With priority 1 against 2 the greater ID stands down |
| `HaActiveId.ActiveNamesItselfOrLoser` | mcp-server-go/ha.go:339-352 | In every state of every run, an active node takes itself for the active one, or another that has been active and that it outranks |
| `HaActiveId.ActiveNamesAnotherIff` | mcp-server-go/ha.go:339-352 | An active node names another exactly if the last active heartbeat delivered to it, since its last promotion or else the start, came from another node |
| `HaActiveId.NamesLastSettled` | mcp-server-go/ha.go:339-340 | Every node, active, standby or just demoted, names the sender of the last active heartbeat it received, or itself if promoted after that |
| `HaActiveId.NamesAsAtFirst` | mcp-server-go/ha.go:339-340 | Until then it names whom it named at the start |
| `HaActiveId.StepKeepsNames` | mcp-server-go/ha.go:339-400 | Every step keeps that an active node names itself or one it outranks |
| `HaActiveId.WinnerCanNameLoser` | mcp-server-go/ha.go:340-340 | A run after which the better of two active nodes names the other |
| `HaNode.TrackPeerKeepsPeers` | mcp-server-go/ha.go:317-336 | A heartbeat drops and re-addresses no peer, changes only one known by the sender, and adds one exactly when the sender was unknown |
| `HaNode.TrackAfterStrangers` | mcp-server-go/ha.go:317-336 | The first peer known by the sender's ID or address is the one refreshed |
| `HaNode.HaManager.constructor` | mcp-server-go/ha.go:131-211 | The initial role is the configured one, else active exactly without peers; peers are the configured addresses |
| `HaNode.HaManager.NotePeer` | mcp-server-go/ha.go:317-336 | The in-place peer loop computes TrackPeer |
| `HaNode.HaManager.HandleHeartbeat` | mcp-server-go/ha.go:249-359 | Accepts exactly authentic heartbeats with a sender and takes the step that the cluster lemmas are about; otherwise nothing changes |
| `HaNode.HaManager.Promote` | mcp-server-go/ha.go:388-400 | The promotion step of the cluster |
| `HaNode.HaManager.CheckFailover` | mcp-server-go/ha.go:456-466 | Takes the check of the run model, which suspects exactly after the whole timeout of silence |
| `HaNode.HaManager.BuildHeartbeat` | mcp-server-go/ha.go:498-514 | The heartbeat carries the current role, ID and priority, and goes to every peer's address |
| `Secrets.StoreRefinesPlainMap` | mcp-server-go/secrets.go:211-353 | Over every run of sets, deletions and rotations whatever, also broken-off ones, the store has the names, versions, creation and update times of a plain map, and Get returns its value, or fails exactly for what a broken-off rotation cut off |
| `Secrets.RunRefines` | mcp-server-go/secrets.go:211-353 | Every run keeps each entry sealed under the current key or, if cut off, under another one |
| `Secrets.StepRefines` | mcp-server-go/secrets.go:211-353 | Every operation keeps the refinement |
| `Secrets.HeldIsRead` | mcp-server-go/secrets.go:245-259 | What Get returns of an entry, cut off or not |
| `Secrets.StoreAgreesWithHistory` | mcp-server-go/secrets.go:211-353 | After any run without a broken-off rotation, Get returns the last value set since the last deletion and the version counts each set and rotation once; only the round-trip law of the cipher is used |
| `Secrets.RotationKeepsSecretsIff` | mcp-server-go/secrets.go:305-353 | A rotation keeps every value exactly if it is refused, has a nonce for every secret, or re-uses the key |
| `SecretsExample.RotationCanLoseASecret` | mcp-server-go/secrets.go:305-353 | Under a concrete lawful cipher, a rotation without randomness loses a stored secret |
| `SecretsExample.RotationCanLoseTheFile` | mcp-server-go/secrets.go:349-352 | A rotation that succeeds in memory and whose write breaks off leaves neither the old nor the new store on disk |
| `SecretsExample.TaggedMeetsTheLaws` | mcp-server-go/secrets.go:420-455 | The two cipher laws assumed elsewhere can be met |
| `Secrets.DecryptEncrypt` | mcp-server-go/secrets.go:420-455 | Decrypting what was encrypted under the same key returns the plaintext |
| `Secrets.DecryptWrongKey` | mcp-server-go/secrets.go:438-455 | Decrypting under another key fails |
| `Secrets.RotatedStep` | mcp-server-go/secrets.go:334-348 | Re-encrypting one more secret is one more step of the rotation of the whole map |
| `Secrets.LoadRestoresStore` | mcp-server-go/secrets.go:359-413 | Loading what was saved, in whatever order, gives the same store |
| `Secrets.SaveSurvivesIff` | mcp-server-go/secrets.go:405-408 | The file opens as the old or the new store exactly if the write did not fail after truncating it; after such a failure it does not open at all |
| `Secrets.LoadAllEntries` | mcp-server-go/secrets.go:359-379 | A loaded store holds an entry of the file under each name in the file, and no other |
| `SecretsManager.Manager.constructor` | mcp-server-go/secrets.go:359-379 | A new manager holds what its file holds, or nothing |
| `SecretsManager.OpenStore` | mcp-server-go/secrets.go:95-112 | Opening fails exactly on a file that does not parse; a missing file is a fresh start |
| `SecretsManager.Manager.GetGcm` | mcp-server-go/secrets.go:459-475 | The cached cipher is always that of the current key |
| `SecretsManager.Manager.EncryptValue` | mcp-server-go/secrets.go:420-433 | Encrypts under the current key; fails exactly without a nonce |
| `SecretsManager.Manager.DecryptValue` | mcp-server-go/secrets.go:438-455 | Decrypts under the current key; too short or not authentic gives an error |
| `SecretsManager.Manager.Set` | mcp-server-go/secrets.go:211-242 | Performs the set of the run model; the file is kept, torn or rewritten as the write went, and touched only once the value is encrypted |
| `SecretsManager.Manager.GetValue` | mcp-server-go/secrets.go:245-259 | Returns what the run model observes |
| `SecretsManager.Manager.Delete` | mcp-server-go/secrets.go:281-292 | Performs the deletion of the run model; refuses exactly an unknown name or a write with an error; the file is kept, torn or rewritten as the write went |
| `SecretsManager.Manager.RotateKey` | mcp-server-go/secrets.go:305-353 | Performs the rotation of the run model, whatever order the map is visited in; succeeds exactly if the key has 32 bytes, all secrets decrypt, there is a nonce for each and the write succeeds; the file then opens as the old or the new store exactly if the write did not fail after truncation |
| `SecretsManager.Manager.Reseal` | mcp-server-go/secrets.go:305-348 | The two passes over the map amount to one rotation of the store, complete or partial |
| `SecretsManager.Manager.DecryptAll` | mcp-server-go/secrets.go:317-325 | The first pass succeeds exactly if every secret is readable, and then caches all plaintexts |
| `SecretsManager.Manager.ReencryptOne` | mcp-server-go/secrets.go:334-348 | Moves one secret to the new key and drops its plaintext |
| `SecretsManager.Manager.ReencryptAll` | mcp-server-go/secrets.go:334-348 | The second pass re-encrypts all secrets, or stops part way because one has no nonce |
| `SecretsManager.Manager.Save` | mcp-server-go/secrets.go:389-413 | Rewrites the file in place: kept if it cannot be opened, torn if the write fails, else it loads back as the store; clean only on success |
| `Rollout.Rollout` | mcp-server-go/deploy_rollout.go:64-243 | Refuses exactly the invalid requests, changing neither backend nor service; otherwise the record of states grows by every event, at each recorded point and at the end the running originals plus the healthy replacements are no fewer than the originals running at the start, every container is accounted for, and the counters match the history; rolling reports slot by slot what the backend answered and stops exactly when cancelled or failed; blue-green is all or nothing, and aborted exactly if some creation named nothing or some check failed |
| `Rollout.Rolling` | mcp-server-go/deploy_rollout.go:122-179 | Every original is visited once in order although the loop overwrites the slice it ranges over; a step is healthy exactly if its creation named a container and its check passed; each slot holds its original or its healthy replacement, and capacity holds at every recorded event; it ends early exactly when cancelled or stopped by a failure |
| `Rollout.BlueGreen` | mcp-server-go/deploy_rollout.go:181-234 | All or nothing: every slot gets a new container that passed, or the originals stay and the rollout is aborted, exactly if some creation named nothing or some check failed; capacity holds at every recorded event |
| `Rollout.RollsAllIff` | mcp-server-go/deploy_rollout.go:154-178 | A rolling update succeeds in every slot it visited exactly if every creation named a container and every check passed |
| `Rollout.SucceedsIff` | mcp-server-go/deploy_rollout.go:154-178 | The same of the history |
| `Rollout.TellsMore` | mcp-server-go/deploy_rollout.go:134-178 | Each slot adds its own requests and answers to the log |
| `Backend.ContainerBackend.CreateSandbox` | mcp-server-go/deploy_rollout.go:246-299 | A fresh container, named or not, or a refusal; the state is recorded |
| `Backend.ContainerBackend.WaitForHealth` | mcp-server-go/deploy_rollout.go:302-332 | A verdict, recorded |
| `Backend.ContainerBackend.KillSandbox` | mcp-server-go/deploy_rollout.go:171-172 | Stopped, or left as it is; the state and a failure are recorded |
| `Backend.RecordsMore` | mcp-server-go/deploy_rollout.go:111-234 | The record stays complete: from one state to the next at most one container starts, stops or passes |
| `Backend.Service.Save` | mcp-server-go/scaling.go:110-119 | The service file is kept, torn or rewritten as the write went |
| `Rollout.CleanRollout` | mcp-server-go/deploy_rollout.go:111-234 | A rollout of distinct running originals in which no kill failed and no creation went unnamed leaves running exactly the registered containers and those never owned by the service |
| `Rollout.SafeIfCovered` | mcp-server-go/deploy_rollout.go:171-178 | Capacity holds as long as no more originals are stopped than healthy replacements run |
| `Rollout.CreationKeepsCover` | mcp-server-go/deploy_rollout.go:246-299 | A creation, even a stray one, costs no capacity |
| `Rollout.HealthAddsCover` | mcp-server-go/deploy_rollout.go:302-332 | A passed health check adds one unit of capacity |
| `Rollout.KillCostsCover` | mcp-server-go/deploy_rollout.go:171-172 | A kill costs at most one unit, and none if the container did not serve |
| `Rollout.CreateReplacement` | mcp-server-go/deploy_rollout.go:246-299 | A fresh container or none that can be used; the record grows and stays safe |
| `Rollout.WaitForHealth` | mcp-server-go/deploy_rollout.go:302-332 | Records the health verdict; the record grows and stays safe |
| `Rollout.Kill` | mcp-server-go/deploy_rollout.go:162-172 | Kills a serving container only with capacity to spare; a container that survives is reported |
| `Rollout.ReplaceOne` | mcp-server-go/deploy_rollout.go:139-175 | One replacement keeps capacity in all its outcomes; it asks for one container, checks it if named, kills the old one if healthy and the new one if not |
| `Rollout.RollSlot` | mcp-server-go/deploy_rollout.go:123-178 | One iteration keeps capacity and accounts, and changes only its own slot, to the healthy replacement |
| `Rollout.GreenNext` | mcp-server-go/deploy_rollout.go:186-216 | One more new container, healthy, or the attempt is over with everything accounted for |
| `Rollout.CreateAll` | mcp-server-go/deploy_rollout.go:183-216 | All new containers healthy, or stopped at the first failure with all originals running |
| `Rollout.Switch` | mcp-server-go/deploy_rollout.go:218-223 | Killing all originals keeps capacity, since the new containers serve |
| `Rollout.Unwind` | mcp-server-go/deploy_rollout.go:224-228 | The rollback leaves running what ran at the start and what was unnamed or survived |
| `Scaling.ScaleSet` | mcp-server-go/scaling.go:138-163 | Refuses exactly an unknown service or a count outside 0 to 20; done means n registered, short by one per unnamed creation, a prefix when scaling down and an extension when scaling up; stopped means a creation was refused, with the old list and one ID per named creation |
| `Scaling.ScaleRepeatedly` | mcp-server-go/scaling.go:138-249 | Over any sequence of calls the running containers are the registered ones, each once, those not owned, and exactly the newly created ones without a name and those surviving a kill |
| `Scaling.ScaleUp` | mcp-server-go/scaling.go:166-218 | Extends the list by what is missing, or stops exactly after a refused creation; the service file is kept, torn or rewritten either way |
| `Scaling.CreateReplicas` | mcp-server-go/scaling.go:170-203 | Creates exactly the number needed, or stops after a refused creation |
| `Scaling.CreateReplica` | mcp-server-go/scaling.go:181-202 | One creation adds its ID to the list, or is unnamed, or is refused |
| `Scaling.ScaleDown` | mcp-server-go/scaling.go:221-249 | Keeps exactly the prefix; what still runs of the rest survived its kill; the service file is kept, torn or rewritten |
| `Scaling.DropReplicas` | mcp-server-go/scaling.go:225-235 | The loop keeps exactly the prefix and accounts for every survivor |
| `Scaling.DropReplica` | mcp-server-go/scaling.go:226-234 | Drops the last replica, killed or not |
| `Scaling.AccountedAppend` | mcp-server-go/scaling.go:198-202 | Registering a fresh running container keeps the account |
| `Scaling.AccountedDrop` | mcp-server-go/scaling.go:226-234 | Dropping the last replica keeps the account, with a survivor moved to the unregistered |
| `RateLimiter.Limiter.Allow` | mcp-server-go/auth.go:577-606 | Refuses exactly if `limit` of all grants ever made lie in the window that ends now, despite filtering and cleanup, and keeps every list within the limit |
| `RateLimiter.WindowIsBounded` | mcp-server-go/auth.go:577-606 | Every half-open interval as long as the window holds at most `limit` grants of a key |
| `RateLimiter.AdmitsIff` | mcp-server-go/auth.go:598-601 | The reference limiter grants exactly if fewer than `limit` grants lie in the window |
| `RateLimiter.RecentIsCounted` | mcp-server-go/auth.go:590-596 | The filtered list has as many instants as lie in the window |
| `RateLimiter.Limiter.constructor` | mcp-server-go/auth.go:569-575 | A new limiter has granted nothing |
| `RateLimiter.Limiter.CleanupDue` | mcp-server-go/auth.go:611-617 | Due exactly one interval after the last cleanup; the first call starts the timer |
| `RateLimiter.Limiter.Cleanup` | mcp-server-go/auth.go:621-636 | Cleanup changes no later decision, and leaves only keys with recent grants |
| `RateLimiter.FilterRecent` | mcp-server-go/auth.go:590-596 | The filter loop keeps exactly the instants after the cutoff, in order |
| `RateLimiter.RecentOfRecent` | mcp-server-go/auth.go:590-596 | Filtering twice is filtering by the later cutoff |
| `RateLimiter.RefilterKeeps` | mcp-server-go/auth.go:590-604 | Storing the filtered list changes no later decision |
| `RateLimiter.GrantKeeps` | mcp-server-go/auth.go:603-605 | Storing a grant keeps stored lists faithful to the full history and within the limit |
| `RateLimiter.DropKeeps` | mcp-server-go/auth.go:621-636 | Dropping a key without recent grants changes no later decision |
| `RateLimiter.GrantIsLegitimate` | mcp-server-go/auth.go:598-605 | A granted request extends the history as the reference limiter would |
| `AuditChain.VerifyAuditChain` | mcp-server-go/auth.go:717-744 | Accepts exactly the readable unbroken chains from the empty hash, returns their length, and otherwise names the first line at which the log ceases to be one |
| `AuditChain.SameEndSameLog` | mcp-server-go/auth.go:672-710 | Of two unbroken logs of equal length and equal final hash, neither with a bar before the last field of an entry, each is the other; bars in the reasons are allowed on both sides |
| `AuditTwins.LogIsDeterminedIff` | mcp-server-go/auth.go:672-710 | An unbroken log is the only one of its length with its final hash exactly if no text in it contains a bar, whatever the other log contains |
| `AuditTwins.NoOtherLog` | mcp-server-go/auth.go:672-710 | One-sided tamper evidence: a log without bars agrees in every entry with every unbroken log of equal length and equal final hash |
| `AuditTwins.PayloadDeterminesIff` | mcp-server-go/auth.go:694-700 | The hashed text determines the entry exactly if no text field, the reason included, contains a bar; the duration is printed from a number |
| `AuditTwins.NoTwin` | mcp-server-go/auth.go:694-700 | No entry whatever shares its hashed text with an entry without bars |
| `AuditTwins.BarMakesTwin` | mcp-server-go/auth.go:694-700 | A bar in any text field gives a different entry with the same hashed text and the same link |
| `AuditTwins.BarsOfJoin` | mcp-server-go/auth.go:694-700 | The hashed text has ten bars and those of the fields |
| `AuditTwins.ExchangeKeepsChain` | mcp-server-go/auth.go:672-687 | Exchanging an entry for such a twin keeps the chain and its final hash |
| `AuditChain.SessionVerifiesIff` | mcp-server-go/auth.go:672-744 | With every write whole, what one session writes verifies exactly if all its text is valid UTF-8; no condition on bars |
| `AuditDisk.SessionVerifiesDespite` | mcp-server-go/auth.go:672-744 | Whatever becomes of its writes, a session verifies exactly if its entries reached the file up to some point and not at all from there on, those that did are valid UTF-8, and each but the last got its newline |
| `AuditDisk.AppendedSessionVerifiesIff` | mcp-server-go/auth.go:672-744 | A session appended to any file: the same for one block of entries that links to what the file held |
| `AuditDisk.TwoSessionsVerifyDespite` | mcp-server-go/auth.go:661-687 | Two sessions with any write outcomes: exactly when the file verifies |
| `AuditDisk.LostEntryBreaksSession` | mcp-server-go/auth.go:681-686 | One valid entry lost before one kept, and the file does not verify |
| `AuditDisk.WholeSession` | mcp-server-go/auth.go:672-687 | With every write whole, the file holds exactly the lines of the session |
| `AuditDisk.AppendVerdict` | mcp-server-go/auth.go:681-744 | What a lost, torn or whole write does to the verdict |
| `AuditDisk.SameHeadSameSession` | mcp-server-go/auth.go:672-710 | Sessions that reach the same hash are the same session |
| `AuditChain.TwoSessionsVerifyIff` | mcp-server-go/auth.go:661-670 | With every write whole, two sessions in one file verify exactly if one of them is empty and all text is valid UTF-8 |
| `AuditChain.PayloadIsInjective` | mcp-server-go/auth.go:694-700 | Of two entries without bars before the last field, the hashed text determines the entry |
| `AuditChain.BarsMakeEntriesAmbiguous` | mcp-server-go/auth.go:694-700 | With a bar in the tool, two different entries share the hashed text |
| `AuditChain.JoinIsInjective` | mcp-server-go/auth.go:694-700 | Fields joined by bars can be told apart if none but the last contains one |
| `AuditChain.PayloadSpelled` | mcp-server-go/auth.go:694-700 | What is hashed, field by field |
| `AuditChain.RereadReplaces` | mcp-server-go/auth.go:682-683 | Each stray byte, and nothing else, comes back as the replacement character |
| `AuditChain.DecimalIsInjective` | mcp-server-go/auth.go:694-700 | Status codes are told apart by their decimal text |
| `AuditChain.JoinIsCanonical` | mcp-server-go/auth.go:694-700 | Fields in decoded form join to text in decoded form: no code point arises across a bar |
| `AuditChain.PayloadIsCanonical` | mcp-server-go/auth.go:694-700 | What is hashed of strings in decoded form is in decoded form |
| `AuditExample.SpellingIsAGoodHash` | mcp-server-go/auth.go:694-710 | What is asked of the hash can be met |
| `AuditChain.UnbrokenAppend` | mcp-server-go/auth.go:672-687 | A log extended by one entry is unbroken exactly if it was and the entry links to it |
| `AuditChain.AcceptableAppend` | mcp-server-go/auth.go:726-741 | What one more line, blank, malformed or parsed, does to the verdict |
| `AuditChain.PrefixAcceptable` | mcp-server-go/auth.go:717-744 | A log with an unacceptable beginning is unacceptable |
| `AuditDisk.AuditLogger.constructor` | mcp-server-go/auth.go:661-670 | A session starts from the empty hash at the end of whatever the file holds |
| `AuditDisk.AuditLogger.Log` | mcp-server-go/auth.go:672-687 | Links, hashes and moves on whatever becomes of the two writes; the file is that of the model; without a file nothing is logged |
| `AuditChain.SealedRereadsIff` | mcp-server-go/auth.go:672-687 | A written entry still matches its hash when read back exactly if its text was valid |
| `AuditChain.RereadPayload` | mcp-server-go/auth.go:694-700 | Replacing invalid bytes keeps the hashed text exactly if there were none |
| `AuditChain.SessionIsUnbroken` | mcp-server-go/auth.go:672-687 | The entries that leave the logger form an unbroken chain |
| `AuditChain.SecondSessionBreaks` | mcp-server-go/auth.go:661-670 | A second non-empty session after an accepted one breaks the chain |
| `TotpConcurrent.AcceptedCountersIncrease` | mcp-server-go/totp.go:93-128 | With calls interleaved between reading the secret and updating the counter, and across re-enrolment, accepted counters of a key strictly increase until it is removed |
| `TotpConcurrent.AcceptedCodesAreBounded` | mcp-server-go/totp.go:93-128 | Between times t1 and t2 at most t2/30 - t1/30 + 3 codes are accepted for a key not removed, also with interleaved calls |
| `TotpConcurrent.LastOnlyGrows` | mcp-server-go/totp.go:66-128 | Without a removal the last counter of a key never goes back |
| `TotpConcurrent.CountIsCovered` | mcp-server-go/totp.go:93-128 | Each accepted code moves the last counter up within the interval's periods |
| `TotpConcurrent.AcceptedWithoutSecretIff` | mcp-server-go/totp.go:93-136 | A code is accepted for a key without a secret exactly if the key was removed, and not enrolled again, while the call was under way |
| `TotpConcurrent.SecretIsGoneIff` | mcp-server-go/totp.go:66-136 | A secret is gone exactly since a removal without a later enrolment |
| `TotpConcurrent.RemovedKeyCanBeAccepted` | mcp-server-go/totp.go:93-136 | A call begun before a removal and finished after it is accepted and re-creates the counter |
| `Totp.TotpStore.constructor` | mcp-server-go/totp.go:55-60 | A new store is empty |
| `Totp.TotpStore.Enroll` | mcp-server-go/totp.go:66-80 | Replaces the secret and keeps the last counter |
| `Totp.TotpStore.Verify` | mcp-server-go/totp.go:93-128 | Accepts exactly a code whose earliest matching period lies after the last one used, and records that period; codes are those of the MAC keyed with the secret |
| `Totp.TotpStore.Remove` | mcp-server-go/totp.go:131-136 | Forgets secret and counter of the key only |
| `Totp.FirstMatchIsEarliest` | mcp-server-go/totp.go:111-127 | The match is within one period of the present and the earliest such |
| `Totp.AcceptsIff` | mcp-server-go/totp.go:111-127 | Accepted exactly if some period in the window matches and no used one does |
| `Totp.UnusedPeriodRefusedIff` | mcp-server-go/totp.go:111-127 | A code matching an unused period is refused exactly if it matches a used one in the window |
| `Totp.UnusedPeriodCanBeRefused` | mcp-server-go/totp.go:111-127 | Under a constant MAC a code matching an unused period is refused |
| `Totp.OutOfRangeNeverMatches` | mcp-server-go/totp.go:111-127 | A number without six digits matches no period |
| `Totp.CodesAreInRange` | mcp-server-go/totp.go:150-169 | Codes have six digits |
| `Totp.GenerateUsesMac` | mcp-server-go/totp.go:150-169 | The code of a counter is made from the MAC keyed with the secret over its eight bytes, most significant first |
| `TotpExample.FirstCodes` | mcp-server-go/totp.go:150-169 | The first codes of appendix D of RFC 4226 |
| `Totp.TruncateIsWindow` | mcp-server-go/totp.go:160-168 | Dynamic truncation is the 31-bit number at the offset, in six digits |
| `Totp.Truncate` | mcp-server-go/totp.go:160-168 | A code below one million |
| `Totp.TruncateExample` | mcp-server-go/totp.go:160-168 | The worked example of RFC 4226 section 5.4 gives 872921 |
| `Totp.TruncateDependsOnWindow` | mcp-server-go/totp.go:160-168 | Only the 31 bits selected by the offset matter |
| `Totp.GoDivIsMonotone` | mcp-server-go/totp.go:111-113 | Division by the period, truncating toward zero, is monotone |
| `Totp.GoDivIsTruncation` | mcp-server-go/totp.go:113-113 | The quotient is exact up to the divisor and symmetric about zero |
| `RollFile.RetainedIsSuffix` | cubelog/logwriter.go:67-102 | Whenever the asynchronous deletions run, the kept files read as a suffix of all bytes written |
| `RollFile.NothingLostAtFirst` | cubelog/logwriter.go:67-102 | From an empty directory nothing is lost in the first num - 1 rotations |
| `RollFile.NewestBytesAreKept` | cubelog/logwriter.go:67-102 | After num - 1 rotations at least the newest (num - 1) * size bytes are kept |
| `RollFile.CascadeShifts` | cubelog/logwriter.go:79-93 | Whatever files are missing, the renames move each file up by one and touch nothing beyond |
| `RollFile.RunIsFilled` | cubelog/logwriter.go:67-117 | The size counter is the length of the current log, and every rotated file has at least the rotation size |
| `RollFile.WriteRotatesIff` | cubelog/logwriter.go:75-99 | A write rotates exactly if it fills the current log up to the rotation size, so that after every write the log is shorter |
| `RollFile.RemovalRemoves` | cubelog/logwriter.go:94-96 | A removal that runs leaves no file num and touches no other |
| `RollFile.StepKeepsSuffix` | cubelog/logwriter.go:67-102 | Every write and every deletion keeps lost plus retained equal to written |
| `RollFile.StepContents` | cubelog/logwriter.go:67-102 | What a write with or without rotation, or a deletion, does to each kept file |
| `RollFile.TailAfterCascade` | cubelog/logwriter.go:79-93 | After the renames the kept files read as before, without the oldest |
| `RollFile.TailAppend` | cubelog/logwriter.go:68-76 | A write extends what is read by the bytes written |
| `RollFile.RollFileWriter.constructor` | cubelog/logwriter.go:104-117 | Takes over the files found and counts the current log |
| `RollFile.RollFileWriter.Reopen` | cubelog/logwriter.go:50-61 | Opens the current log, creating it if missing |
| `RollFile.RollFileWriter.Write` | cubelog/logwriter.go:67-102 | Performs the write step of the model and returns what was accepted |
| `RollFile.RollFileWriter.Append` | cubelog/logwriter.go:68-76 | Appends to the current log, reopened by name from time to time |
| `RollFile.RollFileWriter.RotateFiles` | cubelog/logwriter.go:77-99 | Performs the rotation of the model |
| `RollFile.RollFileWriter.RenameAll` | cubelog/logwriter.go:79-93 | The descending loop computes the cascade |
| `RollFile.RollFileWriter.RunRemoval` | cubelog/logwriter.go:94-96 | Performs the deletion step of the model |
| `ArchiveRoundTrip.RestoreUndoesBackup` | mcp-server-go/backup.go:322-340 | Restoring the archive of a volume succeeds exactly if every file is below 10 GiB and its data was read; then the volume holds exactly the same files with the same content and exactly the same directories, the count is right, and nothing outside has changed |
| `ArchiveRoundTrip.UnpackStored` | mcp-server-go/backup.go:569-640 | The same for every prefix of the walk |
| `ArchiveRoundTrip.FileAtTheLimit` | mcp-server-go/backup.go:622-633 | A file of exactly 10 GiB is archived in full and refused on restore |
| `ArchiveRoundTrip.TarGzDirectory` | mcp-server-go/backup.go:497-541 | Packs every visit of the walk in order and counts the files; a header without data blocks all later ones |
| `ArchiveRoundTrip.MemberTarget` | mcp-server-go/backup.go:593-605 | An archived path leads back to the same relative path below any destination |
| `ArchiveRoundTrip.FileStep` | mcp-server-go/backup.go:616-635 | The next file of a tree can always be created, and is written unless it is too long |
| `ArchiveRoundTrip.OtherStep` | mcp-server-go/backup.go:614-615 | Directories of a tree never get in the way of its files |
| `ArchiveRoundTrip.MkdirRestores` | mcp-server-go/backup.go:614-617 | Creating missing directories disturbs no restored file |
| `ArchiveRoundTrip.MkdirFolders` | mcp-server-go/backup.go:614-617 | Creating a directory creates exactly what is missing above it |
| `ArchiveRoundTrip.VisitKeepsFolders` | mcp-server-go/backup.go:613-636 | After each visit the directories are exactly those the visits call for |
| `ArchiveRoundTrip.ClearedIsReady` | mcp-server-go/backup.go:326-328 | The cleared volume is an empty directory |
| `Archive.UnpackStaysInside` | mcp-server-go/backup.go:569-640 | For every archive whatever, nothing outside the destination changes, beyond the destination's own missing ancestors |
| `Archive.RestoreStaysInside` | mcp-server-go/backup.go:322-340 | The same for clearing and restoring a volume |
| `Archive.UntarGz` | mcp-server-go/backup.go:569-640 | Unpacks in order up to the first error, inside the destination only |
| `Archive.RestoreVolume` | mcp-server-go/backup.go:322-340 | Clears the volume and unpacks into it, changing nothing outside the joined path, which lies below the volumes root exactly for a plain name |
| `Archive.WriteKeepsOutside` | mcp-server-go/backup.go:593-635 | Whatever its name, one file is written inside the destination or skipped |
| `Archive.EntryArrives` | mcp-server-go/backup.go:593-635 | Whatever its name looks like, a file that leads strictly below the destination arrives there, unless it is too long or something is in the way |
| `Archive.LongEntryEnds` | mcp-server-go/backup.go:622-633 | A file that is too long leaves its beginning and ends the restore |
| `Archive.OutsideIsSkipped` | mcp-server-go/backup.go:593-605 | What leads elsewhere or has no name left is skipped without a trace |
| `Archive.StreamSucceedsIff` | mcp-server-go/backup.go:584-592 | A stream is restored in full exactly if no entry fails and it ends with its end marker |
| `Archive.RelativeDropsFirst` | mcp-server-go/backup.go:593-597 | The part of the name up to its first slash is dropped |
| `Paths.InsideIsContainment` | mcp-server-go/backup.go:601-605 | The textual prefix test holds exactly for paths at or below the destination; only the root admits nothing but itself |
| `Paths.JoinIsNormal` | mcp-server-go/backup.go:601-601 | Joining any relative path, with empty, `.` and `..` parts, gives a clean path |
| `Paths.JoinOfRelative` | mcp-server-go/backup.go:601-601 | Joining a clean relative path appends it name by name |
| `Paths.NameLeadsBelowIff` | mcp-server-go/backup.go:324-324 | A name without slashes leads below a directory exactly if it is not empty, `.` or `..` |
| `Retention.BackupManager.PruneBackups` | mcp-server-go/backup.go:451-478 | Deletes exactly the backups beyond the first `keep` of each target and returns exactly their IDs; a negative count is a fault if there is any backup |
| `Retention.PrunedCount` | mcp-server-go/backup.go:451-478 | Each target keeps min(keep, count) backups |
| `Retention.PrunedAreOldest` | mcp-server-go/backup.go:451-478 | No survivor is older than a deleted backup of its target |
| `Retention.PruneIsIdempotent` | mcp-server-go/backup.go:451-478 | A second pruning, with whatever listing, deletes nothing |
| `Retention.SurvivorsOfTarget` | mcp-server-go/backup.go:463-475 | The survivors of a target are the first `keep` of its list |
| `Retention.BackupManager.ListBackups` | mcp-server-go/backup.go:404-436 | Lists every backup once, newest first |
| `Retention.BackupManager.DeleteBackup` | mcp-server-go/backup.go:439-448 | Deletes one backup; fails exactly on an unknown ID |
| `Retention.BackupManager.PruneGroup` | mcp-server-go/backup.go:470-474 | Deletes exactly what a group has beyond the first `keep` |
| `Retention.BackupManager.PruneGroups` | mcp-server-go/backup.go:463-475 | Groups pruned in any order amount to the pruning of the whole list |
| `Retention.GroupByTarget` | mcp-server-go/backup.go:457-461 | Groups the list by target, keeping its order |
| `Retention.GroupKeepsOrder` | mcp-server-go/backup.go:457-461 | A group is without duplicates and newest first |
| `Retention.GroupMembers` | mcp-server-go/backup.go:457-461 | A group holds exactly the backups of its target |
| `Scheduler.SuggestNode` | mcp-server-go/scheduler.go:33-73 | Returns the min(3, k) best of the k nodes that meet the memory and CPU requirements, best first; exactly the listed nodes that meet them are returned or left out, and none left out ranks above one returned |
| `Scheduler.ScoreNodeIff` | mcp-server-go/scheduler.go:86-125 | A node is scored exactly if the free memory and free CPU it reports cover what is asked; what its score record says |
| `Scheduler.QualifyingMembers` | mcp-server-go/scheduler.go:44-55 | Exactly the listed nodes that meet the requirements are scored |
| `Scheduler.ScoreIsBetween0And1` | mcp-server-go/scheduler.go:149-154 | Scores lie between 0 and 1 |
| `Scheduler.MoreUsedMemoryNeverHelps` | mcp-server-go/scheduler.go:86-159 | More used memory never raises a score and never makes a node qualify, even across the penalty step |
| `Scheduler.MoreCpuUseNeverHelps` | mcp-server-go/scheduler.go:86-159 | More CPU use never raises a score |
| `Scheduler.RawScoreWeighs` | mcp-server-go/scheduler.go:136-147 | Both ratios weigh the same; use adds a tenth, and less than a fifth of free memory halves the score |
| `Scheduler.IdleNodeScore` | mcp-server-go/scheduler.go:127-150 | An idle empty node scores 1 |
| `Scheduler.BusyNodeScore` | mcp-server-go/scheduler.go:127-154 | A half full and half busy node with containers scores 0.55 |
| `Scheduler.FullNodeScore` | mcp-server-go/scheduler.go:127-154 | A nearly full one scores 0.17 |
| `Scheduler.RawScoreIsMonotone` | mcp-server-go/scheduler.go:127-147 | The clamped score is monotone in both ratios, on either side of the penalty step |
| `Scheduler.BetterIsStrictWeak` | mcp-server-go/scheduler.go:57-66 | The ranking is a strict weak order, as sorting requires |
| `Scheduler.BetterIsLexicographic` | mcp-server-go/scheduler.go:57-66 | Score decides, then free memory, then free CPU |
| `Scheduler.Round2IsMonotone` | mcp-server-go/scheduler.go:261-263 | Rounding to two places is monotone |
| `Scheduler.Round2IsNearest` | mcp-server-go/scheduler.go:261-263 | The result is a number of hundredths at most half a hundredth away |
| `Sorting.Sort` | mcp-server-go/scheduler.go:57-66 | The result is an ordered permutation |
| `ShellQuote.QuoteRoundTrip` | mcp-server-go/volumes.go:633-635 | A shell reads the quoted text as the one word s, outside quotes at the end, exactly if s has no NUL |
| `ShellQuote.RenderRoundTrip` | mcp-server-go/volumes.go:559-560 | A command line of plain words, quoted arguments and `&&` is read as exactly those commands on exactly those arguments, or refused exactly if a command is empty or starts with a reserved word |
| `ShellQuote.QuotedArgumentsRoundTrip` | mcp-server-go/volumes.go:559-560 | Quoted arguments one space apart are read back as exactly those arguments |
| `ShellQuote.ReadQuoted` | mcp-server-go/volumes.go:633-635 | A quoted string, read where a word starts or goes on, adds exactly itself to the word |
| `ShellQuote.ReadBody` | mcp-server-go/volumes.go:633-635 | The quoted body adds the original string to the word and ends inside the quotes |
| `ShellQuote.ReadReplacement` | mcp-server-go/volumes.go:633-635 | The replacement for a quote adds one quote |
| `XmlEscape.EscapeIsOnePass` | mcp-server-go/hypervisor_validate.go:303-310 | The five successive replacements equal one character-by-character pass |
| `XmlEscape.EscapeRoundTrip` | mcp-server-go/hypervisor_validate.go:303-310 | A decoder that refuses raw markup and any ampersand outside a predefined entity (section 4.6 of XML 1.0) returns the original |
| `XmlEscape.DecodableHasNoMarkup` | mcp-server-go/hypervisor_validate.go:303-310 | What decodes contains no raw markup character |
| `XmlEscape.AmpersandsStartEntities` | mcp-server-go/hypervisor_validate.go:303-310 | In what decodes, every ampersand starts a predefined entity |
| `XmlEscape.EscapedIsWellFormed` | mcp-server-go/hypervisor_validate.go:303-310 | The output has no raw markup character and no ampersand outside a predefined entity |
| `XmlEscape.EscapeIsInjective` | mcp-server-go/hypervisor_validate.go:303-310 | Different strings escape differently |
| `XmlEscape.LayersOfChar` | mcp-server-go/hypervisor_validate.go:304-309 | Each character comes out of all five replacements as its entity |
| `Text.ReplaceAllIsSubst` | mcp-server-go/hypervisor_validate.go:304-309 | Whole-string replacement of a one-character pattern is substitution character by character |
| `DockerStream.DecodeFrames` | mcp-server-go/docker_client.go:191-209 | Whole frames followed by a proper prefix of one more decode to exactly the payloads of the whole ones |
| `DockerStream.EveryStreamIsFrames` | mcp-server-go/docker_client.go:191-209 | Every byte string is a list of frames and an incomplete rest, and decodes to the payloads of those frames |
| `DockerStream.DecodeDistributes` | mcp-server-go/docker_client.go:191-209 | After whole frames, decoding goes on with whatever follows |
| `DockerStream.DecodeDockerStream` | mcp-server-go/docker_client.go:191-209 | The loop terminates on every byte string and computes the decoding that these lemmas are about |
| `DockerStream.ProperPrefixIsIncomplete` | mcp-server-go/docker_client.go:195-205 | A proper prefix of a frame is not a frame |
| `DockerStream.IncompleteIsProperPrefix` | mcp-server-go/docker_client.go:195-205 | Whatever is not a complete frame is a proper prefix of one |
| `DockerStream.HeaderOfFrame` | mcp-server-go/docker_client.go:195-198 | The size read from a header is the length of the payload |
| `Endian.BigEndianRoundTrip` | mcp-server-go/docker_client.go:198-198 | Every number within the width is read back as itself |
| `Endian.MostSignificantFirst` | mcp-server-go/docker_client.go:198-198 | The first byte is the most significant |
| `Endian.FromBigEndianRoundTrip` | mcp-server-go/docker_client.go:198-198 | Every byte string is the encoding of the number it reads as |

## Left out

- HTTP handlers, tool registration, argument extraction, and the Docker, Cube and Proxmox clients apart from the stream decoder.
- Subprocess tools (virsh, zfs, nft, systemctl, apt, ssh, GPU), configuration, metrics, events, certificates, discovery and the other keyed stores: they would only add easy members.
- Real cryptography, randomness and JSON: abstract functions with stated laws, apart from the UTF-8 replacement that matters to the audit log.
- Key derivation and key files of the secret store (`mcp-server-go/secrets.go:116-204`).
- Secret operations are atomic: `Set` encrypts before it takes the lock, and a rotation in between is not modelled.
- Plaintext that a failed rotation leaves in memory.
- Heartbeat HMAC, freshness and rate limiting are the parameter `authentic`; the health marks that dispatching sets on peers and `Demote`, which has no caller, are not modelled.
- Failover with crashing nodes or with duplicate IDs. IDs compare by character, which agrees with Go's byte order on valid UTF-8.
- Containers that stop on their own, and load-balanced routing to replicas.
- Image validation in rollouts is the parameter `imageOk`; health polling is one verdict per container.
- Floating-point rounding in placement scores (the model uses reals), and the text explaining a score.
- Parsing of a submitted code, the provisioning URL and base32 of one-time codes; masks and shifts are written as arithmetic.
- File-system errors and integer overflow in log rotation; `DateWriter` and the console writer.
- Volume attachments and their ledger; only `shellQuote` of that file is modelled.
- AuditDisk.SessionVerifiesDespite: is about text without bars before the reason, since with bars two moments of a session can share a hash.
- AuditChain.SessionVerifiesIff: is about whole writes; AuditDisk.SessionVerifiesDespite covers all outcomes.
- AuditChain.TwoSessionsVerifyIff: is about whole writes; AuditDisk.TwoSessionsVerifyDespite covers all outcomes.
- AuditChain.SameEndSameLog: asks both logs for no bar before the reason; AuditTwins.NoOtherLog asks nothing of the other log.
- AuditChain.PayloadIsInjective: asks both entries; AuditTwins.PayloadDeterminesIff is the exact condition.
- Names of volumes with slashes in them: the joined path then bounds the changes, without a simpler condition.
- The bytes of a torn file: a proper prefix of a JSON object is taken to be what no reader accepts.
- A Go string is taken as its decoded code points and stray bytes (`Canonical` in `AuditChain`); the decoding itself is not modelled.
- Container backups, staging copies, checksums, file modes, and symbolic links already present below a restore destination.
- Relative restore destinations: the destination is an absolute clean path.
- Removal errors and manifest parsing in backup deletion and listing.
- The sort is any method that returns an ordered permutation; the order among equal elements is unspecified, as in Go.
- Secrets.StoreAgreesWithHistory: is about runs in which randomness does not run out in the middle of a rotation; Secrets.StoreRefinesPlainMap covers all runs.
- Scaling.ScaleSet: states a count short by the creations that named no container, since the code registers only named ones.
