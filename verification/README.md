# Certifi, modelled and proved in Dafny

Certifi issues and renews TLS certificates over ACME with DNS-01 challenges. This project models the
parts of its Rust server, and one protocol of its command-line client, whose correctness spans several
functions, and proves what they keep. The network, the DNS, the CA, the key-value backend, the clock and
the other processes are oracles: functions fixed in advance about which nothing is assumed beyond what a
contract says.

| file | models |
|---|---|
| `Text.dfy` | ASCII text: trimming, labels, the dotted suffix test, byte order |
| `Hosts.dfy` | `normalize_host` and `normalize_request` |
| `Authorization.dfy` | role assignments, token ceilings and the domain check |
| `RoleSync.dfy` | OIDC role reconciliation, the boot-time migration of `is_admin`, user names |
| `Timestamps.dfy` | the text order of RFC 3339 timestamps that SQL filters rely on |
| `CertTable.dfy` | looking requests up, creating, retrying and claiming rows |
| `Routing.dfy` | zone routing, the create pre-flight, record names and the providers' TXT edits |
| `DnsWalk.dfy` | the iterative walk from the root to a name's authoritative servers |
| `Propagation.dfy` | polling those servers until they serve every value |
| `Acme.dfy` | one issuance: challenges, notification, polling, cleaning up, finalizing |
| `SecretStore.dfy` | the two homes of secret material and the migration between them |
| `Lifecycle.dfy` | rows, tasks, sweep, downloads, deletes and crashes as one step system |
| `Sweep.dfy` | the daily sweep on its own, with its attempts and mails |
| `Undisturbed.dfy` | what one operation does from beginning to end in that system when nobody interferes |
| `PfxFiles.dfy` | the client's interruptible writes of a PFX archive, its password and its sidecar |

Where the source changes state, the model is a class whose methods are proved against a function of the
old state; the lemmas then prove what that function keeps. Runs of the step systems are sequences of steps,
and the main theorems are inductions over all of them.

## Where the code does less than it says

Each of these is proved, with a run or an input that shows it and the condition under which the promise holds.

* `services/renewal.rs:247-249` leaves a row `issuing` "for the retry sweep". The sweep selects only active
  and failed rows, `renew` refuses the row and `create` answers with it: after a crash it stays so until
  deleted (`Lifecycle.CrashStrandsForever`, `CertTable.InFlightIsReused`).
* `handlers/certificates.rs:318-320` and `services/renewal.rs:140-146` write `pending` without the guard
  `renew` uses; two tasks on one row and a wrong recorded expiry follow (`Lifecycle.TwoTasksRun`,
  `Lifecycle.WrongExpiryRun`). Over all runs, no row has two tasks exactly when each such write finds none
  (`Lifecycle.OneTaskIff`), and an active row's expiry is its leaf's exactly when every step on the row keeps
  the leaf (`Lifecycle.FreshIff`).
* `mark_failed` ignores the result of its write (`handlers/certificates.rs:1096-1102`). When the database
  loses it, the row stays in flight as after a crash; only a retry or sweep that had picked the row before can
  still settle it (`Lifecycle.LostMarkStrands`, `Lifecycle.SettlesIff`).
* `services/secret_store.rs:180-182` says the PFX password survives a renewal. It does unless the read
  fails, which the code accepts and logs, a download writes in between, or the password is still in the column
  when the backend takes over (`Lifecycle.LostPasswordRun`, `Lifecycle.PasswordStaysIff`,
  `SecretStore.PasswordSurvives`). The other way round, a download overtaken by a renewal puts the old
  certificate back (`Lifecycle.StaleLeafRun`), exactly when it writes back another leaf than the one recorded
  (`Lifecycle.FreshIff`, `Lifecycle.PasswordWriteKeepsLeaf`).
* "Delete this certificate" is to mean the key is gone (`handlers/certificates.rs:703-706`). A secret whose
  reference never landed, or one stored by a sweep that had already picked the row, outlives it
  (`Lifecycle.UnpointedSecretOrphaned`, `Lifecycle.SweptSecretOrphaned`); `Lifecycle.OrphanIff` says exactly
  which deletes can leave one.
* Without a backend, `store_issued_cert` leaves `secret_ref` set, so a re-issued row keeps loading through
  the reference (`SecretStore.Store.StoreInColumns`).
* `handlers/oidc.rs:411-414` promises manual grants are left untouched; one that a group also asks for
  becomes OIDC-owned and goes with the group (`RoleSync.ManualGrantAfterRun`).
* Turning an administrator off is to leave "at least an Operator grant" (`rbac.rs:266-268`); when the second of
  the two writes fails, SuperAdmin is gone and Operator not given (`RoleSync.Roles.SetUserAdminStatus`).
* The self-healing of `rbac.rs:348-352` asks for SuperAdmin at any scope, so a zone-scoped one masks a lost
  global one (`RoleSync.MigrationReconciles`).
* Routing ignores case and `find_zone` does not (`Routing.MixedCaseZoneIsMissed`).
* `"a. ."` is not a fixed point of `normalize_host`, which breaks deduplication for such names
  (`Hosts.NormalizeHostIdempotence`, `CertTable.PostingTwice`).
* The transport-error exit at `services/acme.rs:301` skips the cleanup (`Acme.LeftBehind`); the published
  records are left exactly when the first notification that is not accepted breaks in transport
  (`Acme.Issuer.IssueCertificate`). The name whose deploy failed is not cleaned either (`services/acme.rs:288-291`),
  so what that deploy had published stays.
* The duplicate checks of `create` are queries of their own. Two creates, or one create and a finishing task,
  can leave two rows for one request (`CertTable.InterleavedCreatesDuplicate`, `CertTable.CompletionHidesRow`),
  exactly when an insert no longer finds its searches current (`CertTable.OneRowIffCurrent`).
* The check on the raw names of a request does not always cover the names stored for it
  (`Authorization.RawCheckCounterexample`, `Authorization.RawCheckIsExact`).

## Assumptions of the step system

A handler that claims a row runs on to the spawn of its task, and a download reads the row and its material
in one step. The choice of a row by a retry or by the sweep and the write that follows are separate steps,
so stale choices are covered. A sweep may choose any active or failed row, which includes those its expiry
filter would select. The backend in use does not change between restarts.

## Model
| member | source | states |
|---|---|---|
| SecretStore.Store.Migrate | crates/certifi-server/src/services/secret_store.rs:420-546 | Wherever a run stops, every certificate, account-key and integration load returns what it did before; a run in which no call of its own fails finishes, whatever failed earlier; a finished run leaves nothing to migrate and another run makes no call; a finished run leaves plain columns behind exactly when some row had a reference and columns at once |
| SecretStore.Store.MigrateCerts | crates/certifi-server/src/services/secret_store.rs:428-477 | The certificate loop keeps every load at every stop, only ever replaces a selected row by its cleared reference, and on success leaves no selected row |
| SecretStore.Store.MigrateCert | crates/certifi-server/src/services/secret_store.rs:438-477 | One certificate: a failed or unverified write leaves the row as it was, success leaves only the reference, and no load changes either way |
| SecretStore.Store.MigrateAcme | crates/certifi-server/src/services/secret_store.rs:479-504 | The account key loads the same at every stop; success leaves no plain key; a key already moved costs no call |
| SecretStore.Store.MigrateIntegration | crates/certifi-server/src/services/secret_store.rs:510-530 | One integration: the configuration loads the same at every stop and success leaves only the reference |
| SecretStore.Store.MigrateIntegrations | crates/certifi-server/src/services/secret_store.rs:506-530 | All integrations: same guarantee for the loop, and rows already moved cost no call |
| SecretStore.Store.VerifyReadback | crates/certifi-server/src/services/secret_store.rs:593-611 | Succeeds exactly when the read succeeds and every written field is there with its value |
| SecretStore.Store.WriteVerified | crates/certifi-server/src/services/secret_store.rs:453-464 | It succeeds exactly when the write replies, has landed whole and is read back; the path then holds exactly the data, and no other path is touched |
| SecretStore.Store.StoreIssued | crates/certifi-server/src/services/secret_store.rs:183-250 | As seen through loads: it succeeds exactly when its writes reply, whatever becomes of the read; the row's material is then the issued PEMs with the carried password, or what is left of them if the backend alters what it stores; after a failure it is that exactly when the write had landed and the row refers to it; all other rows, the account key and integrations stay; a row with a reference and no backend keeps loading what it did |
| SecretStore.Store.StoreInColumns | crates/certifi-server/src/services/secret_store.rs:191-205 | The database arm, with the reference left in place: on such a row the re-issue is invisible to every load |
| SecretStore.Store.StoreInBackend | crates/certifi-server/src/services/secret_store.rs:207-249 | The backend arm refines the same abstract step through its read, write and row update, each of which may fail, be lost or, for the write, be altered: exactly when it succeeds, when the new material shows and when the row is pointed |
| SecretStore.Store.WriteSecret | crates/certifi-server/src/services/secret_store.rs:234-237 | A write at a certificate path shows at once on a row that refers to it and not at all on one that does not |
| SecretStore.Store.PointAtBackend | crates/certifi-server/src/services/secret_store.rs:239-249 | Pointing the row makes it load the secret at its own path and keeps only its encrypted password column |
| SecretStore.Store.StorePfx | crates/certifi-server/src/services/secret_store.rs:257-286 | It succeeds exactly when the replies and the encryption do; one row's password changes and nothing else seen through loads: to the password under the backend, to what its encryption decrypts to in columns; without a backend a row with a reference is refused unchanged |
| SecretStore.Store.StorePfxColumn | crates/certifi-server/src/services/secret_store.rs:278-285 | The column arm, which fails unchanged when encryption does |
| SecretStore.Store.StorePfxSecret | crates/certifi-server/src/services/secret_store.rs:265-276 | The backend arm, which a failed read stops unchanged |
| SecretStore.Store.Delete | crates/certifi-server/src/services/secret_store.rs:291-303 | The row goes from the abstract store alone; it succeeds exactly for a row without reference or a backend call that does, and after that a secret is left at its path exactly when the row had no reference and there was one |
| SecretStore.PasswordSurvives | crates/certifi-server/src/services/secret_store.rs:207-228 | A re-issue carries the password the row loads now if and only if there is no backend; or the row is a reference and the read succeeds or no password is stored; or the row is in columns and its column decrypts to the password stored at its future path, or to none where none is read |
| SecretStore.MigrationSavesPassword | crates/certifi-server/src/services/secret_store.rs:438-477 | Migrating a row keeps a password that only its column held; re-issuing the same row before migration loses it |
| SecretStore.CertLoads | crates/certifi-server/src/services/secret_store.rs:132-174 | What a certificate loads, written out: the named fields of the secret it refers to, all missing when that is gone, an error without a backend, and otherwise its columns with the password decrypted or none |
| SecretStore.OtherLoads | crates/certifi-server/src/services/secret_store.rs:306-327 | The account key and an integration load what the database holds, or for a reference what the backend holds there, which without a backend is an error |
| SecretStore.EmptyRowsAreLeft | crates/certifi-server/src/services/secret_store.rs:428-437 | The rows not selected for migration are exactly those with a reference and those without anything |
| SecretStore.PathsAreDistinct | crates/certifi-server/src/services/secret_store.rs:49-57 | Paths of different certificates, integrations and the account never coincide |
| SecretStore.CertWriteUnseen | crates/certifi-server/src/services/secret_store.rs:49-51 | A write at one certificate's path is invisible to every load but its own |
| SecretStore.IntegrationWriteUnseen | crates/certifi-server/src/services/secret_store.rs:53-55 | A write at a plain integration's path is invisible to every load |
| SecretStore.AcmeWriteUnseen | crates/certifi-server/src/services/secret_store.rs:57 | A write at the account path is invisible to every load while the key is still plain |
| DnsWalk.Resolver.WalkDelegation | crates/certifi-server/src/services/dns_check.rs:371-440 | The referral loop terminates for every network and equals the recursive walk, answer and query count alike |
| DnsWalk.WalkIsDescent | crates/certifi-server/src/services/dns_check.rs:371-440 | On every network the walk returns the delegation of the last reply of a descent from the root hints in which each accepted reply leads to the next query, and it ends only at a final reply, a reply with no acceptable delegation, nobody left to ask, or the limit; the query count is exact |
| DnsWalk.Resolver.Resolve | crates/certifi-server/src/services/dns_check.rs:444-480 | Host resolution terminates in mutual recursion with the walk and equals its specification, answer and query count alike; what that is over the replies, the next row says |
| DnsWalk.ResolveHostIsExact | crates/certifi-server/src/services/dns_check.rs:444-480 | A host resolves to exactly the addresses in the answer sections of the replies to the A and the AAAA query, each once and in order; it fails exactly past the depth limit, without a delegation or with nobody to ask |
| DnsWalk.Resolver.ResolveFirst | crates/certifi-server/src/services/dns_check.rs:421-432 | The name-server loop equals the first name that resolves to an address, with the same queries |
| DnsWalk.FirstIsFirst | crates/certifi-server/src/services/dns_check.rs:421-432 | The addresses are those of the first name that resolves to any, each earlier one having been asked for in vain |
| DnsWalk.NextServersIsExact | crates/certifi-server/src/services/dns_check.rs:420-436 | The next servers are the addresses of the glue and cost no query; without glue, those of the first server that resolves to any, or none when all fail |
| DnsWalk.Resolver.AuthoritativeServers | crates/certifi-server/src/services/dns_check.rs:333-367 | Equals the discovery function of the network, result and query count alike |
| DnsWalk.ServersDiffer | crates/certifi-server/src/services/dns_check.rs:354-361 | On every network discovery lists no address twice |
| DnsWalk.Resolver.ServerIps | crates/certifi-server/src/services/dns_check.rs:341-353 | A server has its glue addresses, or what it resolves to when it has none |
| DnsWalk.HostIpsIsExact | crates/certifi-server/src/services/dns_check.rs:341-353 | A server with glue has exactly its glue and is not resolved; any other has what it resolves to at depth one |
| DnsWalk.ServersIsExact | crates/certifi-server/src/services/dns_check.rs:333-367 | An address is listed for a name exactly when the walk found a delegation and the address was found for one of its servers |
| DnsWalk.LocatedIsExact | crates/certifi-server/src/services/dns_check.rs:339-361 | An address is listed exactly when it was found for some server of the delegation, glued or resolved, and always under a server it was found for |
| DnsWalk.AddNew | crates/certifi-server/src/services/dns_check.rs:354-361 | Appending a server's addresses keeps all addresses distinct, adds exactly the new ones, and equals the step of the discovery function |
| DnsWalk.DelegationFor | crates/certifi-server/src/services/dns_check.rs:371-440 | Whatever servers reply, an accepted delegation is for an ancestor of the name or the name itself, and names at least one server |
| DnsWalk.Judge | crates/certifi-server/src/services/dns_check.rs:380-419 | An accepted referral carries exactly the NS set read from the reply, lies strictly below the zone found so far and on the way to the name (sections 4.2.1 and 5.3.3 of RFC 1034) |
| DnsWalk.JudgeIsExact | crates/certifi-server/src/services/dns_check.rs:391-419 | A reply stops the walk exactly when no delegation in it is acceptable, and ends it exactly when its zone is the one found before or it is authoritative with answers |
| DnsWalk.NsRrset | crates/certifi-server/src/services/dns_check.rs:485-509 | The NS set read from a reply is not empty, belongs to a zone of the name, and is no larger than its section |
| DnsWalk.NsRrsetIsExact | crates/certifi-server/src/services/dns_check.rs:485-509 | The set read is that of the owner of the first NS record of the answers, with all its targets in order, if that makes a set for a zone of the name, and otherwise the same of the authority section |
| DnsWalk.SectionNsIsExact | crates/certifi-server/src/services/dns_check.rs:487-505 | The same for one section |
| DnsWalk.GlueIsExact | crates/certifi-server/src/services/dns_check.rs:512-522 | The glue is every address of a named server in the reply, and nothing else |
| DnsWalk.HopLimitIrrelevant | crates/certifi-server/src/services/dns_check.rs:379-439 | The loop ends by itself within labels + 2 iterations: all larger limits give the same delegation and the same queries |
| DnsWalk.TwelveHopsSuffice | crates/certifi-server/src/services/dns_check.rs:379-380 | For names of at most ten labels the limit of twelve never decides the outcome |
| DnsWalk.LimitDecidesDeepNames | crates/certifi-server/src/services/dns_check.rs:379-380 | For every longer name some network makes the limit decide, so ten is exact |
| DnsWalk.LadderWalk | crates/certifi-server/src/services/dns_check.rs:379-439 | The network that shows it: each reply refers one label further down |
| DnsWalk.DelegationQueries | crates/certifi-server/src/services/dns_check.rs:371-440 | If no NS set read from any answer names more than k servers, a walk sends at most DelegationCost(k, depth) queries, whatever else the answers hold |
| DnsWalk.HostQueries | crates/certifi-server/src/services/dns_check.rs:444-480 | The same bound for resolving one host |
| DnsWalk.WalkQueries | crates/certifi-server/src/services/dns_check.rs:379-439 | The same bound iteration by iteration |
| DnsWalk.NextQueries | crates/certifi-server/src/services/dns_check.rs:421-432 | The same bound for one referral and the hosts resolved for it |
| DnsWalk.CostRecurrence | crates/certifi-server/src/services/dns_check.rs:371-480 | The two bounds obey R(d) = 14 + 13 k R(d + 1) up to the depth limit, and are zero past it |
| Propagation.WaitForPropagation | crates/certifi-server/src/services/dns_check.rs:78-215 | From the request to the result: visible at once when empty, an error without polling when some name has no located server, and otherwise visible exactly in the first pass in which every name is served, an error exactly in the first in which some name has no reachable address, and given up exactly after the deadline, whatever order probes complete in |
| Propagation.PassVerdictIsExact | crates/certifi-server/src/services/dns_check.rs:129-196 | A pass succeeds if and only if every name has a reachable address and of each of its servers every address that answered serves all values and some one did, or none has a route; it fails for want of servers if and only if some name has no reachable address |
| Propagation.DiscoveredPass | crates/certifi-server/src/services/dns_check.rs:83-196 | After discovery on any network, reachable means that the probe was not unroutable |
| Propagation.Poll | crates/certifi-server/src/services/dns_check.rs:105-215 | The polling loop ends at the first pass that settles, and gives up only after the deadline |
| Propagation.Locate | crates/certifi-server/src/services/dns_check.rs:83-103 | Discovery succeeds exactly when every name has servers, and then has one target per name with its values and grouped servers |
| Propagation.OnePass | crates/certifi-server/src/services/dns_check.rs:109-196 | One pass reaches the verdict of the specification for any completion order and hands on the targets without the unroutable addresses |
| Propagation.JudgeNs | crates/certifi-server/src/services/dns_check.rs:131-181 | One server's verdict and remaining addresses do not depend on the order of its results |
| Propagation.MineOf | crates/certifi-server/src/services/dns_check.rs:131-135 | Collecting a server's results keeps each of them and none of another server |
| Propagation.VisibleMeansServed | crates/certifi-server/src/services/dns_check.rs:78-215 | Success means every name has a server that answered, every address that answered serves every value, and a server that did not answer had only unroutable addresses |
| Propagation.AssessMeaning | crates/certifi-server/src/services/dns_check.rs:231-247 | Ready, unreachable and no-answer in terms of the probes, both directions |
| Propagation.AssessIgnoresOrder | crates/certifi-server/src/services/dns_check.rs:231-247 | Order and repetition of probes never change the verdict |
| Propagation.PassBound | crates/certifi-server/src/services/dns_check.rs:197-213 | At most one pass per second of timeout, plus one |
| Propagation.DroppedForever | crates/certifi-server/src/services/dns_check.rs:137-151 | If a name lists no address twice, an address once unroutable is never probed again for it |
| Propagation.OnlyUnroutableDropped | crates/certifi-server/src/services/dns_check.rs:137-151 | Under the same condition no other address is ever dropped |
| Propagation.DiscoveredIsDistinct | crates/certifi-server/src/services/dns_check.rs:83-103 | Discovery and grouping give every name targets without a repeated address, on every network, so that condition always holds |
| Propagation.UnroutableStaysDropped | crates/certifi-server/src/services/dns_check.rs:83-151 | After discovery on any network, an address once unroutable is never probed again for its name, in any later pass |
| Propagation.GivenUpWasUnroutable | crates/certifi-server/src/services/dns_check.rs:83-151 | After discovery on any network, an address discovered for a name and probed no longer was unroutable in an earlier pass |
| Propagation.PollShrinks | crates/certifi-server/src/services/dns_check.rs:137-151 | One pass keeps exactly the addresses that were not unroutable |
| Propagation.StaysDistinct | crates/certifi-server/src/services/dns_check.rs:137-151 | Distinctness of addresses, as discovery lists them, survives every pass |
| Propagation.SkippedHasNoAddress | crates/certifi-server/src/services/dns_check.rs:151-166 | A skipped server has no address left to probe |
| Propagation.SkippedIffNoAddress | crates/certifi-server/src/services/dns_check.rs:151-166 | A located server is skipped exactly when it has no address left to probe |
| Propagation.GroupByNs | crates/certifi-server/src/services/dns_check.rs:259-272 | One entry per server in order of first mention; no pair is lost and none invented |
| Propagation.EachPairKept | crates/certifi-server/src/services/dns_check.rs:259-272 | An address is under a server after grouping exactly when it was paired with it before |
| Propagation.GroupedIsDistinct | crates/certifi-server/src/services/dns_check.rs:259-272 | Addresses distinct over all servers stay distinct within and across the grouped ones |
| Lifecycle.CrashFreeRunsStrandNothing | crates/certifi-server/src/handlers/certificates.rs:1041-1104 | In every interleaving without a crash or a lost final write each pending or issuing row has a live task, and once no task is left every row is active or failed |
| Lifecycle.BusyUntilSettled | crates/certifi-server/src/handlers/certificates.rs:1058-1104 | A row whose last live task ends is active, failed or gone |
| Lifecycle.JobAdvances | crates/certifi-server/src/handlers/certificates.rs:1058-1104 | A job moves only by its own steps, each of which lowers its rank, and a task or a picked retry or sweep that ends, its final write not lost, leaves its row active, failed or gone |
| Lifecycle.EveryTaskEnds | crates/certifi-server/src/handlers/certificates.rs:1058-1104 | In every interleaving without a crash or a lost final write, a task or a picked retry or sweep that has had as many steps as its rank allows has ended, and left its row settled or gone at that moment |
| Lifecycle.CrashStrandsForever | crates/certifi-server/src/services/renewal.rs:47-81 | A row in flight at a crash keeps that status through every later run of any steps unless it is deleted, against the comment at lines 247-249 |
| Lifecycle.StrandedForever | crates/certifi-server/src/services/renewal.rs:47-81 | The same for any row in flight that nobody works on: no sweep, renewal, retry or create takes it up |
| Lifecycle.SettlesIff | crates/certifi-server/src/services/renewal.rs:47-81 | A row in flight can still be settled by some run if and only if a live task works on it or a retry or sweep has picked it |
| Lifecycle.WorkerSettles | crates/certifi-server/src/handlers/certificates.rs:1058-1104 | Anybody who works on a row or has picked it can settle it |
| Lifecycle.LostMarkStrands | crates/certifi-server/src/handlers/certificates.rs:1089-1104 | After a final failed write that the database loses, the row can still be settled if and only if a retry or sweep had picked it already |
| Lifecycle.RunsKeepPemsTogether | crates/certifi-server/src/services/secret_store.rs:183-286 | In every reachable state of every interleaving the four PEMs a row loads come from one issuance, made for that row, and an active row has them |
| Lifecycle.StepKeepsSound | crates/certifi-server/src/services/secret_store.rs:183-286 | Each step of any kind keeps that invariant |
| Lifecycle.EmptyTableIsSound | crates/certifi-server/src/db.rs:49-63 | The empty table meets the premises of every theorem on runs |
| Lifecycle.OnlyStoresChangePems | crates/certifi-server/src/handlers/certificates.rs:1058-1104 | Claims, failures, crashes and other rows' steps never touch a row's PEMs; only its own task's stores do, or a password write that puts back what it read |
| Lifecycle.GuardedRunsStayFresh | crates/certifi-server/src/handlers/certificates.rs:543-560 | If the unguarded writes meet no live task and no password write is stale, at most one task is live per row and an active row's expiry is that of its leaf, over every run |
| Lifecycle.FreshIff | crates/certifi-server/src/handlers/certificates.rs:1058-1104 | Over every run, crashes and unguarded writes included, the row's recorded expiry is that of the leaf it serves whenever it is active, if and only if every step on it keeps the leaf: an activation finds its own leaf loaded, no store lands where an active row loads from, and on an active row a password write and a pointing put back the leaf recorded |
| Lifecycle.StepKeepsLeafIff | crates/certifi-server/src/services/secret_store.rs:183-286 | The same for one step of any kind |
| Lifecycle.StepKeepsNumbered | crates/certifi-server/src/handlers/certificates.rs:1058-1104 | Each issuance is in the hands of one task, and of none once its expiry is recorded |
| Lifecycle.ClaimGuardIsExact | crates/certifi-server/src/handlers/certificates.rs:543-560 | While every row in flight has a live task and every live task's row is in flight, the renewal guard refuses exactly the rows with a live task |
| Lifecycle.UnguardedClaim | crates/certifi-server/src/services/renewal.rs:140-146 | From any state with at most one live task per row, whatever the recorded expiries, the unconditional pending write keeps that if and only if none was live on its row |
| Lifecycle.OneTaskIff | crates/certifi-server/src/services/renewal.rs:140-146 | Over every run, crashes and stale writes included, no row ever has two live tasks if and only if every unconditional pending write finds none on its row |
| Lifecycle.TwoTasksRun | crates/certifi-server/src/handlers/certificates.rs:316-340 | A run from the empty table in which a retry and a renewal put two live tasks on one row |
| Lifecycle.WrongExpiryRun | crates/certifi-server/src/handlers/certificates.rs:316-340 | The same run ends with an active row whose recorded expiry is not its leaf's |
| Lifecycle.PasswordWriteKeepsLeaf | crates/certifi-server/src/services/secret_store.rs:265-276 | A password write keeps the recorded expiry right, whatever the status of the row it meets, if and only if the row is not active or the write puts back the current leaf |
| Lifecycle.StaleLeafRun | crates/certifi-server/src/services/secret_store.rs:265-276 | A run in which a password write overtaken by a renewal puts the old certificate back |
| Lifecycle.PasswordOutlivesRenewals | crates/certifi-server/src/services/secret_store.rs:207-237 | When reads succeed and the two read-modify-writes do not interleave, a stored password survives every renewal, failure and restart |
| Lifecycle.PasswordStaysIff | crates/certifi-server/src/services/secret_store.rs:207-286 | Over every run, crashes included, a row in columns or in the backend loads the same password throughout if and only if every renewal and download that writes where it loads from writes back the password that is there then, and it is pointed at no secret with another |
| Lifecycle.StepPassword | crates/certifi-server/src/services/secret_store.rs:207-286 | The same for one step of any kind |
| Lifecycle.PasswordIsStored | crates/certifi-server/src/services/secret_store.rs:257-286 | A minted password is what the row loads from then on, in either home, with the PEMs of the row in columns or of the secret as it was read |
| Undisturbed.Issues | crates/certifi-server/src/handlers/certificates.rs:1058-1104 | A task nobody disturbs leaves the row active with the new expiry, all four PEMs of the new issuance in the home the backend prescribes and the password of that home, lost exactly when the backend's read fails; no other row or secret changes |
| Undisturbed.Fails | crates/certifi-server/src/handlers/certificates.rs:1085-1104 | A task that fails at whatever point leaves the row failed and everything else as it was at that point |
| Undisturbed.Starts | crates/certifi-server/src/handlers/certificates.rs:543-560 | A renewal, a sweep and a retry start a task on exactly the rows they may, and change nothing of the row but its status |
| Undisturbed.Inserts | crates/certifi-server/src/handlers/certificates.rs:366-387 | A create inserts a pending row without material under an id never used |
| Undisturbed.Mints | crates/certifi-server/src/services/secret_store.rs:257-286 | A download mints a password exactly when there is a certificate and none yet, and the row then loads it with the PEMs it had |
| Undisturbed.GivesUp | crates/certifi-server/src/services/secret_store.rs:257-286 | A download that fails changes nothing |
| Undisturbed.Deletes | crates/certifi-server/src/handlers/certificates.rs:684-729 | A delete removes the row, its secret exactly when the row referred to it and the call succeeds, and nothing else |
| Undisturbed.DeletesNothing | crates/certifi-server/src/handlers/certificates.rs:684-729 | A delete that finds the row gone touches no secret |
| Undisturbed.CrashKeepsData | crates/certifi-server/src/services/renewal.rs:47-81 | A crash loses the activities and nothing stored |
| Lifecycle.LostPasswordRun | crates/certifi-server/src/services/secret_store.rs:216-237 | A run in which a stored password is overwritten by a renewal that had read before it was stored |
| Lifecycle.CleanRunsLeaveNoOrphan | crates/certifi-server/src/handlers/certificates.rs:684-729 | No secret outlives its row if each delete finds nobody working on or about to work on the row, its reference had landed, and the removal succeeds without a crash in between |
| Lifecycle.OrphanIff | crates/certifi-server/src/handlers/certificates.rs:684-729 | After a delete whose removal succeeds, some crash-free continuation orphans the secret if and only if a job on the row can still write one, or there was a secret the fetched row did not refer to |
| Lifecycle.WriterOrphans | crates/certifi-server/src/handlers/certificates.rs:1058-1104 | Any such job, left to itself, stores an orphan |
| Lifecycle.ClearedNeverOrphans | crates/certifi-server/src/handlers/certificates.rs:684-729 | Without one, no continuation does |
| Lifecycle.UndisturbedDelete | crates/certifi-server/src/handlers/certificates.rs:691-713 | An undisturbed delete leaves a secret behind exactly when the fetched row did not refer to it |
| Lifecycle.UnpointedSecretOrphaned | crates/certifi-server/src/services/secret_store.rs:234-249 | A run in which the secret was written but the row update failed: a later delete, with no task live, orphans it |
| Lifecycle.SweptSecretOrphaned | crates/certifi-server/src/services/renewal.rs:47-65 | A run in which the sweep had picked the row before it was deleted, with no task live: its issuance stores an orphan |
| CertTable.Certificates.Create | crates/certifi-server/src/handlers/certificates.rs:179-418 | The handler's searches and writes leave exactly the table and answer of the specification whose properties the lemmas below prove |
| CertTable.CreatedIsExact | crates/certifi-server/src/handlers/certificates.rs:179-418 | The whole decision over matching rows: refusals in order, the newest active match reused, then the newest in flight, then refusal for an unroutable name, then the newest failed match set to pending, and only then an insert |
| CertTable.MatchesIsExact | crates/certifi-server/src/handlers/certificates.rs:999-1033 | A row matches exactly the canonical form of its own names in a wanted status, unless its common name is stored with white space around it |
| CertTable.Certificates.FindMatching | crates/certifi-server/src/handlers/certificates.rs:999-1033 | Finds the newest row with the request's canonical names and a wanted status |
| CertTable.Certificates.ClaimForRenewal | crates/certifi-server/src/handlers/certificates.rs:543-560 | Succeeds exactly on a settled row, changes that row only, and keeps its algorithm when none is given |
| CertTable.PreFilterExact | crates/certifi-server/src/handlers/certificates.rs:999-1021 | The SQL narrowing misses a row whose name normalizes to the wanted one exactly when it is stored with white space around it, which canonical names are not |
| CertTable.CreateKeepsOneRow | crates/certifi-server/src/handlers/certificates.rs:179-418 | A create keeps one row per canonical request |
| CertTable.SerialCreatesKeepOneRow | crates/certifi-server/src/handlers/certificates.rs:179-418 | So does every serial history of creates, status changes and deletes of stable requests |
| CertTable.InFlightIsReused | crates/certifi-server/src/handlers/certificates.rs:238-256 | A request whose row is in flight gets that row and changes nothing, task or no task |
| CertTable.PostingTwice | crates/certifi-server/src/handlers/certificates.rs:179-418 | Posting twice leaves one row if and only if the request is stable |
| CertTable.InterleavedCreatesDuplicate | crates/certifi-server/src/handlers/certificates.rs:221-383 | From the empty table, a run of two creates that both search before either inserts ends with two rows for one request |
| CertTable.CompletionHidesRow | crates/certifi-server/src/handlers/certificates.rs:221-383 | A run of a single create does too, when its row becomes active between the search for active rows and the search for rows in flight |
| CertTable.OneRowIffCurrent | crates/certifi-server/src/handlers/certificates.rs:221-383 | Over every interleaving the table has one row per request throughout if and only if every insert finds its searches still current |
| CertTable.OthersActFreely | crates/certifi-server/src/handlers/certificates.rs:1058-1104 | In that system rows may change status or be deleted at any moment, and a create starts searching exactly when it is permitted, names a host and asks for a known algorithm |
| CertTable.InsertKeepsOneRow | crates/certifi-server/src/handlers/certificates.rs:366-383 | An insert keeps one row per request if and only if no row has its names yet |
| CertTable.AloneIsCreated | crates/certifi-server/src/handlers/certificates.rs:179-418 | A create that nobody interrupts takes the table exactly where the handler specification takes it |
| Routing.MultiDnsProvider.Route | crates/certifi-server/src/integrations/mod.rs:106-132 | The first integration in order with a covering zone, or none if no integration has one |
| Routing.MultiDnsProvider.ListZones | crates/certifi-server/src/integrations/mod.rs:170-190 | Every zone is represented once up to case and trailing dots |
| Routing.MultiDnsProvider.Preflight | crates/certifi-server/src/handlers/certificates.rs:272-307 | Refuses exactly the names no listed zone covers |
| Routing.PreflightIsRoutable | crates/certifi-server/src/handlers/certificates.rs:278-308 | For canonical names the pre-flight accepts exactly the nonempty names that routing can place |
| Routing.EmptyNameGap | crates/certifi-server/src/handlers/certificates.rs:278-308 | The empty canonical name is where the two part |
| Routing.WildcardIsRoutable | crates/certifi-server/src/integrations/mod.rs:106-132 | Accepting a wildcard means its base name can be routed, unless a zone is literally named with the wildcard |
| Routing.WildcardRoutableIff | crates/certifi-server/src/integrations/mod.rs:106-132 | The base of a wildcard can be routed if and only if some zone other than one named like the wildcard covers the wildcard |
| Routing.CanonicalNamesAreKeys | crates/certifi-types/src/lib.rs:223-240 | Canonical names are in the form routing compares |
| Text.CoversIsLabelSuffix | crates/certifi-server/src/integrations/mod.rs:106-132 | The string suffix test with a dot equals the label suffix test |
| Routing.FindZone | crates/certifi-server/src/integrations/digitalocean.rs:89-103 | The unique longest covering zone, and failure exactly when there is none |
| Routing.FindZonePdns | crates/certifi-server/src/integrations/pdns.rs:150-194 | The PowerDNS variant, which falls back to the last two labels only when no zone covers |
| Routing.FallbackZone | crates/certifi-server/src/integrations/pdns.rs:180-186 | The fallback consists of the last two labels, or of all if there are no more, and so covers the domain |
| Routing.RecordSubname | crates/certifi-server/src/integrations/digitalocean.rs:107-117 | Sub-name joined with zone rebuilds the challenge name, and is the apex mark exactly at the apex |
| Routing.RecordsDoNotCollide | crates/certifi-server/src/integrations/digitalocean.rs:107-117 | Challenges of different domains never share a record of a zone |
| Routing.RoutedFindZoneIff | crates/certifi-server/src/integrations/digitalocean.rs:89-103 | A routed integration finds its zone exactly when a covering zone is spelt in lower case |
| Routing.LowercaseZonesAreFound | crates/certifi-server/src/integrations/digitalocean.rs:89-103 | So lower-case zones are always found |
| Routing.MixedCaseZoneIsMissed | crates/certifi-server/src/integrations/digitalocean.rs:89-103 | And a mixed-case zone is routed to but missed |
| Routing.ChallengeRecords | crates/certifi-server/src/integrations/digitalocean.rs:172-240 | A challenge has the TXT records of its name, whatever their values, and nothing else |
| Routing.Zone.CleanChallenge | crates/certifi-server/src/integrations/digitalocean.rs:172-240 | Removes the name's TXT values except those whose deletion failed, and no other record |
| Routing.Zone.DeployByAdding | crates/certifi-server/src/integrations/digitalocean.rs:129-170 | Success and failure alike leave the values added before the first failing POST plus exactly the stale ones that could not be deleted, and other records untouched; it succeeds exactly when no POST fails |
| Routing.Zone.DeployByReplacing | crates/certifi-server/src/integrations/gandi.rs:109-142 | Success leaves exactly the wanted values, other records untouched; refusal changes nothing |
| Acme.Issuer.IssueCertificate | crates/certifi-server/src/services/acme.rs:197-350 | The outcome is a function of the replies; the order and the finalize request carry the same names, CN first and the others as first mentioned, each once; each name is published once with all its values, nothing after a failed deploy; there is exactly one propagation wait if there is something to tell and every deploy succeeded, and none otherwise; the CA is told challenge by challenge up to the first refusal, only after that wait and while every value stands; every published name gets one removal, except that there are none if and only if the first notification not accepted broke in transport; what stands at every name afterwards is exact, with removals that fail and what a failed deploy leaves, which is not cleaned; finalize is sent only after the order was seen ready, every challenge told and every name cleaned; no phase is gone back to |
| Acme.Issuer.Finish | crates/certifi-server/src/services/acme.rs:322-347 | Finalizing happens once, only from an authorized state, and each later failure has its own outcome |
| Acme.LeftBehind | crates/certifi-server/src/services/acme.rs:299-308 | A run whose one notification breaks in transport ends with its records published and nothing cleaned |
| Acme.Issuer.Authorize | crates/certifi-server/src/services/acme.rs:279-320 | The same up to cleaning: it fails exactly when a deploy fails, a notification is not accepted or the order is never seen ready in time, and says which |
| Acme.Issuer.Publish | crates/certifi-server/src/services/acme.rs:279-308 | Up to the notifications: values of one name go up together, then one wait, then the notifications in turn; nothing is removed, and the failure reported is the first deploy's or the first notification's |
| Acme.Issuer.WaitAndTell | crates/certifi-server/src/services/acme.rs:295-307 | Between the last deploy and the first notification stands exactly one wait |
| Acme.PhasesFollow | crates/certifi-server/src/services/acme.rs:197-350 | The phases of a run are, in this order, the order, the deploys, the wait, the notifications, the order seen ready, the removals and the finalize request |
| Acme.Issuer.Collect | crates/certifi-server/src/services/acme.rs:245-277 | Groups all pending values by name (section 8.4 of RFC 8555), lists their URLs in order, and stops at the first unreadable authorization or one without dns-01, with the matching outcome |
| Acme.WantedIsExact | crates/certifi-server/src/services/acme.rs:245-277 | A value is wanted at a name exactly when some authorization for it is not valid yet and offers that value by dns-01; names and URLs alike |
| Acme.FirstStopIsFirst | crates/certifi-server/src/services/acme.rs:245-266 | The collection ends at the first authorization that is unreadable or, not being valid, offers no dns-01, with the outcome of that one |
| Acme.Issuer.DeployAll | crates/certifi-server/src/services/acme.rs:279-293 | Succeeds exactly when every deploy does, and then every name carries all its values and no other name changed; a failure stops it there, with whatever that deploy left at its name and no other change |
| Acme.Issuer.NotifyAll | crates/certifi-server/src/services/acme.rs:299-307 | Each notification happens while every value stands, and the result is the first answer that was not an acceptance |
| Acme.Issuer.Cleanup | crates/certifi-server/src/services/acme.rs:556-562 | One removal per published name whatever each returns: what could not be removed stays, and no other name changes |
| Acme.Issuer.Withdraw | crates/certifi-server/src/services/acme.rs:288-320 | After the removals each published name holds exactly the wanted values that could not be removed, and the name whose deploy failed what that left |
| Acme.Issuer.PollOrderReady | crates/certifi-server/src/services/acme.rs:435-483 | Ready exactly when some poll in time says so and all earlier ones say to go on; never more than 25 polls |
| Acme.JudgeIsExact | crates/certifi-server/src/services/acme.rs:448-480 | One poll succeeds exactly on a ready order, and fails exactly on no reply, an invalid order, or a pending one with an authorization that is invalid or cannot be fetched |
| Acme.Issuer.Identifiers | crates/certifi-server/src/services/acme.rs:204-210 | The order names the CN first and every requested name once |
| Acme.LookedUp | crates/certifi-server/src/services/acme.rs:517-531 | At notification the CA finds a value exactly when it is wanted at the stripped name too; always for identifiers without a wildcard prefix (section 7.1.4 of RFC 8555) |
| Acme.NamesAgree | crates/certifi-server/src/services/acme.rs:522-531 | The name published to and the name waited for agree exactly for identifiers without a wildcard prefix |
| Hosts.NormalizeRequest | crates/certifi-types/src/lib.rs:230-240 | The sort-and-dedup loop computes the canonical form |
| Hosts.CanonicalNames | crates/certifi-types/src/lib.rs:230-240 | The canonical form lists, in order and once, every normalized name that is neither empty nor the common name |
| Hosts.CanonicalIsExact | crates/certifi-types/src/lib.rs:230-240 | Two requests have equal canonical forms if and only if their normalized CN and sets of other names agree |
| Hosts.CanonicalIdempotence | crates/certifi-types/src/lib.rs:230-240 | Canonicalizing twice changes nothing if and only if no surviving name has white space before its trailing dots |
| Hosts.NormalizeHostIdempotence | crates/certifi-types/src/lib.rs:223-225 | The same exact condition for one name |
| Hosts.NormalizeHostCounterexample | crates/certifi-types/src/lib.rs:223-225 | A name for which it fails |
| Hosts.NormalizeHostShape | crates/certifi-types/src/lib.rs:223-225 | Normal names are lower-case, with no leading space and no trailing dot |
| Text.LowerIsAlphabetic | crates/certifi-types/src/lib.rs:223-240 | Each capital becomes its small letter and nothing else changes |
| Text.SpaceIsWhite | crates/certifi-types/src/lib.rs:223-240 | What is trimmed is ASCII white space |
| Hosts.Sort | crates/certifi-types/src/lib.rs:237 | Ordered, and the same names |
| Hosts.Dedup | crates/certifi-types/src/lib.rs:238 | Strictly ordered, and the same names |
| Authorization.Decide | crates/certifi-server/src/auth.rs:77-113 | From assignment rows through the token ceiling to the verdict: granted if and only if the permission is under the ceiling and held globally, or the list is nonempty and every domain lies in a granting zone by labels |
| Authorization.AuthUser.constructor | crates/certifi-server/src/rbac.rs:406-433 | Grants are exactly the assignment rows, global and scoped apart |
| Authorization.AuthUser.ApplyCeiling | crates/certifi-server/src/auth.rs:244-252 | Every set shrinks to the allowed keys and no further |
| Authorization.AuthUser.CoversDomain | crates/certifi-server/src/auth.rs:100-113 | One domain is covered exactly by a global permission or a granting zone |
| Authorization.AuthUser.HasForDomains | crates/certifi-server/src/auth.rs:77-85 | A list is covered exactly by a global permission or, if nonempty, domain by domain |
| Authorization.ZoneCoversIsInZone | crates/certifi-server/src/rbac.rs:388-392 | The zone test equals the label suffix test on normalized names, and refuses the empty zone |
| Authorization.CeilingOnlyNarrows | crates/certifi-server/src/auth.rs:244-252 | A tighter ceiling never grants more |
| Authorization.RawCheckCoversStoredRow | crates/certifi-server/src/handlers/certificates.rs:187-200 | For a stable request, passing the check on the raw names implies passing it on the stored ones, under all assignments and ceilings |
| Authorization.RawCheckIsExact | crates/certifi-server/src/handlers/certificates.rs:187-200 | For any request the implication holds under all assignments and ceilings if and only if some requested name normalizes to nothing, or the labels of every stored name end in those of a requested one |
| Authorization.RawCheckCounterexample | crates/certifi-server/src/handlers/certificates.rs:187-200 | A request and assignment rows under which the raw check passes and the stored names are refused |
| RoleSync.Roles.Sync | crates/certifi-server/src/handlers/oidc.rs:415-490 | It completes exactly when each of its writes does, one for each grant that comes or goes and one for the flag; a complete sync yields the specified table and admin flag; an abandoned one leaves a table from which a retry yields the same |
| RoleSync.SyncIsExact | crates/certifi-server/src/handlers/oidc.rs:415-490 | OIDC grants are exactly those some mapping gives, at its scope, to a group of the claim; the total adds the previously manual ones, other users are untouched |
| RoleSync.SyncIsIdempotent | crates/certifi-server/src/handlers/oidc.rs:415-490 | A second sync changes nothing |
| RoleSync.ManualGrantUntouchedIff | crates/certifi-server/src/handlers/oidc.rs:455-472 | A manual grant stays manual if and only if no group asks for it, against the comment at lines 411-414 |
| RoleSync.ManualGrantAfterRun | crates/certifi-server/src/handlers/oidc.rs:415-490 | After any history of sign-ins a manual grant is held if and only if no claim ever asked for it or the last one does |
| RoleSync.OidcGrantAfterRun | crates/certifi-server/src/handlers/oidc.rs:415-490 | Any other grant is held if and only if the last claim asks for it |
| RoleSync.Roles.DropUndesired | crates/certifi-server/src/handlers/oidc.rs:443-453 | Deleting in any order, stopped anywhere, keeps the table a retry would reach |
| RoleSync.Roles.InsertMissing | crates/certifi-server/src/handlers/oidc.rs:455-472 | Upserting in any order, stopped anywhere, keeps the table a retry would reach |
| RoleSync.Roles.SetUserAdminStatus | crates/certifi-server/src/rbac.rs:272-319 | When it completes the user holds global SuperAdmin exactly as asked, one who is no administrator holds Operator, everybody holds something, and every other grant stays with its source; the only new row is a manual one for that role. A write that fails leaves the table unchanged, except that a demotion may already have dropped SuperAdmin |
| RoleSync.Roles.MigrateUser | crates/certifi-server/src/rbac.rs:339-362 | One user gets exactly the grant they are owed, judged by what they hold; a failing write leaves the table as it was |
| RoleSync.Roles.MigrateExistingUsers | crates/certifi-server/src/rbac.rs:334-364 | The boot pass over users in any order adds exactly the rows owed; one abandoned at any write leaves a table from which the next boot reaches the same |
| RoleSync.MigrationReconciles | crates/certifi-server/src/rbac.rs:334-364 | Every user then holds a role; a flagged admin holds global SuperAdmin unless a scoped SuperAdmin masks its loss; nothing is taken from anybody, only users who are owed one get a grant, and which one is exact |
| RoleSync.MigrationIsIdempotent | crates/certifi-server/src/rbac.rs:334-364 | Booting again changes nothing |
| RoleSync.MigratedResumes | crates/certifi-server/src/rbac.rs:334-364 | Migrating some of the users first and then all of them gives what migrating all at once gives |
| RoleSync.MakeUniqueUsername | crates/certifi-server/src/handlers/oidc.rs:393-409 | Terminates for every user table with the first free name of base, base-2, base-3 and so on, where a blank base is user |
| RoleSync.AttemptsDiffer | crates/certifi-server/src/handlers/oidc.rs:393-409 | No name of the series is tried twice |
| Timestamps.TextOrderIsTimeOrder | crates/certifi-server/src/services/renewal.rs:43-52 | Text comparison of rendered UTC instants is time comparison, and equality is equality, across 0, 3, 6 and 9 fraction digits (section 5.1 of RFC 3339 promises it for equal widths only) |
| Timestamps.RenderOrder | crates/certifi-server/src/handlers/oidc.rs:143-144 | The strict half, which the purge of old sign-in states uses |
| Timestamps.DaysBeforeYearClosed | crates/certifi-server/src/services/renewal.rs:43-52 | The calendar the order is measured against is the Gregorian one: the days before a year in closed form |
| Timestamps.DaysBeforeMonthTable | crates/certifi-server/src/services/renewal.rs:43-52 | And the days before each month |
| Timestamps.NanosElapsed | crates/certifi-server/src/services/renewal.rs:43-52 | The instant is that many nanoseconds: whole days and the time of the last |
| Timestamps.DayOrder | crates/certifi-server/src/services/renewal.rs:43-52 | Calendar fields compared left to right order days, leap years included |
| Timestamps.FractionOrder | crates/certifi-server/src/services/renewal.rs:43-52 | Fractions of different widths before the UTC offset compare by value |
| Timestamps.PadOrder | crates/certifi-server/src/services/renewal.rs:43-52 | Equal-width decimals compare by value |
| Sweep.Sweeper.CheckRenewals | crates/certifi-server/src/services/renewal.rs:41-90 | In one sweep every due or failed-retryable row is attempted, none more than twice, and twice exactly when its due attempt failed; other rows are untouched |
| Sweep.Sweeper.RunScheduler | crates/certifi-server/src/services/renewal.rs:14-30 | Over any number of days, each with its sweep of every row, the failure mails are, one for one, the failed attempts that began from a row not failed, and an attempt fails exactly when its issuance does |
| Sweep.Sweeper.RenewCert | crates/certifi-server/src/services/renewal.rs:126-193 | One attempt succeeds exactly when the issuance does and ends active with its expiry, or failed with the old one, and mails only on the way into failed |
| Sweep.Sweeper.Pass | crates/certifi-server/src/services/renewal.rs:58-65 | Each selected row gets exactly one more attempt, all others none |
| Sweep.Sweeper.Select | crates/certifi-server/src/services/renewal.rs:47-56 | The query returns exactly the matching rows, each once |
| Sweep.SweptIsExact | crates/certifi-server/src/services/renewal.rs:41-66 | What a sweep owes a row, counted: one attempt if due or failed-retryable, a second exactly when a due one failed, none otherwise |
| Sweep.MailsAreSeparated | crates/certifi-server/src/services/renewal.rs:135-138 | Between two failure mails for a row lies a success |
| Sweep.MailedIsExact | crates/certifi-server/src/services/renewal.rs:135-138 | There is one failure mail for each failed attempt that began at a row not failed, in their order, and no other |
| Sweep.MissingExpiryIsRetried | crates/certifi-server/src/services/renewal.rs:43-56 | A row without an expiry is never due, and retried whenever it failed |
| Sweep.DueIsByTime | crates/certifi-server/src/services/renewal.rs:43-52 | For server-written expiries the text filter selects by time |
| Sweep.UnreadableExpiryIsAlwaysDue | crates/certifi-server/src/services/renewal.rs:245 | An unreadable expiry, stored as empty text, makes the row due at every sweep |
| PfxFiles.Target.WritePfxIfChanged | crates/certifi-client/src/bin/cli.rs:920-946 | Reports no change exactly when sidecar, archive and password file are in place for the downloaded leaf, and stops after any number of its three writes with the files specified |
| PfxFiles.Target.WritePassword | crates/certifi-client/src/bin/cli.rs:379-387 | Writes exactly when the content differs |
| PfxFiles.UnchangedIsRight | crates/certifi-client/src/bin/cli.rs:909-946 | After any history of interrupted runs, renewals, new passwords and lost files, an unchanged report means the archive holds the leaf just downloaded; and the password fits if passwords were never replaced or the password file never lost |
| PfxFiles.RunsStayOrdered | crates/certifi-client/src/bin/cli.rs:909-946 | The sidecar's leaf never runs ahead of the archive's |
| PfxFiles.RunsFitUnlessLost | crates/certifi-client/src/bin/cli.rs:935-944 | Without a lost password file the password fits or the sidecar is out of date |
| PfxFiles.RunsFitUnlessReplaced | crates/certifi-client/src/bin/cli.rs:935-944 | Without a replaced password everything on disk carries the one there is |
| PfxFiles.UnseenMismatch | crates/certifi-client/src/bin/cli.rs:926-944 | The exact interrupted run that leaves a mismatch later runs do not see |
| PfxFiles.MismatchRun | crates/certifi-client/src/bin/cli.rs:926-944 | A history with a lost password file and a replaced password that reaches a mismatch no later run sees |
| PfxFiles.BothCausesNeeded | crates/certifi-client/src/bin/cli.rs:909-946 | Such a mismatch is reachable if and only if password files may be lost and passwords replaced |
| PfxFiles.FullRunRepairs | crates/certifi-client/src/bin/cli.rs:920-946 | Any uninterrupted rewrite leaves the archive the server built, the password that opens it and the leaf downloaded first; they agree exactly when the server was not renewed between the two downloads, and otherwise the next run sees it |
| PfxFiles.AnythingBetween | crates/certifi-client/src/bin/cli.rs:909-946 | Between two runs the server may be renewed any number of times and its password replaced, and any of the three files lost |

## Left out

- Lifecycle.PasswordOutlivesRenewals: starts from rows whose material has one home, since a row with a column password under the backend can lose it (SecretStore.PasswordSurvives).
- Lifecycle.RunsKeepPemsTogether: takes the state before the run to be sound, as the empty table is; tables edited by hand are not covered.
- SecretStore.Store.WriteSecret: a backend that alters a secret may lose or change fields but not add any.
- Routing.Zone.CleanChallenge: one complete record listing; provider pagination, and the single-page listing of Hetzner and Cloudflare, are not modelled.
- Propagation.WaitForPropagation: takes discovery as any function of the name; Propagation.DiscoveredPass, Propagation.UnroutableStaysDropped and Propagation.GivenUpWasUnroutable instantiate it with the walk.
- Lifecycle.UnguardedClaim: the `pending` write of `renew_cert`, whose failure the source ignores (`renewal.rs:140-146`), always lands; a sweep that goes on without it is not modelled.
- Acme.Issuer.DeployAll: a deploy reported as successful leaves exactly the wanted values; Routing.Zone.DeployByAdding says which stale ones can stay besides.
- DnsWalk.ResolveHost: the 26 root addresses are one, since only their being there matters, and a query that tries servers in turn is one step of the network.
- Acme.Issuer.IssueCertificate: certificate polling after finalize and CSR creation are single outcomes; retries of a transport error do not exist in the source.
- RoleSync.MakeUniqueUsername: counts without bound, where the source counts in 32 bits.
- Storing the account key and integration configurations (`secret_store.rs:328-409`), which would add only easy members.
- The VACUUM after a migration: file contents below the level of rows.
- Hetzner's and Cloudflare's `find_zone` and clean-then-add deploys have the shape proved for DigitalOcean, PowerDNS' replacement that of Gandi.
- Non-ASCII text: host names, user names and zone names are ASCII, so case folding is the ASCII one.
- HTTP, DNS wire format, TLS, JSON and SQL text; cryptography, CSR and PFX building; the OIDC exchange and the backend's login.
- Settings, tokens, users, docs, events, audit and mail handlers, the web interface and the client's prompts: thin code with no state worth a proof.
- Mails for expiring certificates whose renewal is off, and success mails.
