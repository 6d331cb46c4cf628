# KNXVault, verified

A Dafny model of the state machines and algorithms on which KNXVault's guarantees rest, with proofs of what they promise.

| file | models |
|---|---|
| `AuditChain.dfy`, `AuditLog.dfy`, `AuditHistory.dfy` | the audit hash chain: hashing, validation, append through the replicated state machine, export, restore, `Verify` |
| `KeyRing.dfy`, `KeyHistory.dfy`, `Rewrap.dfy` | the versioned master-key ring, sealing under it, and the background job that re-wraps data keys |
| `Glob.dfy`, `Rbac.dfy`, `PolicySync.dfy` | resource patterns, policy inclusion and verdicts, delegation, and the hash-guarded policy cache |
| `Wrapping.dfy` | single-use response wrapping on any number of nodes, step by step |
| `GaloisField.dfy`, `Shamir.dfy`, `Seal.dfy` | arithmetic in GF(2^8), secret sharing over it, and the seal with its backoff and its share ceremony |
| `RateLimiter.dfy`, `Lockout.dfy` | the token-bucket limiter and the login lockout, both with eviction |
| `JsonTexts.dfy` | what JSON guarantees about the details of an audit entry |
| `Outcomes.dfy`, `Numbers.dfy` | shared results and arithmetic |

Objects that the Go code updates in place are classes; each method is tied to a function or a relation on plain values, and the results about whole runs are lemmas about those. Code that other packages supply enters as parameters: authenticated encryption is a pair of functions with the laws of `Aead.Lawful` (opening undoes sealing, 28 bytes of overhead), hashes are functions, clock readings, nonces, random coefficients and storage failures are arguments.

No hash is assumed to be injective: a function to 64 hexadecimal characters cannot be. Where two equal hashes must mean equal inputs, the lemma asks that the inputs at hand do not collide (`CollisionFree`, `CleanReads`, `CleanHistory`).

## What the code does that its documentation does not say

- **Audit order.** The chain follows the order of appends, but `AuditRepository.List`, which both `Verify` and the export read, sorts by timestamp. A log appended by nodes with skewed clocks is chained and is still reported as broken. `VerifyValidIff` and `ExportRestoresIff` give the exact condition, `SkewedClocksFail` a log that misses it, and `AgreedClocksVerify` the case of agreeing clocks. A log of more than 1,000,000 entries also never verifies.
- **Hashed fields.** Joining fields with `|` hides where one ends and the next begins. `BodyFixesEventIff` and `HeadFixesEventsIff` give the exact condition: the hashed text, and the head of a chain, determine the fields exactly when actor, action, resource and status do not contain the separator. Details may contain it, because in JSON it stands only inside string literals (`NoJsonBehindSeparator`). An entry with a separator in one of the four fields shares its hash with a different one that has the same details (`SeparatorAmbiguity`).
- **Two glob matchers.** A `*` stays within a path segment in `internal/auth` and crosses segments in the copy used for policies (`PolicyEngineIsStrictlyWider`), although docs/audit/security-remediation-w77-3cycle-2026-07-17.md:31 reports it as one path segment. `MatchersAgreeAtDepth` says where they agree: for a pattern without `**`, on exactly the texts with as many slashes as the pattern; `MatchersAgreeIff`: on all texts exactly when it has no star. A pattern without a single `*`, whatever its `**`, means the same to both (`MatchersAgreeWithoutStar`). For patterns that mix `*` and `**` only the inclusion `PolicyEngineIsWider` is stated.
- **Delegation and denies.** A delegate never reaches a policy that its parent does not, but may leave out a parent's deny (`DelegateMayEscapeDeny`). `DelegateNeverExceedsIff` says which delegations never give more than the parent has: those that allow nothing, or that reach every deny the parent reaches.
- **Bucket limit.** docs/backlog.md:491 promises a bounded map, but making room never removes the bucket of the empty key. While that bucket is the oldest, each new client adds one, so the excess has no bound (`EmptyKeyIsNeverEvicted`, `NewcomersPileUp`). `SizeKeptIff` names the requests that grow a full map, whatever its size, and `BoundedIff` says of every sequence of requests when all its runs stay within the limit. A map left over its limit by lowering the limit stays over it until buckets go idle (`StepSize`).
- **Failing reads in unwrapping.** A comment at internal/service/wrapping.go:214 says that a node falls back to its own copy only for what was never stored, but it does so on every failing read. The node that wrapped the token then finds a copy that says unused and carries no version, and writes without compare-and-set: `BlindReadReturnsAgain` gives, after any run, two unwraps that return the payload. `SingleUse` holds for all runs without such a read; other reads may fail. Even then a second return needs a removal that failed, or a fetch before the removal (`RemovedNeverReturns`).
- **Signatures after a restore.** Backup records carry no signatures, so a log restored on a node with a signing key is never reported as valid (`RestoredIsUnsigned`).
- **Long unseal keys.** A share of a key of more than 255 bytes is too long to be submitted (`SharesGiveShortKeys`); such a key can only be presented whole.
- **Combining shares.** The message for shares that fail to combine is never given (`GatheredCombines`).

## Model

| member | source | states |
|---|---|---|
| `AuditChain.ValidateRecordChain` | internal/audit/chain.go:35-45 | accepts exactly the lists in which every hash is the digest of the previous hash, time, actor, action, resource, status and details, in this order and joined by the separator; otherwise names the first record for which it is not |
| `AuditChain.ValidateChain` | internal/audit/chain.go:19-32 | the same for lists in which entries may be missing: the error names the first missing entry or the first broken link, and all before it is chained |
| `AuditChain.SplitAtSeparator` | internal/audit/service.go:211-227 | a text without the separator can be read back from the front of a joined payload |
| `AuditChain.SameHash` | internal/audit/chain.go:14-16 | in chains that do not collide, equal hashes mean equal previous hash, time text and joined fields |
| `AuditChain.HeadFixesChain` | internal/audit/chain.go:19-32 | two accepted lists with the same last hash have the same length and agree entry by entry on hash, time text and joined text |
| `AuditChain.HeadFixesEvents` | internal/audit/service.go:211-227 | and on every hashed field, when actor, action, resource and status of one list contain no separator and the details of both are JSON |
| `JsonTexts.EncodedIsJsonText` | internal/audit/service.go:215 | whatever an encoder writes closes its string literals and has no separator outside them |
| `JsonTexts.NoJsonBehindSeparator` | internal/audit/service.go:215-224 | what follows a separator in a JSON text is not JSON itself |
| `AuditChain.BodyFixesEventIff` | internal/audit/service.go:211-227 | among entries with JSON details, the joined text determines every field exactly when actor, action, resource and status contain no separator |
| `AuditChain.HeadFixesEventsIff` | internal/audit/chain.go:19-32 | the head of a chain determines every field of every entry, against all chains with JSON details that it does not collide with, exactly when no actor, action, resource or status contains the separator |
| `AuditChain.SeparatorAmbiguity` | internal/audit/service.go:211-227 | every entry with a separator in one of the four fields shares its hash, under every digest, with a different one that has the same time and details |
| `AuditChain.HashesDistinct` | internal/audit/chain.go:19-32 | no hash occurs twice in a chain |
| `AuditLog.AuditRepository.Append` | internal/repository/memory/audit_repository.go:29-43 | an entry with action and status is put last, unchanged but for its id, the new length of the log; any other changes nothing |
| `AuditLog.AuditRepository.List` | internal/repository/memory/audit_repository.go:46-85 | a slice of the list of all entries not older than asked for, each as often as in the log, by instant and then id in the direction asked; the slice begins at the offset and has as many entries as asked for, 100 if none are |
| `AuditLog.SortedLists` | internal/repository/memory/audit_repository.go:46-85 | filtering and sorting give such a list, ascending or descending |
| `AuditLog.SortEntries` | internal/repository/memory/audit_repository.go:46-85 | the sorted list is a permutation in which nothing precedes an earlier element |
| `AuditLog.ListedOldest` | internal/repository/memory/audit_repository.go:46-85 | an ascending listing from the start is the prefix of the log sorted by time |
| `AuditLog.AuditRepository.LatestHash` | internal/repository/memory/audit_repository.go:88-95 | the hash of the entry appended last, empty for an empty log |
| `AuditLog.AuditRepository.Clear` | internal/repository/memory/clear.go:39-45 | empties the log and starts the numbering anew |
| `AuditLog.HandleAuditAppend` | internal/raft/handlers.go:221-238 | the log grows by the submitted entry: every field, signature and origin as submitted, the time too unless it was unset; only the hash is new, taken of the stored fields and the hash before |
| `AuditHistory.LogHoldsSubmissions` | internal/raft/handlers.go:221-238 | in every history without a restore, the log holds exactly the submissions with action and status, unchanged and in order |
| `AuditLog.Export` | internal/backup/export.go:144-159 | the records of the oldest entries by time, as many as asked for, 10,000 if none are, or all there are |
| `AuditLog.ValidateAuditRecords` | internal/backup/import.go:221-251 | accepts records without any hash, and otherwise exactly those in which every hash is taken of its fields and the hash before |
| `AuditLog.Restore` | internal/backup/import.go:118-124 | replaces the log by the imported records, numbered anew and without signature and origin, stopping at an invalid one; refuses without change when validation fails |
| `AuditLog.Verify` | internal/audit/service.go:118-185 | valid exactly when the entries read are chained, end in the head of the log, and carry the signatures a signing key asks for; otherwise the fault is that of the first unsound entry, named by its id, or of the head |
| `AuditLog.InOrderIsOldest` | internal/repository/memory/audit_repository.go:46-85 | when the first entries are in time order and no later entry is older, reading by time gives exactly them |
| `AuditLog.OldestIsInOrder` | internal/repository/memory/audit_repository.go:46-85 | and only then |
| `AuditLog.OldestChainedIff` | internal/audit/chain.go:19-32 | the oldest entries of a chained log form a chain exactly when they are its first entries in order |
| `AuditHistory.EveryLogIsChained` | internal/raft/handlers.go:221-238 | every log reached by appends, exports and restores is chained and numbered from 1 |
| `AuditHistory.VerifyValidIff` | internal/audit/service.go:118-185 | on every such log `Verify` without a signing key answers valid exactly when the log is in time order and within the read limit |
| `AuditHistory.SignedVerifyValidIff` | internal/audit/service.go:118-185 | with a signing key, moreover exactly when every entry carries the signature of its hash and the signature given is that of the last hash |
| `AuditLog.RestoredIsUnsigned` | internal/backup/import.go:118-124 | a restored log that is not empty never verifies under a signing key |
| `AuditHistory.ExportRestoresIff` | internal/backup/import.go:221-251 | an export of such a log is accepted by restore exactly when its entries are the first in order, and then restores that prefix |
| `AuditHistory.AgreedClocksVerify` | internal/audit/service.go:118-185 | when every append carries a time no earlier than those before, every reachable log verifies and every export restores |
| `AuditHistory.SkewedClocksFail` | internal/repository/memory/audit_repository.go:46-85 | two appends with decreasing times give a log that neither verifies nor restores |
| `Glob.MatchGlob` | internal/auth/glob.go:34-93 | terminates and accepts exactly the texts that the remaining tokens match one after the other |
| `Glob.AcceptsIffMatches` | internal/auth/glob.go:34-93 | which is the declarative relation: some division of the text gives each token a piece that it may consume |
| `Glob.MatchResourceGlob` | internal/auth/glob.go:12-20 | the relation, or everything for the two catch-all patterns; without wildcards a pattern matches only itself |
| `Glob.MatchResourceLegacy` | internal/auth/glob.go:23-32 | a trailing `/*` accepts the path itself and all below it, other patterns only themselves, the two catch-alls everything |
| `Glob.MatchResource` | internal/domain/auth/policy.go:93-171 | the policy engine's copy, in which a single star also crosses slashes; for every path without wildcards, the path with a trailing `/*` accepts exactly the path itself and all below it |
| `Glob.WildcardFreeIsEquality` | internal/auth/glob.go:34-93 | a pattern without wildcards accepts exactly its own text |
| `Glob.WildcardMeans` | internal/auth/glob.go:34-93 | what the first wildcard of a pattern stands for: `?` one character but a slash, `*` any run without slashes (with them in the policy engine), `**` any run, `**/` nothing, a run that ends in a slash, or all the rest; the rest of the pattern accepts the rest of the text |
| `Glob.SingleStarsKeepDepth` | internal/auth/glob.go:34-93 | without `**`, an accepted text has as many slashes as the pattern |
| `Glob.DoublingAStarKeepsMatches` | internal/auth/glob.go:34-93 | turning a lone `*` into `**` never removes a match |
| `Glob.PolicyEngineIsWider` | internal/domain/auth/policy.go:93-171 | whatever the authorization package's matcher accepts, the policy engine accepts |
| `Glob.MatchersAgreeAtDepth` | internal/domain/auth/policy.go:93-171 | for every pattern without `**` and not a catch-all, the authorization package's matcher accepts exactly what the policy engine accepts with as many slashes as the pattern |
| `Glob.MatchersAgreeWithoutStar` | internal/domain/auth/policy.go:93-171 | a pattern without a single star means the same to both |
| `Glob.MatchersAgreeIff` | internal/domain/auth/policy.go:93-171 | a pattern without `**` that is not a catch-all means the same to both, on all texts, exactly when it has no star |
| `Glob.PolicyEngineIsStrictlyWider` | internal/domain/auth/policy.go:93-106 | an instance: `kv/*` accepts `kv/a/b` in the policy engine only |
| `Rbac.RBAC.UpsertPolicy` | internal/auth/rbac.go:39-43 | sets the policy of that name and no other |
| `Rbac.RBAC.DeletePolicy` | internal/auth/rbac.go:46-50 | removes the policy of that name and no other |
| `Rbac.RBAC.ReloadFromPersisted` | internal/auth/rbac.go:63-73 | leaves under each persisted name the last policy of that name, under other names the defaults, nothing else; missing policies are skipped |
| `Rbac.DefaultsHold` | internal/auth/rbac.go:20-36 | the defaults are under their own names, none hiding another |
| `Rbac.RBAC.Walk` | internal/auth/authz.go:51-74 | the depth-first walk terminates on cycles, visits only reachable names, and everything it newly visits is closed under inclusion |
| `Rbac.RBAC.ResolvePolicyNames` | internal/auth/authz.go:51-74 | every name reachable through includes, exactly once, and nothing else |
| `Rbac.RBAC.AuthorizeDetailed` | internal/auth/authz.go:19-48 | allows exactly when some listed allow policy covers the request and no listed deny policy does; names the first deny, else the last allow, else nothing |
| `Rbac.RBAC.Authorize` | internal/auth/rbac.go:76-78 | allows exactly when some reachable allow policy covers the request and no reachable deny policy does |
| `Rbac.RBAC.ValidateDelegatedPolicies` | internal/auth/agent.go:133-149 | accepts exactly when everything the requested policies reach is reached by the parent's |
| `Rbac.VerdictIgnoresOrder` | internal/auth/authz.go:19-74 | the verdict depends on the set of names, not on order or repetition |
| `Rbac.DelegateWithinParent` | internal/auth/agent.go:133-149 | what an accepted delegate may do, some policy of the parent allows, and only an explicit deny can refuse the parent |
| `Rbac.DelegateNeverExceedsIff` | internal/auth/agent.go:133-149 | an accepted delegation gives no more than the parent has, for all requests, exactly when the requested policies reach no allow policy or reach every deny policy that the parent reaches |
| `Rbac.DelegateMayEscapeDeny` | internal/auth/agent.go:133-149 | an accepted delegation in which the delegate may do what the parent is denied |
| `PolicySync.SortByName` | internal/service/policies.go:144-153 | sorting keeps the policies, each as often as before |
| `PolicySync.SortByNameOrdered` | internal/service/policies.go:144-153 | and puts them in order of name |
| `PolicySync.OrderedIsAlphabetical` | internal/service/policies.go:144-153 | where the first differing character decides, and a name comes before its extensions |
| `PolicySync.HashIgnoresOrder` | internal/service/policies.go:144-153 | the hash of a policy list does not depend on the order in which it was listed |
| `PolicySync.SameHashSameCache` | internal/service/policies.go:124-153 | non-empty lists with equal hash load the same cache |
| `PolicySync.RefreshIsFaithful` | internal/service/policies.go:107-142 | after any history of local and remote changes, a refresh leaves the defaults overlaid by the list just read, whether it reloads or skips |
| `PolicySync.RefreshMirrors` | internal/service/policies.go:107-142 | whatever happens between its read and its end, a refresh leaves each policy stored at the read, the defaults under other names, and nothing else |
| `PolicySync.SkippingRefinesReloading` | internal/service/policies.go:124-142 | after every history, the cache equals that of a node that always reloads |
| `PolicySync.PolicyRepository.Save` | internal/repository/memory/policy_repository.go:29-42 | stores under its name a policy with name, effect, resources and capabilities or actions, none of whose patterns holds two separate `**`; refuses others without change |
| `PolicySync.AmbiguousIff` | internal/domain/auth/policy.go:34-53 | a pattern is refused exactly when it holds two double stars that do not overlap |
| `PolicySync.PolicyRepository.List` | internal/repository/memory/policy_repository.go:57-67 | every stored policy once, in order of name, the first differing character deciding |
| `PolicySync.PolicyRepository.Delete` | internal/repository/memory/policy_repository.go:70-78 | removes the policy and says whether it was there |
| `PolicySync.PolicyService.SavePolicy` | internal/service/policies.go:47-57 | changes repository and cache alike and forgets the hash, or changes neither when the policy is refused |
| `PolicySync.PolicyService.DeletePolicy` | internal/service/policies.go:70-80 | removes from both and forgets the hash, or changes neither |
| `PolicySync.PolicyService.LoadIntoRBAC` | internal/service/policies.go:107-121 | the cache holds the stored policies, the defaults under other names and nothing else, and the hash is that of the list read |
| `PolicySync.PolicyService.SyncRBAC` | internal/service/policies.go:124-142 | the same outcome, also when equal hashes let it skip the reload |
| `KeyRing.NewKeyRing` | internal/crypto/keyring.go:25-35 | a key of 32 bytes becomes version 1 of a new ring, active and in the legacy format; any other is refused |
| `KeyRing.Keyring.SetActiveVersion` | internal/crypto/keyring.go:45-53 | activates a known version, refuses others without change |
| `KeyRing.Keyring.AddKey` | internal/crypto/keyring.go:56-72 | stores the key given under the version given, activates it and ends the legacy format; otherwise changes nothing and says whether version zero, the size or a known version is the reason |
| `KeyRing.Keyring.Versions` | internal/crypto/keyring.go:75-84 | the known versions in increasing order |
| `KeyRing.Keyring.EncryptDEK` | internal/crypto/keyring.go:97-121 | seals a DEK of 32 bytes under the active key, behind the version byte except in the legacy format |
| `KeyRing.Keyring.DecryptDEK` | internal/crypto/keyring.go:124-170 | opens under the named version when that yields 32 bytes, else the whole blob under the lowest version that does, else fails, and then no version does |
| `KeyRing.Keyring.DEKNeedsReencrypt` | internal/crypto/keyring.go:173-184 | whether the blob is in another than the active format |
| `KeyRing.Keyring.VersionedDEKVersion` | internal/crypto/keyring.go:186-208 | the version a blob names, if it opens under it to 32 bytes |
| `KeyRing.Keyring.ReencryptDEK` | internal/crypto/keyring.go:211-218 | the result is in the active format, needs no re-wrapping and holds the same DEK |
| `KeyRing.Service.RotateMasterKey` | internal/crypto/service.go:47-60 | stores the key given under the version after the highest, activates it, and what is wrapped next is that version and the DEK sealed under this key; otherwise, exactly for a wrong size or a full ring, changes nothing |
| `KeyRing.Service.LoadPreviousMasterKey` | internal/crypto/service.go:64-84 | stores the key given under the version after the highest and leaves the active one as it was; otherwise, exactly for a wrong size or a full ring, changes nothing |
| `KeyRing.Service.Seal` | internal/crypto/service.go:155-170 | the ciphertext under the DEK, and the DEK in the active format |
| `KeyRing.Service.Open` | internal/crypto/service.go:174-181 | unwraps the DEK and opens the ciphertext under it |
| `KeyRing.LegacyIsNotNamed` | internal/crypto/keyring.go:186-208 | a legacy blob is never read as a versioned one, whatever its first byte |
| `KeyRing.UnwrapWrapped` | internal/crypto/keyring.go:124-170 | a blob in either format unwraps to its DEK |
| `KeyRing.NeedsRewrapIff` | internal/crypto/keyring.go:173-208 | a blob made by the ring needs re-wrapping exactly when it is not in the active format |
| `KeyRing.WrapsSurvives` | internal/crypto/keyring.go:56-72 | a blob stays a wrapping of its DEK when the ring gains keys |
| `KeyHistory.EveryBlobUnwraps` | internal/crypto/keyring.go:124-170 | after any sequence of additions, rotations, previous-key loads, activations and re-wraps, every blob the ring ever made unwraps to its DEK |
| `KeyHistory.OpenUndoesSeal` | internal/crypto/service.go:155-181 | `Open` gives back what `Seal` sealed, whatever happens to the ring before and in between |
| `KeyHistory.KeysAreNeverOverwritten` | internal/crypto/keyring.go:56-72 | a version once present keeps its key |
| `KeyHistory.ServiceVersions` | internal/crypto/service.go:47-84 | through the service, the versions are exactly 1..n with n at most 255 |
| `KeyHistory.ServiceKeys` | internal/crypto/service.go:47-84 | and version v holds the v-th key that the service accepted, the active key being that of the last rotation |
| `Rewrap.RingMadeIsServiceable` | internal/service/masterkey.go:79-136 | blobs made by the ring can all be re-wrapped when storage takes the writes |
| `Rewrap.MasterKeyService.RewrapStore` | internal/service/masterkey.go:79-136 | one repository's loop re-wraps stale blobs up to the budget, keeps every DEK, leaves the others alone, and counts exactly what it changed, also when it stops on an error |
| `Rewrap.MasterKeyService.ReencryptDEKs` | internal/service/masterkey.go:79-136 | one call re-wraps exactly min(limit, stale) blobs, with 100 for a limit that is not positive, authorities first, and keeps every DEK |
| `Rewrap.RepeatedBatches` | internal/service/masterkey.go:79-136 | k calls in a row leave max(0, stale - k * limit) stale blobs |
| `Rewrap.Converges` | internal/service/masterkey.go:79-136 | none is stale exactly from the ceil(stale / limit)-th call on |
| `Wrapping.SingleUse` | internal/service/wrapping.go:119-237 | in every interleaving on any number of nodes, with writes that fail or lose their reply, removals that fail and reads that fail, at most one unwrap of a token returns a payload, provided no read of a stored token fails on a node whose copy is unused and without version |
| `Wrapping.BlindReadReturns` | internal/service/wrapping.go:209-237 | an unwrap after such a read returns the payload whenever it is still there, whatever has happened to the token |
| `Wrapping.BlindReadReturnsAgain` | internal/service/wrapping.go:209-237 | so after any run a token can be returned twice |
| `Wrapping.RemovedNeverReturns` | internal/service/wrapping.go:104-153 | in every run, blind reads included: once a payload has been removed, by the unwrap that returns it or by a wrap that failed, it is in no later cubbyhole, and no unwrap that had not fetched it by then ever returns it |
| `Wrapping.PayloadStays` | internal/service/wrapping.go:82-153 | and no other step removes or changes a payload |
| `Wrapping.ReturnsWhatWasWrapped` | internal/service/wrapping.go:119-153 | and it returns the payload that was wrapped, checked no later than the expiry |
| `Wrapping.ExpiredNeverReturns` | internal/service/wrapping.go:119-153 | a request whose expiry check fails never returns, whatever happens afterwards |
| `Wrapping.UnwrapUndoesWrap` | internal/service/wrapping.go:82-153 | after any run, a wrap followed by an unwrap in time returns the payload, on another node too when metadata is shared |
| `Wrapping.WrapCallIsRun` | internal/service/wrapping.go:82-116 | the sequential `Wrap` is a run of the protocol's steps |
| `Wrapping.UnwrapCallIsRun` | internal/service/wrapping.go:119-153 | the sequential `Unwrap` is a run of the protocol's steps with the same outcome |
| `Wrapping.Storage.PutAtomic` | internal/repository/memory/secret_repository.go:115-143 | writes the next version exactly when the compare-and-set passes and storage takes the write |
| `Wrapping.WrappingService.GetMeta` | internal/service/wrapping.go:209-237 | the stored metadata with its version, else, also when the read fails, what the node itself remembers |
| `Wrapping.WrappingService.PutMeta` | internal/service/wrapping.go:183-207 | remembers the metadata and, when shared, writes it by compare-and-set |
| `Wrapping.WrappingService.Wrap` | internal/service/wrapping.go:82-116 | stores the payload and unused metadata; the time to live is the one asked for from 1 to 3600 seconds, 60 if none is and 3600 if more is; takes the payload back when the metadata is refused, and touches no other token |
| `Wrapping.WrappingService.Unwrap` | internal/service/wrapping.go:119-153 | refuses exactly unknown, used and expired tokens, marks the token used before it reads the payload, returns the payload stored and removes it and no other |
| `Wrapping.WrappingService.Lookup` | internal/service/wrapping.go:156-175 | reports the time left and the expiry of a token that is neither used nor expired, and remembers the metadata it read |
| `GaloisField.GfMul` | internal/crypto/shamir/shamir.go:111-125 | the shift-and-add loop computes the product of the field |
| `GaloisField.TimesX` | internal/crypto/shamir/shamir.go:111-125 | multiplying by x shifts the bits and reduces by the polynomial 0x11b, bit by bit |
| `GaloisField.GfExp` | internal/crypto/shamir/shamir.go:134-144 | square-and-multiply computes the power |
| `GaloisField.GfInv` | internal/crypto/shamir/shamir.go:127-132 | times its argument the result is one, and it is zero for zero |
| `GaloisField.GfDiv` | internal/crypto/shamir/shamir.go:146-151 | times the divisor the result is the dividend, and it is zero for a zero divisor |
| `GaloisField.MulCommutes` | internal/crypto/shamir/shamir.go:111-125 | multiplication commutes |
| `GaloisField.MulAssociates` | internal/crypto/shamir/shamir.go:111-125 | multiplication associates |
| `GaloisField.MulDistributes` | internal/crypto/shamir/shamir.go:109-125 | multiplication distributes over exclusive or |
| `GaloisField.Pow256` | internal/crypto/shamir/shamir.go:134-144 | every element is its own 256th power |
| `GaloisField.Inverse` | internal/crypto/shamir/shamir.go:127-132 | the 254th power of a non-zero element is its inverse |
| `GaloisField.DivMul` | internal/crypto/shamir/shamir.go:146-151 | multiplying by a non-zero divisor undoes the division |
| `Shamir.EvalPoly` | internal/crypto/shamir/shamir.go:80-87 | Horner's loop evaluates the polynomial |
| `Shamir.InterpolateLoop` | internal/crypto/shamir/shamir.go:90-106 | the double loop computes Lagrange's sum |
| `Shamir.InterpolateRecovers` | internal/crypto/shamir/shamir.go:90-106 | through at least as many distinct points as a polynomial has coefficients, interpolation gives the polynomial, at every argument |
| `Shamir.Split` | internal/crypto/shamir/shamir.go:14-37 | share k holds k + 1 and the values there of one polynomial per byte, with the byte as constant term; succeeds exactly for 1 <= t <= n <= 255, a non-empty secret and a source of randomness that does not fail |
| `Shamir.Combine` | internal/crypto/shamir/shamir.go:40-78 | interpolates the last share per coordinate at zero, with one result whatever order the map is iterated in; each error is given for exactly its flaw |
| `Shamir.LastPerXIff` | internal/crypto/shamir/shamir.go:53-61 | of several shares with one coordinate the last one counts |
| `Shamir.SecretIgnoresOrder` | internal/crypto/shamir/shamir.go:65-76 | the order of the points is of no account, also for points that no split produced |
| `Shamir.CombinedIgnoresOrder` | internal/crypto/shamir/shamir.go:40-78 | lists of the same shares give the same result, errors included |
| `Shamir.CombineUndoesSplit` | internal/crypto/shamir/shamir.go:40-78 | any list of shares of one split with at least t different coordinates, repeated or not, combines to the secret |
| `Shamir.AnyPickRecovers` | internal/crypto/shamir/shamir.go:14-78 | any t different positions of the list that `Split` returns are enough |
| `Shamir.FewSharesHideTheByte` | internal/crypto/shamir/shamir.go:26-35 | fewer than t coordinates determine nothing: an involution on the dealer's choices turns one secret byte into any other and keeps all the values held |
| `Shamir.FewSharesHideTheSecret` | internal/crypto/shamir/shamir.go:26-35 | the same for whole secrets and whole shares |
| `Seal.SealState.constructor` | internal/app/seal.go:38-45 | starts sealed exactly when a key is configured, with threshold 1 and no shares |
| `Seal.SealState.SetUnsealThreshold` | internal/app/seal.go:48-59 | sets the threshold, at least 1, and drops the shares gathered |
| `Seal.SealState.SetStateFile` | internal/app/seal.go:66-85 | seals exactly when a key is configured or the file says so, and never unseals |
| `Seal.SealState.Seal` | internal/app/seal.go:100-108 | seals and writes the marker |
| `Seal.SealState.Persist` | internal/app/seal.go:262-272 | writes the marker for the present state, if a file is configured |
| `Seal.SealState.MarkUnsealed` | internal/app/seal.go:219-226 | opens, clears counter and shares, writes the marker |
| `Seal.SealState.UnsealBackoff` | internal/app/seal.go:238-260 | the time left of the pause after the last failure, never more than 30 seconds |
| `Seal.SealState.Unseal` | internal/app/seal.go:112-128 | answers true exactly when the right key is presented outside backoff, and then the vault is open; otherwise it stays as it was, with a failure counted unless there is no key or a pause |
| `Seal.SealState.UnsealProgress` | internal/app/seal.go:137-148 | how many shares wait, and how many are needed |
| `Seal.SealState.SubmitShare` | internal/app/seal.go:152-217 | answers unsealed exactly when the shares waiting with this one combine to the right key; says how many wait and how many are needed, and the message names the cause |
| `Seal.ShareTells` | internal/app/seal.go:152-217 | the answer to a share agrees with the vault afterwards |
| `Seal.ShareExplains` | internal/app/seal.go:152-217 | each message has its cause, and says what becomes of the waiting shares |
| `Seal.Delay` | internal/app/seal.go:238-260 | the pauses are 1, 2, 4, 8, 16 and from then on 30 seconds |
| `Seal.StepKeepsValid` | internal/app/seal.go:152-226 | every call keeps the waiting shares under their own non-zero coordinates and of one length in 2..256 |
| `Seal.GatheredCombines` | internal/app/seal.go:195-208 | so shares that wait together always combine, to one byte less than their length |
| `Seal.GuessDecides` | internal/app/seal.go:112-217 | a call opens exactly on a right guess, counts every wrong one, and otherwise leaves lock and counter alone or counts a share that cannot belong |
| `Seal.OpenIff` | internal/app/seal.go:112-217 | in every run with a key, the vault is open exactly when some call presented the right key outside backoff and nothing sealed it since; changes to the marker file are part of the run |
| `Seal.StartsSealed` | internal/app/seal.go:38-85 | every process starts sealed when a key is configured, whatever the marker file holds |
| `Seal.SealIsSticky` | internal/app/seal.go:66-108 | a process started with the marker file of a sealed one starts sealed, with or without a key |
| `Seal.NoKeyStaysSealed` | internal/app/seal.go:112-115 | without a key no call opens a sealed vault |
| `Seal.WrongGuessesTakeTime` | internal/app/seal.go:238-260 | in every run, n successive failures without a right key take at least 31 + 30 (n - 6) seconds for n >= 6, which bounds their number in a given time |
| `Seal.RightKeyOpens` | internal/app/seal.go:112-128 | after any run, 30 seconds after the last failure the right key opens the vault |
| `Seal.SharesGather` | internal/app/seal.go:152-194 | below the threshold, shares of a split are gathered and nothing else changes |
| `Seal.SharesOpen` | internal/app/seal.go:152-226 | shares of a split of the key, in any order and repeated at will, open the vault with the first that completes the threshold |
| `Seal.SharesGiveShortKeys` | internal/app/seal.go:157-159 | a key put together from shares has 1 to 255 bytes |
| `RateLimiter.Limiter.SetMaxBuckets` | internal/api/middleware/ratelimit.go:54-61 | takes a positive limit, ignores others |
| `RateLimiter.Limiter.Evict` | internal/api/middleware/ratelimit.go:121-127 | drops exactly the buckets not seen for ten minutes |
| `RateLimiter.Limiter.EvictOldest` | internal/api/middleware/ratelimit.go:129-143 | drops one bucket seen longest ago, unless that is the bucket of the empty key |
| `RateLimiter.Limiter.Allow` | internal/api/middleware/ratelimit.go:87-119 | sweeps, makes room, refills by elapsed time up to the limit, and takes a token if there is one; a new client is let through and other buckets are kept as they were or dropped |
| `RateLimiter.TokensStayInBounds` | internal/api/middleware/ratelimit.go:87-119 | after every request of every run, each bucket holds between 0 and limit tokens |
| `RateLimiter.IdleEvictionIsInvisible` | internal/api/middleware/ratelimit.go:87-127 | while the map is never full, every answer is that of a limiter that never drops a bucket |
| `RateLimiter.AllowedIff` | internal/api/middleware/ratelimit.go:87-143 | in every run, full map or not, a request is let through exactly when, for every earlier request since its client's bucket last made room, the client's requests let through since then, with this one, are at most limit + elapsed seconds * limit / 60 |
| `RateLimiter.NeverFullAllowedIff` | internal/api/middleware/ratelimit.go:87-127 | while the map is never full: exactly when this holds for every earlier request |
| `RateLimiter.WindowBoundWithDrops` | internal/api/middleware/ratelimit.go:87-143 | in every run, full map or not, a client whose bucket makes room e times in a window of length w gets at most limit + e * limit + w * limit / interval requests through in it |
| `RateLimiter.WindowBound` | internal/api/middleware/ratelimit.go:87-127 | while the map is never full, every client gets at most limit + w * limit / interval requests through in any window of length w |
| `RateLimiter.StepSize` | internal/api/middleware/ratelimit.go:87-143 | how many buckets a request leaves, in every case; never fewer than survive the idle sweep |
| `RateLimiter.MapStaysBounded` | internal/api/middleware/ratelimit.go:54-143 | without empty keys, the map never exceeds the largest limit set so far |
| `RateLimiter.SizeKeptIff` | internal/api/middleware/ratelimit.go:87-143 | whatever the map holds, a request keeps it within the larger of limit and size exactly unless the map is full, the client new and the bucket of the empty key among the oldest |
| `RateLimiter.BoundedIff` | internal/api/middleware/ratelimit.go:54-143 | for every sequence of requests, with limits changing meanwhile, all runs stay within a bound on the limits exactly when in no run the empty key is to make room in a map at that bound |
| `RateLimiter.NewcomersPileUp` | internal/api/middleware/ratelimit.go:87-143 | whatever the limits, new clients after the empty key, within ten minutes of it, each add a bucket |
| `RateLimiter.EmptyKeyIsNeverEvicted` | internal/api/middleware/ratelimit.go:129-143 | for every m, requests after which a limiter for one bucket holds m in every run |
| `Lockout.LockoutTracker.IsLocked` | internal/auth/lockout.go:44-60 | reports a lock that has not ended, and clears one that has |
| `Lockout.LockoutTracker.PurgeExpired` | internal/auth/lockout.go:72-79 | drops exactly the identities whose lock has ended |
| `Lockout.LockoutTracker.EvictAttempts` | internal/auth/lockout.go:101-112 | drops counters of identities without a lock only, as many as it takes to make room |
| `Lockout.LockoutTracker.RecordFailure` | internal/auth/lockout.go:82-99 | purges, makes room, counts, and locks from the threshold on |
| `Lockout.LockoutTracker.RecordSuccess` | internal/auth/lockout.go:115-134 | forgets the identity's counter and lock |
| `Lockout.RunKeeps` | internal/auth/lockout.go:72-134 | in every run an identity is locked exactly when its counter has reached the threshold, and at most `maxEntries` counters are below it |
| `Lockout.LockedIff` | internal/auth/lockout.go:44-134 | in every run, an identity is reported locked exactly when it has had at least `threshold` failures since its last success, clearing, end of a lock or eviction, the last of them within the lock time |
| `Lockout.CountIsFailures` | internal/auth/lockout.go:72-134 | its counter is the number of these failures |
| `Lockout.LockSurvives` | internal/auth/lockout.go:72-112 | no eviction or purge ends a lock early: only time, success or a reset do |
| `Lockout.EachIdentityOnItsOwn` | internal/auth/lockout.go:44-134 | while nothing is evicted for room, each identity is treated as if it were the only one |

## Left out

- HTTP routing, handlers, clients, command line, operators, metrics and configuration: no invariant of depth.
- AES-GCM, SHA-256, HMAC and X.509 themselves: they enter as functions with the laws named above.
- Raft consensus: the replicated audit log is its deterministic apply step.
- Identity of whole snapshots: the backup records carry fewer fields than the entities; only the audit part is modelled.
- The key ring across process restarts: versions are assigned by load order, so its results hold for the lifetime of one ring.
- Garbage collection of expired wrap metadata, and forwarding and signing of audit entries in `Record`.
- JSON and binary encodings: values are stored and read back as they are.
- Nil receivers, and clearing of key buffers in memory.
- Conditions on policies: whether a policy covers a request is an arbitrary fixed predicate.
- Lease, PKI, database, SSH and transit services, and the read cache for secrets.
- `Wrapping.Storage.PutAtomic`: keeps the latest version only, since wrapping asks for one retained version; trimming and destroying versions of other secrets are not modelled.
- `Wrapping.WrappingService.Unwrap`: in the class the call is one step; `Wrapping.SingleUse` and its companions are about the steps it consists of, interleaved with those of other calls.
- `PolicySync.PolicyService.SyncRBAC`: in the class the read and the refresh are one step; `PolicySync.RefreshIsFaithful` interleaves them with changes made by other nodes.
- `Rbac.RBAC.ResolvePolicyNames`: policies do not change during the walk, although the code takes its lock once per lookup.
- `PolicySync.PolicyRepository.Save`: policies have no id, so its assignment is not modelled.
- `RateLimiter.Limiter.Allow`: tokens are real numbers, so rounding of floating point is not captured.
- `Shamir.Split`: shares are sequences that grow by one value at a time instead of buffers filled in place.
- `Seal.SealState.Persist`: a failed write of the marker is not an outcome of its own; runs may change the file at any time, which covers it.
- `Seal.SealState.UnsealBackoff`: the cap is always 30 seconds, because nothing sets another.
