# Secrets engine: a verified model of its hard parts

A Dafny model of six parts of the secrets engine, with proofs of the properties they are for. Check it with
`dafny verify dfyconfig.toml`.

- **The stale-recovering file lock.** `LockProtocol` is a step system over open file descriptions, inodes, the lock
  path, modification times and a clock, for any number of callers; the age test and the unlink of recovery are two
  steps. `LockSafety` proves mutual exclusion under timely heartbeats, what any conflict must have looked like
  without them, and when an unlink is safe. `LockHeartbeat` derives those timely heartbeats from beats that succeed in
  time. `LockGap` gives the run that refutes a claim of the documentation.
  `LockClient` is the sequential code of a caller, run while all the others may step between any two of its calls.
- **Glob patterns over secret identifiers.** `Identifiers` (the scanner, splitting, and the backtracking matcher),
  `Patterns` (inclusion, filtering, the pattern scanner), `Inclusion` (deciding inclusion and overlap of any two
  patterns, and with that when Includes and Filter are right) and `Expansion` (expanding a pattern's `**`).
- **The release propagator.** `Release`: module graph, bumps, and the whole run up to its tags.
- **The keychain stores.** `Metadata` (prefixing and cleaning of attributes, for every order of visiting keys),
  `LinuxKeychain` over a secret service that may relock or fail at any call, `WindowsKeychain` over a table of
  credentials of bounded size. Each is shown to refine a map over runs of its operations (`Serve` and `Run`).
- **The age file store.** `DirNames` (base64 directory names), `SecretFiles` (writing and reading a directory under
  failing calls) and `AgeStore` (the store's operations, refining a map over runs). `LockedStore` puts the store under
  the lock: many callers at once amount to one operation at a time.
- **The secret service session.** `KeyAgreement` (shared secret and key derivation input) and `SessionCipher`
  (padding and block chaining).

Where the source changes state step by step, the model is a class or a method with loops, proved against
functions and relations; the promises are lemmas about those. Failing calls, relocking, map order, the picks of the
release loop and the interleaving of callers are nondeterministic, so the theorems hold for all of them.

## Where the code does not do what is written about it

- `recover.go:42-46` says the inode check keeps two callers from holding the same name after a missed recovery. It
  does not, since the age test and the unlink are two steps (`LockGap.StatRemoveGap`); an unlink is safe exactly when
  no holder has the inode at the path (`LockSafety.RemovalSafeIffUnheld`).
- `pattern.go:86` says Includes is inclusion. Inclusion always makes it say yes, but not the reverse
  (`Patterns.IncludesIsNotInclusion`); it is right exactly when it says no or the test of `Inclusion.InclusionDecided`
  says yes (`Inclusion.IncludesRightIff`). On patterns without `*` it is always right
  (`Patterns.InclusionExactWithoutStars`, `Patterns.FilterIsIntersection`).
- `pattern.go:156` says Filter's result is subset equal to the filter; it may be wider (`Inclusion.FilterMayWiden`),
  and stays within the filter exactly when the inclusion relied on holds (`Inclusion.FilterSubsetIff`). `pattern.go:157` says it
  returns false if there is no overlap, which holds; with `**` on both sides it may also return false when there is
  one (`Patterns.FilterMissesOverlap`), exactly as `Inclusion.FilterRightIff` says.
- `pattern.go:29` lists the characters of a pattern without `:`, which the code accepts.
- `keychain.go:182-184` says prefixing excludes collisions; a key beside its own prefixed form collides.
- Delete on Linux leaves duplicates of an item behind; on Windows an identifier ending in `:chunk:` and a number
  shares a credential with the identifier before it, and a failed save over a chunked value may leave a value that
  was never saved (`WindowsKeychain.Keychain.FailedSaveTears`).
- `store.go:357-358` and the store's README (line 55) say that several passwords may be given to one secret; the age
  library seals to a password only alone (`vendor/filippo.io/age/scrypt.go:25-27`), so no save ever succeeds then
  (`AgeStore.Store.SealableIff`).
- In the age store only encryption keys are trimmed, so a password with white space around it does not open what
  it sealed.

## Model

| member | source | states |
|---|---|---|
| `LockSafety.MutualExclusion` | store/posixage/internal/flock/flock.go:118-252 | In every interleaving of any number of callers in which every caller past its inode check refreshes within the stale threshold until it releases, and recovery's age test still holds at its removal, each such caller's inode is the one at the path and no two conflict, those that are unlocking included |
| `LockSafety.ClashHistory` | store/posixage/internal/flock/flock.go:118-166 | Without any timing assumption: two verified callers whose modes conflict hold different inodes, and an unlink of the earlier one's inode lies strictly between its inode check and the later one's open |
| `LockSafety.LaterOpensAfterCheck` | store/posixage/internal/flock/flock.go:105-147 | Of two conflicting verified callers, the one that checked later also opened only after the other's check |
| `LockSafety.RemovalSafeIffUnheld` | store/posixage/internal/flock/recover.go:50-72 | From a state in which all holders are at the path, an unlink keeps every run up to the next unlink free of conflicting holders if and only if no holder has the inode at the path |
| `LockSafety.HolderOrphaned` | store/posixage/internal/flock/flock.go:105-117 | Once a holder's inode is off the path, a new caller can obtain a conflicting lock without any further unlink |
| `LockSafety.AcquireFresh` | store/posixage/internal/flock/flock.go:118-148 | With nothing at the path, one undisturbed attempt succeeds in either mode, whoever holds orphaned inodes |
| `LockGap.StatRemoveGap` | store/posixage/internal/flock/recover.go:42-72 | A run in which every holder is within the threshold at every step and two exclusive holders still coexist, because the age test and the unlink are two steps: the claim at lines 42-46 does not hold |
| `LockSafety.StepKeepsAtPath` | store/posixage/internal/flock/flock.go:118-252 | Only the unlink of a holder's inode can part a holder from the path |
| `LockSafety.GoneForGood` | store/posixage/internal/flock/flock.go:105-117 | An inode that has left the path never returns to it |
| `LockSafety.SeenOnPath` | store/posixage/internal/flock/flock.go:118-166 | Both the last open and the last inode check of a verified caller saw its inode at the path |
| `LockSafety.HeartbeatTouchesOwnLock` | store/posixage/internal/flock/flock.go:199-252 | In every run, while a heartbeat is active its descriptor is open, is the caller's own and carries the caller's lock |
| `LockHeartbeat.RefreshTouches` | store/posixage/internal/flock/flock.go:230-252 | A successful truncation, on acquiring the lock or by the heartbeat, sets the modification time of the caller's own inode to the present, and changes no other, nor the caller's descriptor or lock |
| `LockHeartbeat.FailedBeatSkipped` | store/posixage/internal/flock/flock.go:238-241 | A beat whose truncation fails changes nothing and waits for the next turn |
| `LockHeartbeat.BeatingIsTimely` | store/posixage/internal/flock/flock.go:213-252 | In every run at whose end each caller past its inode check has refreshed the file it opened last less than the threshold ago, the modification times of all their inodes are that young |
| `LockHeartbeat.HeartbeatsExclude` | store/posixage/internal/flock/flock.go:67-74 | Callers whose refreshes come in time, with removals of still stale lock files, exclude each other in every interleaving |
| `LockHeartbeat.RecoveryJudges` | store/posixage/internal/flock/recover.go:50-64 | Recovery goes on to unlink exactly a file at the path that is at least 30 seconds old, and otherwise to a retry; looking changes nothing |
| `LockHeartbeat.BeatingIsSpared` | store/posixage/internal/flock/recover.go:26-33 | While a caller beats in time, recovery spares its file at the path |
| `LockHeartbeat.ReadersShare` | store/posixage/internal/flock/flock.go:118-148 | Beside readers only, one undisturbed attempt of a new reader gets the lock of the same file and leaves the others theirs |
| `LockHeartbeat.ReleaseLetsIn` | store/posixage/internal/flock/flock_unix.go:38-51 | After a release whoever else has the file open may lock it, in either mode, unless others still hold it |
| `LockSafety.CloseAfterHeartbeat` | store/posixage/internal/flock/flock.go:199-211 | In every run, unlock closes the descriptor only after the heartbeat has ended, and leaves no descriptor |
| `LockSafety.DoneIsFinal` | store/posixage/internal/flock/flock.go:76-91 | After unlock nothing of the caller, its heartbeat included, takes another step in any run |
| `LockSafety.DeathReleases` | store/posixage/internal/flock/recover.go:26-33 | A caller that dies at any point leaves neither a descriptor nor a lock behind, and leaves the path and every other caller as they were |
| `LockProtocol.RunKeepsInv` | store/posixage/internal/flock/flock.go:118-252 | Every run keeps the invariant that ties each caller's phase to its descriptor, lock and heartbeat, and that no inode carries two conflicting locks |
| `LockProtocol.Frame` | store/posixage/internal/flock/flock_unix.go:26-51 | A step of one caller leaves every other caller's phase, descriptor and lock alone |
| `LockClient.OthersKeepMine` | store/posixage/internal/flock/flock.go:118-252 | Any number of steps of other callers and of the caller's own heartbeat leave its thread's phase, descriptor and lock as they are |
| `LockClient.LockFile.AcquireOnce` | store/posixage/internal/flock/flock.go:118-148 | Under interference, success leaves exactly one descriptor and one flock of the mode asked for, failure leaves neither; if nobody interferes and no call fails, it succeeds if and only if no lock stands in the way of the mode, and otherwise changes nothing |
| `LockClient.LockFile.RecoverStaleLock` | store/posixage/internal/flock/recover.go:50-72 | Under interference, recovery ends ready for a retry or failed, and holds nothing; a file that is not old enough is not an error to the caller; if nobody interferes and no call fails, it unlinks a stale file and leaves any other |
| `LockClient.LockFile.RetryLock` | store/posixage/internal/flock/flock.go:258-270 | After any number of attempts, success leaves exactly one descriptor and one flock, failure neither; undisturbed, it succeeds if and only if no lock stands in the way |
| `LockClient.LockFile.TryLock` | store/posixage/internal/flock/flock.go:168-189 | The whole acquisition with recovery and retries: success leaves exactly one descriptor and one flock, failure neither; undisturbed, it succeeds if and only if no lock stands in the way or the lock file is stale |
| `LockClient.LockFile.JoinHeartbeat` | store/posixage/internal/flock/flock.go:206-208 | Waiting ends with the heartbeat ended, before the release |
| `LockClient.LockFile.Unlock` | store/posixage/internal/flock/flock.go:76-91 | The first call releases and closes; a further call changes nothing and returns the same result |
| `LockClient.LockFile.LockAndUnlock` | store/posixage/store.go:63-78 | A whole use of the lock, from arrival to unlock, leaves no descriptor and no lock, whether or not it was granted |
| `Identifiers.ValidIdentifier` | x/secrets/identifiers.go:36-60 | The scanner accepts exactly the strings all of whose slash-separated components are non-empty and made of valid runes |
| `Identifiers.ValidRunes` | x/secrets/identifiers.go:62-67 | The runes of a component are the letters, the digits, and the four marks of the documented format |
| `Identifiers.SplitIgnoresEnds` | x/secrets/identifiers.go:69-75 | Slashes at the ends of a string make no difference, and the empty string has no component |
| `Identifiers.IdPaths` | x/secrets/identifiers.go:69-75 | Splitting a valid identifier gives well-formed components that join back to it |
| `Identifiers.PathIds` | x/secrets/identifiers.go:69-75 | Joining well-formed components gives a valid identifier that splits back into them |
| `Identifiers.MatchesIffSplits` | x/secrets/identifiers.go:77-112 | The recursive relation equals the existence of a split of the path into one piece per pattern component, of the shape each component takes |
| `Identifiers.DoubleStarSkips` | x/secrets/identifiers.go:84-93 | `**` takes exactly the runs after which the rest matches |
| `Identifiers.TrySkips` | x/secrets/identifiers.go:89-94 | The backtracking loop finds a skip if and only if there is one |
| `Identifiers.Match` | x/secrets/identifiers.go:77-112 | The matcher terminates and is true exactly when the path splits along the pattern; a literal takes an equal component or `*` |
| `Patterns.InclusionIsReported` | x/secrets/pattern.go:104-109 | For all patterns: if every valid identifier of the other pattern is matched by this one, Includes is true |
| `Patterns.IncludesSandwich` | x/secrets/pattern.go:86-109 | For all patterns: the strict relation implies inclusion, and inclusion implies that Includes is true |
| `Inclusion.InclusionDecided` | x/secrets/pattern.go:86-109 | For all patterns: every valid identifier of the other pattern is matched by this one if and only if this one takes the other with its `*` replaced by a component it does not mention and each `**` by every run of that component up to a bounded length |
| `Inclusion.RunGrows` | x/secrets/identifiers.go:77-112 | A run of more unmentioned components than the pattern has goes through a `**`, so one more is taken too |
| `Inclusion.IncludesRightIff` | x/secrets/pattern.go:86-109 | For all patterns: Includes agrees with inclusion if and only if it says no or that test says yes |
| `Patterns.IncludesIsNotInclusion` | x/secrets/pattern.go:86-109 | Two pairs on which Includes is true and inclusion fails: `*` with `**`, and a literal with `*` |
| `Patterns.StrictIsSound` | x/secrets/identifiers.go:77-112 | What a pattern takes of another strictly, it takes of every path the other matches |
| `Patterns.Relabel` | x/secrets/identifiers.go:95-103 | Where the path holds a component the pattern does not mention, any other component may stand instead |
| `Patterns.SharedIdentifierAligns` | x/secrets/pattern.go:163-171 | If one pattern has no `**`, an identifier matched by both lines the patterns up, so that Includes is true |
| `Patterns.FilterFindsOverlap` | x/secrets/pattern.go:156-171 | Filter returns a pattern only if some valid identifier is matched by both; if either has no `**`, exactly then |
| `Inclusion.OverlapDecided` | x/secrets/pattern.go:156-171 | For all patterns: some valid identifier is matched by both if and only if a recursion on the two patterns lets them meet |
| `Inclusion.FilterRightIff` | x/secrets/pattern.go:156-171 | For all patterns: Filter tells overlap from disjointness if and only if the patterns do not meet or one includes the other by the matcher |
| `Inclusion.FilterSubsetIff` | x/secrets/pattern.go:156-171 | For all patterns: what Filter returns is subset equal to the filter, as its comment promises, if and only if the inclusion it relied on holds by the test |
| `Inclusion.FilterIsIntersectionIff` | x/secrets/pattern.go:156-171 | For all patterns: what Filter returns matches exactly what both patterns match if and only if the inclusion it relied on holds by the test |
| `Inclusion.FilterMayWiden` | x/secrets/pattern.go:156-171 | Filtering `*` by a literal returns `*`, which is not included in the literal |
| `Patterns.TokenByCounts` | x/secrets/pattern.go:63-74 | The two counters accept exactly `*`, `**` and well-formed literals |
| `Patterns.ScanPattern` | x/secrets/pattern.go:34-61 | The one-pass scanner accepts exactly the strings whose components are `*`, `**` or well-formed literals (`:` included, which the comment at line 29 omits) |
| `Patterns.PatternTokens` | x/secrets/pattern.go:34-61 | Splitting a valid pattern gives valid components that join back to it |
| `Patterns.TokensPattern` | x/secrets/pattern.go:34-61 | Joining valid components gives a valid pattern that splits back into them |
| `Expansion.Replace1` | x/secrets/pattern.go:173-186 | A result exactly when one component is `**`, and then the string with that component overwritten and nothing else |
| `Expansion.OneCandidate` | x/secrets/pattern.go:175-183 | The loop finds one candidate if and only if exactly one component is `**`, and it is that one |
| `Expansion.ExpansionIsSplice` | x/secrets/pattern.go:148-154 | The expansion of a valid pattern by a valid pattern is a valid pattern whose components are spliced in place of `**` |
| `Expansion.ExpandIDValid` | x/secrets/pattern.go:140-146 | ExpandID's unvalidated result is a valid identifier if and only if the pattern has no `*` |
| `Expansion.ExpansionAssociative` | x/secrets/pattern.go:148-186 | Expanding by a pattern and then by a third is expanding by their expansion, on the strings |
| `Expansion.ExpansionUnit` | x/secrets/pattern.go:148-186 | `**` is the unit of expansion on both sides |
| `Expansion.PatternIncludesExpansion` | x/secrets/pattern.go:104-186 | A pattern with one `**` includes each of its expansions |
| `Expansion.ExpansionNarrows` | x/secrets/pattern.go:140-186 | Every identifier that an expansion matches is matched by the pattern it came from |
| `Release.BumpIterative` | x/release/helper/release.go:67-109 | A run that succeeds tags the root first and each direct downstream once, in topological order, at the next versions, each tag capturing a go.mod that names the new release of every released module it depends on; at the end every go.mod that names a released module it depends on names the new release, as committed too, no other requirement has changed, and nothing is uncommitted that was not before; on good inputs the only failure is that no module is ready, and it occurs if and only if the downstreams hold a cycle, whichever ready module is picked |
| `Release.BumpModule` | x/release/helper/release.go:117-141 | Tags the committed files, then names the new release in the go.mod of each downstream and commits if any file changed; fails on a version that is not canonical |
| `Release.AddModMirrors` | x/release/helper/release.go:145-179 | Adding a module keeps dependencies and downstreams in step if and only if it drops none of the module's earlier dependencies |
| `Release.BuiltIsMirrored` | x/release/helper/release.go:145-179 | Adding every module once, in any order, keeps the two directions in step |
| `Release.BuiltAsAdded` | x/release/helper/release.go:145-179 | In any order of additions, each module has the version and exactly the dependencies it was added with |
| `Release.RepoData.AddMod` | x/release/helper/release.go:145-171 | The loop over dependencies adds the module as a downstream of each and changes no other entry |
| `Release.RepoData.RemoveModule` | x/release/helper/release.go:189-194 | The module is gone, also from every other module's dependencies |
| `Release.Reduce` | x/release/helper/release.go:77-87 | The graph keeps only the root's direct downstreams |
| `Release.StuckIsCyclic` | x/release/helper/release.go:89-109 | A finite set in which every member depends on a member holds a cycle |
| `Release.NothingReady` | x/release/helper/release.go:89-103 | If no queued module is without dependencies, the queue holds a cycle of the original graph |
| `Release.TopologicalAcyclic` | x/release/helper/release.go:89-109 | If the modules were tagged in topological order, they hold no cycle |
| `Release.ReleaseStep` | x/release/helper/release.go:89-109 | Releasing a module whose remaining dependencies are all gone keeps order, uniqueness and consistency of the tags |
| `Release.FinishedIsComplete` | x/release/helper/release.go:67-109 | When the queue is worked off, all direct downstreams are tagged and hold no cycle |
| `Release.LeftStep` | x/release/helper/release.go:117-141 | One bump more keeps what the go.mod files are to say at any time |
| `Release.BuildAndBump` | x/release/helper/release.go:67-194 | From modules added once each, in any order: a run that succeeds is complete, and leaves the go.mod files as BumpIterative promises; if all have names and no version, file or call stands in the way, it fails only for want of a ready module, and that if and only if the root's downstreams hold a cycle |
| `Metadata.Attributes.SafelySetMetadata` | store/keychain/keychain.go:182-196 | The loop over the collected keys in some order, then the two internal keys |
| `Metadata.Attributes.SafelySetID` | store/keychain/keychain.go:221-229 | Afterwards the identifier is at its key; an entry that was there is at the prefixed key with its value; every other key has the entry it had |
| `Metadata.IdentifierMovesNothing` | store/keychain/keychain.go:182-229 | After the prefixing loop, in any order, the identifier's key is free, so that storing the identifier moves nothing |
| `Metadata.Attributes.SafelyCleanMetadata` | store/keychain/keychain.go:198-219 | Internal keys dropped, then the loop over the collected keys in some order |
| `Metadata.PrefixAllWorks` | store/keychain/keychain.go:186-192 | For every order: after any part of the prefixing loop, exactly the visited keys have moved to their prefixed form, if no key stands beside its own prefixed form |
| `Metadata.StripAllWorks` | store/keychain/keychain.go:206-218 | For every order: after any part of the cleaning loop, the visited keys are gone and the prefixed ones among them restored |
| `Metadata.MetadataRoundTrip` | store/keychain/keychain.go:182-229 | Cleaning gives back the saved metadata in every pair of orders if and only if no key stands beside its prefixed form and the backend adds no attribute under one of the caller's keys |
| `Metadata.ShadowBreaks` | store/keychain/keychain.go:182-196 | If `k` and its prefixed form are both present, some order loses an entry: the comment's "no collisions can ever occur" does not hold |
| `Metadata.BackendKeyBreaks` | store/keychain/keychain.go:198-219 | If the backend adds an attribute under a caller's key, some order loses that key |
| `LinuxKeychain.SecretService.WithRelockRetry` | store/keychain/keychain_linux.go:273-317 | At most one effect, and none on failure; the delays are a prefix of 20, 40, 80, 160, 320 ms, and a call still found locked has used all of them; if the service, unlocked after every call that finds it locked, locks at most five times and nothing else fails, the call succeeds |
| `LinuxKeychain.Keychain.Save` | store/keychain/keychain_linux.go:517-612 | Creates an item for a new identity, else rewrites the first match; other identities are untouched, the identity has an item after every single call, and when all calls succeed exactly one item is left, at the first match's path, with the new value and attributes; it succeeds if the service relocks at most five times and nothing else fails |
| `LinuxKeychain.Keychain.Refresh` | store/keychain/keychain_linux.go:600-611 | The best-effort part of an update keeps all of that whichever of its calls fail, and collapses duplicates if none does |
| `LinuxKeychain.Keychain.Drain` | store/keychain/keychain_linux.go:602-609 | Deletes the duplicates after the first match, all of them if no call fails, and leaves the first match as it was |
| `LinuxKeychain.Keychain.Delete` | store/keychain/keychain_linux.go:325-372 | Removes the first match and nothing else; on failure nothing has changed; the identity is still present if and only if it had a second item; it succeeds if the service relocks at most five times and nothing else fails |
| `LinuxKeychain.Keychain.Get` | store/keychain/keychain_linux.go:374-444 | Returns the value and cleaned attributes of an item of the identity, and not found only if there is none; if the service relocks at most five times and nothing else fails, it returns one if there is one and not found if there is none |
| `LinuxKeychain.Keychain.Filter` | store/keychain/keychain_linux.go:650-736 | Returns exactly the stored identities that are valid identifiers matched by the pattern, each with the value of one of its items; not found if and only if there is none, when nothing fails |
| `LinuxKeychain.Keychain.SaveRefines` | store/keychain/keychain_linux.go:517-612 | With one item per entry of a map from identifiers to secrets and their callers' metadata, a successful save puts the new secret under the identifier, with the new metadata or, if only their refresh failed, the earlier ones |
| `LinuxKeychain.Keychain.DeleteRefines` | store/keychain/keychain_linux.go:325-372 | With one item per entry, removing the first match removes the identifier from the map |
| `LinuxKeychain.Keychain.LoadRefines` | store/keychain/keychain_linux.go:374-444 | What is read of an identity is the map's secret and, in every order of cleaning, the map's metadata, if no key stands beside its prefixed form and the service adds none of the keys |
| `LinuxKeychain.Keychain.Serve` | store/keychain/keychain_linux.go:325-736 | Each save, delete, get and filter, whichever calls fail, takes the map one step and answers as the map does; if the service relocks at most five times and nothing else fails, it succeeds |
| `LinuxKeychain.Keychain.Run` | store/keychain/keychain_linux.go:325-736 | The same for every run of commands: the answers are those of a run of the map, which the items still represent at the end; all of them succeed if the service relocks at most five times and nothing else fails, and each save replaces the metadata too if it never relocks |
| `LinuxKeychain.Keychain.RunAfresh` | store/keychain/keychain_linux.go:325-736 | The same from no items and the empty map |
| `WindowsKeychain.ChunkBlob` | store/keychain/keychain_windows.go:86-95 | The pieces in order give the blob back; each is non-empty and at most the size, all but the last exactly |
| `WindowsKeychain.AtoiOfItoa` | store/keychain/keychain_windows.go:175-341 | The chunk count read back is the one written |
| `WindowsKeychain.AtoiOfSigned` | store/keychain/keychain_windows.go:167-182 | A count may carry one sign, and must have a digit |
| `WindowsKeychain.Keychain.ChunkLabelInjective` | store/keychain/keychain_windows.go:121-124 | The target name of a chunk determines identifier and index |
| `WindowsKeychain.Keychain.SharedTargets` | store/keychain/keychain_windows.go:121-124 | Two identifiers share a target name if and only if one reads like a chunk of the other |
| `WindowsKeychain.Keychain.DeleteChunks` | store/keychain/keychain_windows.go:140-153 | Terminates, and removes exactly the chunks before the first missing index, or before the delete that failed |
| `WindowsKeychain.Keychain.Delete` | store/keychain/keychain_windows.go:155-165 | Touches no other target; on success no credential of the identifier is left if and only if its chunks had no gap; if deletes work it succeeds and leaves no gap; a failed one leaves the primary credential |
| `WindowsKeychain.Keychain.ReadChunks` | store/keychain/keychain_windows.go:126-138 | The concatenation of the first count chunks; not found only if one of them is missing |
| `WindowsKeychain.Keychain.Get` | store/keychain/keychain_windows.go:167-201 | The identifier's value and cleaned attributes; with working reads it succeeds if and only if there is a value, and otherwise says not found unless the chunk count is malformed |
| `WindowsKeychain.Keychain.WriteChunks` | store/keychain/keychain_windows.go:326-338 | Writes a prefix of the chunks, all of them on success, and no other target |
| `WindowsKeychain.Keychain.Save` | store/keychain/keychain_windows.go:300-348 | On success the table stores the blob, over whatever was there, in the primary credential if it fits and else in chunks only, exactly at the indices below the count; no credential it writes is over the size limit; however it ends no other target changes, and if deletes work the chunks have no gap; a failed save leaves the earlier primary credential and the first pieces of the new value; it succeeds if deletes and writes work |
| `WindowsKeychain.Keychain.SavedValue` | store/keychain/keychain_windows.go:167-348 | The value of what a save stored is the saved blob, of any length |
| `WindowsKeychain.Keychain.SavedMetadata` | store/keychain/keychain_windows.go:300-348 | The saved metadata comes back in every order if and only if no key stands beside its prefixed form and a chunked value has no metadata under the key of the chunk count |
| `WindowsKeychain.Keychain.OthersKept` | store/keychain/keychain_windows.go:121-165 | An operation on one identifier keeps the value and the chunks of every identifier that shares no target name with it |
| `WindowsKeychain.Keychain.ClashLosesValue` | store/keychain/keychain_windows.go:121-153 | Deleting the first n chunks of `x` takes away the value of the identifier that reads like its chunk i if and only if i is below n and there was a value |
| `WindowsKeychain.Keychain.FailedSaveTears` | store/keychain/keychain_windows.go:300-348 | After a failed save an earlier value in one credential is still there; one in m chunks is gone if fewer than m pieces were written, and otherwise reads as the first m pieces of the new value |
| `WindowsKeychain.Keychain.GetRefines` | store/keychain/keychain_windows.go:167-201 | What is read of an identifier that the map has is the map's blob and, in every order of cleaning, the map's metadata, under the condition of SavedMetadata |
| `WindowsKeychain.Keychain.Serve` | store/keychain/keychain_windows.go:140-348 | For identifiers without shared target names, each save, delete and get takes the map one step and answers as the map does; a failed save or delete leaves only a chunked value of its identifier in doubt; if deletes work no gap comes up, and a delete leaves no credential behind; no credential is ever over the limit |
| `WindowsKeychain.Keychain.Run` | store/keychain/keychain_windows.go:140-348 | The same for every run of commands, writes failing anywhere, and each command succeeds if the calls it needs work; if deletes work, each identifier's chunks have no gap at the end either |
| `WindowsKeychain.Keychain.RunAfresh` | store/keychain/keychain_windows.go:140-348 | The same from an empty table, where no identifier has a secret |
| `WindowsKeychain.Keychain.FailedDeleteStrands` | store/keychain/keychain_windows.go:140-153 | A chunk delete that fails after some chunks leaves a gap if and only if a chunk is left, and then no later delete removes any chunk, since the first is missing |
| `DirNames.DecodeUndoesEncode` | store/posixage/internal/secretfile/secret.go:33-50 | Base64 decoding undoes encoding for all byte strings |
| `DirNames.SymbolsInOrder` | store/posixage/internal/secretfile/secret.go:33-38 | The symbols are those of table 1 of RFC 4648, in its order |
| `DirNames.SameBits` | store/posixage/internal/secretfile/secret.go:33-38 | Four sextets are the same 24 bits as the three bytes they stand for |
| `DirNames.OnlyNewlinesSkipped` | store/posixage/internal/secretfile/secret.go:40-50 | Decoding skips line ends wherever they stand, and nothing else |
| `DirNames.PlusAndSlash` | store/posixage/internal/secretfile/secret.go:33-38 | For text below 128, a `+` or `/` comes up if and only if some third byte ends in six bits above 61 |
| `DirNames.NameIsOneElement` | store/posixage/internal/secretfile/secret.go:33-38 | The name of a valid identifier is non-empty, made of letters, digits and `=`, of the padded length, and not the lock file's name |
| `DirNames.NameRoundTrip` | store/posixage/internal/secretfile/secret.go:33-50 | Decoding the name of a valid identifier returns the identifier |
| `DirNames.NamesAreDistinct` | store/posixage/internal/secretfile/secret.go:33-38 | Two valid identifiers share a directory if and only if they are equal |
| `DirNames.OwnName` | store/posixage/internal/secretfile/secret.go:40-50 | Of the names that decode to an identifier, its own is exactly the one without line ends and without set bits under the padding |
| `DirNames.NamesOfOneId` | store/posixage/internal/secretfile/secret.go:40-50 | Two names decode to the same identifier if and only if they differ in no more than line ends and bits under the padding |
| `SecretFiles.Root.AtomicWrite` | store/posixage/internal/secretfile/secret.go:52-87 | Whichever call fails, the file has its old content or the new, and only its temporary file may differ besides; on success that file is gone and the new content has been synced |
| `SecretFiles.Root.Persist` | store/posixage/internal/secretfile/secret.go:89-152 | On success the directory holds exactly the metadata and one file per secret, all synced; whatever fails, other directories are unchanged, and once the directory was made it is gone if removing works; it succeeds if no call fails |
| `SecretFiles.Root.Fill` | store/posixage/internal/secretfile/secret.go:121-151 | The part under rollback: on success exactly the metadata file and the secret files, no temporary ones |
| `SecretFiles.Root.RestoreSecret` | store/posixage/internal/secretfile/secret.go:154-193 | The metadata and, for each secret file that could be read, its key type and content, a file that could not be read being skipped; with working reads all of them, and it succeeds if and only if the directory has readable metadata |
| `SecretFiles.FrontDropped` | store/posixage/internal/secretfile/secret.go:183-190 | Every occurrence of the file prefix at the front of a name is dropped from the key type, not the first only |
| `AgeStore.PromptForEncryptionKeys` | store/posixage/prompt.go:85-116 | Succeeds if and only if every function answers with more than white space; the keys are grouped by type, trimmed, in order of registration |
| `AgeStore.TrimSpaceTrims` | store/posixage/prompt.go:95-116 | Trimming takes white space off both ends, and all of it |
| `AgeStore.SpacesListed` | store/posixage/prompt.go:95-116 | White space is the 25 characters that Unicode names |
| `AgeStore.Store.Save` | store/posixage/store.go:332-387 | On success the identifier's directory is that of the new entry, sealed to all keys of each type, in whatever order the groups are visited; on failure, with working removal, it is as before or gone; no other directory changes; if no call fails it succeeds if and only if the answers can be sealed to |
| `AgeStore.Store.Delete` | store/posixage/store.go:171-179 | Removes the identifier's directory and nothing else |
| `AgeStore.Store.DecryptSecret` | store/posixage/store.go:106-151 | The plaintext of the first function that opens, if all before it have a secret of their type and an answer; else none |
| `AgeStore.Store.Get` | store/posixage/store.go:249-275 | The metadata and decrypted plaintext of the identifier's directory; with working reads it fails on readable metadata only if nothing decrypts |
| `AgeStore.Store.Filter` | store/posixage/store.go:181-247 | Reads every identifier that matches and has readable metadata, and no other; with working reads it fails only if the answers in a visit of some directory named after one of them do not decrypt it, and succeeds only if those of every such visit do |
| `AgeStore.Store.GetRefines` | store/posixage/store.go:249-275 | Whatever could be read and was answered, only the entry's own plaintext and metadata come out of its directory |
| `AgeStore.Store.UnreadableIsLocked` | store/posixage/store.go:118-151 | With working reads an entry is unreadable only if the answers do not open it |
| `AgeStore.Store.SavedOpens` | store/posixage/store.go:118-387 | If every decryption type is an encryption type, all functions answer and one key fits, a saved entry opens |
| `AgeStore.Store.SealableIff` | store/posixage/store.go:332-387 | The answers can be sealed to if and only if every function gives a key, no more than one of them asks for a password, and every key parses |
| `AgeStore.Store.PasswordOpensIfTrimmed` | store/posixage/prompt.go:95-116 | Where one function asks for a password to seal to, beside any others, the same password fits on reading if and only if it has no white space around it, since only encryption keys are trimmed |
| `AgeStore.Store.SaveRefines` | store/posixage/store.go:332-387 | Writing an entry's directory updates the map at the identifier and nowhere else |
| `AgeStore.Store.DoubtRefines` | store/posixage/store.go:171-179 | Whatever a failed removal made of one directory, every other entry of the map is as it was |
| `AgeStore.Store.DeleteRefines` | store/posixage/store.go:171-179 | Removing the directory removes the identifier from the map and nothing else |
| `AgeStore.Store.FilterRefines` | store/posixage/store.go:181-247 | What a filter returned is in the map and matches, and with working reads it is all of the map that matches |
| `AgeStore.Store.Perform` | store/posixage/store.go:171-387 | Whatever map the directories represent, each save, delete, get and filter takes it one step and answers as it does, whichever calls fail; a read changes nothing, and a write no directory but its identifier's |
| `AgeStore.Store.Serve` | store/posixage/store.go:171-387 | The same from one map to the next: a filter fails on readable directories if and only if the answers in a visit of a directory named after a matching entry do not open it, or an identifier is in doubt; if nothing fails, a save succeeds exactly if the answers can be sealed to, and a get exactly if they open the entry |
| `AgeStore.Store.Run` | store/posixage/store.go:171-387 | The same for every run of commands, success when nothing fails included |
| `AgeStore.Store.RunAfresh` | store/posixage/store.go:171-387 | The same from an empty directory and the empty map |
| `LockedStore.OneAtATime` | store/posixage/store.go:57-78 | In every interleaving of any number of callers of the store, calls of holders on the directories and deaths included, with timely heartbeats and removals of still stale lock files: each command that completes takes the map one step and is answered as it demands at the moment its caller unlocks, and the others change nothing, but that a writer dying with the lock leaves its own identifier in doubt |
| `LockedStore.GrantedAmongReaders` | store/posixage/internal/flock/flock.go:118-148 | Whoever gets the lock finds only readers holding it, and nobody if it is to write |
| `LockedStore.AccessKeeps` | store/posixage/store.go:57-104 | Whatever a holder does to the directories, every holder still finds them as if it had been alone since it got the lock |
| `AgeStore.WrittenIsDirOf` | store/posixage/internal/secretfile/secret.go:89-152 | The directory written is the entry's, in whatever order the groups were sealed |
| `KeyAgreement.SharedSecret` | store/keychain/internal/go-keychain/secretservice/dh_ietf1024_sha256_aes128_cbc_pkcs7.go:34-52 | In every group and for all exponents both sides compute the same secret |
| `KeyAgreement.ExpSteps` | store/keychain/internal/go-keychain/secretservice/dh_ietf1024_sha256_aes128_cbc_pkcs7.go:34-52 | Exponentiation is repeated multiplication modulo the prime |
| `KeyAgreement.NewKeypair` | store/keychain/internal/go-keychain/secretservice/dh_ietf1024_sha256_aes128_cbc_pkcs7.go:34-45 | The first positive draw, within range, and its public value; it fails if and only if the source fails before one |
| `KeyAgreement.BytesRoundTrip` | store/keychain/internal/go-keychain/secretservice/secretservice.go:328-369 | The minimal wire form of a public value is read back as the same number |
| `KeyAgreement.FillBytesRoundTrip` | store/keychain/internal/go-keychain/secretservice/dh_ietf1024_sha256_aes128_cbc_pkcs7.go:80-82 | The fixed-width form determines the number |
| `KeyAgreement.MinimalIsFixed` | store/keychain/internal/go-keychain/secretservice/dh_ietf1024_sha256_aes128_cbc_pkcs7.go:69-82 | The minimal form equals the fixed-width form if and only if the leading byte is not zero |
| `KeyAgreement.SecretFits` | store/keychain/internal/go-keychain/secretservice/dh_ietf1024_sha256_aes128_cbc_pkcs7.go:80-82 | Every number below the prime fits the buffer sized by its bit length |
| `KeyAgreement.OakleyWidth` | store/keychain/internal/go-keychain/secretservice/dh_ietf1024_sha256_aes128_cbc_pkcs7.go:54-62 | The prime of section 6.2 of RFC 2409 has 1024 bits, so the buffer has 128 bytes |
| `KeyAgreement.SameKeyInput` | store/keychain/internal/go-keychain/secretservice/dh_ietf1024_sha256_aes128_cbc_pkcs7.go:47-82 | Two sides that accept each other's public values feed identical bytes of the prime's width to key derivation; each has an input if and only if it accepts |
| `KeyAgreement.MinimalKeyInputDiffers` | store/keychain/internal/go-keychain/secretservice/dh_ietf1024_sha256_aes128_cbc_pkcs7.go:69-79 | With the minimal form instead, the input would be the same if and only if the secret has no leading zero byte |
| `SessionCipher.UnpadPKCS7` | store/keychain/internal/go-keychain/secretservice/dh_ietf1024_sha256_aes128_cbc_pkcs7.go:142-160 | The loop decides whether the text ends in as many equal bytes as the last one says, with the code's errors in its order |
| `SessionCipher.UnpadUndoesPad` | store/keychain/internal/go-keychain/secretservice/dh_ietf1024_sha256_aes128_cbc_pkcs7.go:134-160 | Unpadding undoes padding if and only if the missing length fits a byte, as for every block size up to 255; otherwise the length is no multiple |
| `SessionCipher.PadUndoesUnpad` | store/keychain/internal/go-keychain/secretservice/dh_ietf1024_sha256_aes128_cbc_pkcs7.go:134-160 | Padding undoes a successful unpadding if and only if the last byte is in 1..n |
| `SessionCipher.DecryptUndoesEncrypt` | store/keychain/internal/go-keychain/secretservice/dh_ietf1024_sha256_aes128_cbc_pkcs7.go:93-132 | Chained decryption undoes chained encryption (section 6.2 of NIST SP 800-38A) under any permutation of blocks |
| `SessionCipher.EncryptUndoesDecrypt` | store/keychain/internal/go-keychain/secretservice/dh_ietf1024_sha256_aes128_cbc_pkcs7.go:93-132 | And the other way round |
| `SessionCipher.XorByteBits` | store/keychain/internal/go-keychain/secretservice/dh_ietf1024_sha256_aes128_cbc_pkcs7.go:93-132 | The bytes are combined by exclusive or, bit by bit |
| `SessionCipher.EncryptedBlock` | store/keychain/internal/go-keychain/secretservice/dh_ietf1024_sha256_aes128_cbc_pkcs7.go:104-107 | Each ciphertext block seals its plaintext block under exclusive or with the one before, or with the vector |
| `SessionCipher.DecryptedBlock` | store/keychain/internal/go-keychain/secretservice/dh_ietf1024_sha256_aes128_cbc_pkcs7.go:125-126 | Each plaintext block is its ciphertext block opened, under exclusive or with the one before, or with the vector |
| `SessionCipher.DecryptedBits` | store/keychain/internal/go-keychain/secretservice/dh_ietf1024_sha256_aes128_cbc_pkcs7.go:111-132 | Each bit of what decryption returns is that of the opened block where the block before, or the vector, has a zero, and its opposite where it has a one |
| `SessionCipher.ChainDecryptInPlace` | store/keychain/internal/go-keychain/secretservice/dh_ietf1024_sha256_aes128_cbc_pkcs7.go:125-126 | In-place decryption of a buffer, last block first, is chained decryption of what it held |
| `SessionCipher.Decrypt` | store/keychain/internal/go-keychain/secretservice/dh_ietf1024_sha256_aes128_cbc_pkcs7.go:111-132 | The result of decryption with the code's checks in its order; the buffer is untouched unless it gets to decrypt |
| `SessionCipher.SessionRoundTrip` | store/keychain/internal/go-keychain/secretservice/dh_ietf1024_sha256_aes128_cbc_pkcs7.go:93-132 | Decrypting what was encrypted returns the plaintext, for every length, key and initial vector |
| `SessionCipher.ReencryptIsIdentity` | store/keychain/internal/go-keychain/secretservice/dh_ietf1024_sha256_aes128_cbc_pkcs7.go:93-160 | Encrypting a decrypted text again gives the ciphertext back if and only if the pad byte is in 1..16: decryption also accepts a pad byte of 0, or of more than a block |
| `SessionCipher.SessionDelivers` | store/keychain/internal/go-keychain/secretservice/secretservice.go:310-380 | Two sides that accept each other's public values read what the other encrypted under its own derived key |

## Left out

- Plugins, IPC, RPC, telemetry, logging, access control, the command line and generated code: no algorithm, or the behaviour of third-party libraries.
- The macOS keychain: foreign calls.
- Release.BumpIterative: computing the next version is a parameter, since it rests on a third-party version library; git and go.mod editing are a map of files, and a requirement is found by its exact name. The queue is a copy, whereas the source works on the root's own downstream map; the root has left the graph by then.
- LockClient.LockFile.RetryLock: backoff times and cancellation are a bound on the number of attempts, which is arbitrary.
- The Windows variant of the lock, and modification times finer than the clock of the step system.
- Metadata.MetadataRoundTrip: about backend attributes that are unprefixed and not the store's own keys, which is what both backends add.
- LinuxKeychain.Keychain.Run: from items of which no identity has two; what the service adds to the attributes is the same for every item.
- LinuxKeychain: collections, aliases, sessions, prompts and timeouts are one step that may fail; a failing call of the service has no effect; listing all metadata, and marshalling of values.
- WindowsKeychain: counts beyond 64 bits; listing credentials (filter and all metadata), text encoding of blobs, and the conversion of attributes to lists.
- SecretFiles: directories inside a secret's directory, and files at the root other than by name.
- AgeStore: age is taken as sealing to a list of recipients that a fitting key opens; JSON as a value; the in-process mutex, factories and marshalling. Answers of the prompts are parameters, one set per operation or visited directory.
- LockedStore: each caller makes one use of the store; that its calls, run alone, keep its command's promise is what AgeStore.Store.Perform shows, and that each call keeps to the command's directory is what SecretFiles shows.
- KeyAgreement: key derivation is any function of its input bytes; NewKeypair's source of randomness is a finite list of draws.
- SessionCipher: AES is any permutation of blocks per key; the initial vector is a parameter. A block size of zero is excluded.
- Zeroing of buffers.
