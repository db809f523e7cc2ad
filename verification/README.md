# Verification of the device platform's protocols and text engines

A Dafny model of the parts of the platform where a mistake costs a device, a key or a
document, with proofs over every input and every run. `dafny verify dfyconfig.toml` checks
everything.

- **Device-key transfers.** API keys live in one list per owner. A move takes one entry from one
  owner's list to another's with an optimistic two-key swap whose reply may be lost; a restore
  takes it back. `KeyEntries` says which entry a device's lastkey names and what a moved entry
  becomes. `KeyTransfers` is the step machine: any number of moves and restores, two separate
  reads each, one atomic swap (run, lost, or run late after its sender gave up), re-reads, and
  `create` and `revoke` as single steps, and `KeySteps` builds runs of it. `KeyConservation` proves
  conservation over all runs and `KeyRestoreGap` shows the one way it fails. `KeyTruth` (moves),
  `KeyRestores` and `KeyStripGap` (restores) say which answers are true, and exactly when one is
  not; `KeyRefusals` says when a move is refused and for which reason, and that an owner's MQTT key
  stays; `JsonCodec` is the codec of JSON texts, and `KeyExamples` what the example runs share.
  `TransferBinding` is about the binding that moved entries carry, `KeyStore` is the store service
  with the swap script.
- **Remote builds.** `RemoteDispatch` (workers, listeners, refusals), `TerminalFrames` (one
  terminal frame per build), `ShellCommand` (the `cmd` string of old workers against the POSIX
  shell's reading of it).
- **Anti-CSRF tokens.** `CsrfTokens` (the signed message), `CsrfSessions` (middleware, login and
  browser as one run).
- **Design documents.** `JsonText`, `CanonicalJson` and `DesignUpsert`: canonical equality, and
  the compare-then-write protocol on a store with revisions.
- **Batch jobs.** `Pagination` and `PurgeUsers`, and both together in `PurgeScans`; `KeyRewrap`,
  whole runs of it in `KeyRewrapRuns`, and the file format in `KeyFiles`.
- **Text engines.** `NginxLexer` and `NginxLayout`, `Splitting`, `CspPolicy`, `HeaderParity`,
  `HeaderReports`, `HeaderRules` and `EvalException` (console headers), `Replacing` and `Redaction`
  (managed logs), `CallScanner` and `CallExtraction` (logging audit).
- **Update decision.** `SemVer` and `VersionTexts`, `UpdateOffer`, `OfferTexts` and `EndlessOffer`.
- `Wrappers`, `Sums`, `JsText` and `StringOrder` hold what several of them share.

Code that changes state is a class or a method with a loop, proved against a function of the old
state; the properties are lemmas about those functions. Outside services are parameters: a hash
and a MAC are functions (that a hash has no collisions is a hypothesis where it is used; where a MAC
collides is part of the statement), Transit is a function from ciphertext
to plaintext, clocks and random values arrive as arguments, and every answer that may fail,
arrive late or not at all is an event of a run.

## Where the code falls short of what it says

- A restore can lose a key. When the swap's reply is lost, the move re-reads both stores and
  overwrites the texts of its record with what it read (`lib/thinx/apikey.js:557-567`). If
  another move, create or revoke has changed one of the two stores in between, restoring that
  record undoes the other change too. `KeyRestoreGap.RestoreCanLoseAKey` is such a run;
  `KeyConservation.ReadRecordBalancesIff` says exactly which re-read records are harmless, and
  `KeyConservation.RunConservesIff` that the steps of a run conserve if and only if its restores
  balance. Runs of moves alone always conserve.
- A move can be refused and happen all the same. A swap whose reply was lost may run after the
  re-read that refused the move (`lib/thinx/apikey.js:557-576`), with no other writer involved:
  `KeyTruth.RefusedThenMoved`, and `KeyTruth.TornIsInconsistent` for the inconsistent outcome.
  `KeyTruth.MoveAnswersTruthfully` says exactly when a refusal is true.
- "moved_back" can leave the entry at its old owner and take another key from the target with it.
  When the restore's swap has applied and its reply was lost, the strip move looks for the lastkey
  at a target that no longer holds the moved entry (`lib/thinx/apikey.js:653-676`), and takes the
  key that the lastkey names there. `KeyStripGap.MovedBackTakesAnother` is a whole run;
  `KeyStripGap.MovedBackIsTrueIff` says that the answer is true in every run if and only if, before
  the move, the lastkey named no other key at the target that a strip move could take.
- A rewrap can undo another process's write: the script checks that the file is unchanged and then
  renames over it (`scripts/migrate-deploy-keys.js:241-284`). `KeyRewrap.RaceLosesAKey` puts any
  other key in between; `KeyRewrapRuns.RunLosesKeyIff` says of whole runs exactly which keys are
  lost.
- The queue frees a worker on a status that names another build (`lib/thinx/queue.js:504-512`), and
  can then have a second job sent beside the one it runs: `RemoteDispatch.AnotherStatusFrees`.
- The two binding checks agree on well-formed stores except when the entry's hash is itself
  another entry's key; `TransferBinding.ChecksAgreeIff` states it both ways and
  `TransferBinding.ChecksCanDisagree` has two such entries.
- An empty argument disappears from the `cmd` string (`lib/thinx/builder.js:253-260`);
  `ShellCommand.ShellReadsTheArguments` says that the round trip is exact if and only if no
  argument is empty.
- `canonical` drops `__proto__` keys as well as `_rev`, because assigning one to a fresh object
  sets its prototype (`lib/thinx/design_upsert.js:33-43`); `CanonicalJson.ProtoKeyIsIgnored`.
- The header checker's comment says Permissions-Policy features are compared as a set
  (`scripts/check-console-headers.js:20`); the code compares sorted lists, so repeated features
  and repeated CSP sources count. The model follows the code: `HeaderRules.RepeatIsDrift` is two
  values with one set of features that drift, and `HeaderRules.ComparedAsSetIff` says that a value
  is compared as a set if and only if it repeats no feature.
- A device that reports the envelope's whole version can be offered the same build for ever:
  only the first eight dot-separated parts of its report are kept
  (`lib/thinx/deployment.js:176-182`), which can cut the colon off and leave an older version.
  `EndlessOffer.ReflashedIff` gives the exact condition on the version's text,
  `EndlessOffer.OlderNameIsReflashed` a whole family with `EndlessOffer.OlderNameExists` as its
  witness, and `UpdateOffer.ShortNamesAreSafe` the check that rules it out. A device that reports
  the part after the last colon is never reflashed (`UpdateOffer.TagReportIsNotOffered`).

## Model

| member | source | states |
|---|---|---|
| KeyEntries.FindDeviceKey | lib/thinx/apikey.js:373-389 | an identified entry is an entry of the list, at the position answered |
| KeyEntries.FoundIffOnlyHit | lib/thinx/apikey.js:357-389 | lastkey identifies an entry if and only if it is a candidate of that entry and of no other |
| KeyEntries.ScanForDeviceKey | lib/thinx/apikey.js:373-389 | the counting loop answers what the definition by all matches answers, ambiguity and absence included |
| KeyEntries.FoundHoldsKeyAlone | lib/thinx/apikey.js:373-389 | in a well-formed store the identified entry is the only one with its key or hash |
| KeyEntries.MovedKeepsCore | lib/thinx/apikey.js:596-622 | a move changes nothing of an entry but its alias and its transfer binding; a strip move removes the binding |
| KeyEntries.MovedAliasKeptIff | lib/thinx/apikey.js:612-614 | the alias stays if and only if no entry of the target has it, else it is extended |
| KeyEntries.MoveConservesCores | lib/thinx/apikey.js:596-630 | taking an entry out of one list and appending its moved form to another conserves the identities of both lists together |
| KeyStore.ScriptIsSwap | lib/thinx/apikey.js:31-43 | on the two stores of a move the script compares both and then writes both, empty text deleting, or does nothing |
| KeyStore.Redis.CompareAndSwap | lib/thinx/apikey.js:31-43 | the script's loops: 1 and all writes when every key matches, else 0 and no write |
| KeyStore.Redis.Create | lib/thinx/apikey.js:121-209 | a new entry is appended unless its key or alias is taken or the store is unreadable; other owners are untouched |
| KeyStore.CreateKeepsDistinct | lib/thinx/apikey.js:121-209 | create refuses if and only if the new entry would share a key or an alias with another |
| KeyStore.Redis.Revoke | lib/thinx/apikey.js:679-738 | exactly the entries whose hash is listed go, the others stay in order and are written back as a list, whatever JSON value was stored; the listed hashes are answered; a missing store, a text that is no JSON and a null element change nothing |
| KeyStore.RevokedAreListed | lib/thinx/apikey.js:679-738 | an entry is removed if and only if its hash is listed, and kept otherwise |
| KeyStore.AnsweredAreRemoved | lib/thinx/apikey.js:679-738 | for a request without repeats the hashes answered are those of the removed entries, one each and in order |
| KeyConservation.SwapConservesIff | lib/thinx/apikey.js:31-43 | a swap conserves every identity's total if and only if it is refused or its texts balance |
| KeyConservation.PlanBalances | lib/thinx/apikey.js:596-631 | the texts a move writes carry the identities of the texts it read |
| KeyConservation.NextKeepsInv | lib/thinx/apikey.js:538-670 | every step of every interleaving keeps the swaps under way balanced and the attempts within bounds |
| KeyConservation.AtMostThreeSwaps | lib/thinx/apikey.js:578-646 | in every run a move sends at most three swaps and a restore one more |
| KeyConservation.SwapStepConservesIff | lib/thinx/apikey.js:502-510 | a server step conserves if and only if its swap is refused or balanced, and a move's swap always is |
| KeyConservation.RunConserves | lib/thinx/apikey.js:538-670 | over every interleaving whose restores balance, the stores hold what they held plus what was created less what was revoked |
| KeyConservation.RunConservesIff | lib/thinx/apikey.js:538-670 | over every interleaving, the steps of a run conserve if and only if its restores balance |
| KeyConservation.MovesConserve | lib/thinx/apikey.js:538-646 | without restores this needs no condition, whatever replies are lost, late or retried |
| KeyConservation.KeyStaysInOneStore | lib/thinx/apikey.js:538-670 | a key that starts in exactly one store is in exactly one store after every such run |
| KeyConservation.RepliedRecordBalances | lib/thinx/apikey.js:631-643 | a record answered by the swap's own reply restores what the move took |
| KeyConservation.ReadRecordBalancesIff | lib/thinx/apikey.js:557-567 | a record confirmed by re-reading conserves if and only if the re-read texts carry what the swap wrote |
| KeyRestoreGap.RestoreCanLoseAKey | lib/thinx/apikey.js:557-567 | a run of two moves and one restore after which a key nobody revoked is in no store |
| KeyTruth.PlanMovesOneCopy | lib/thinx/apikey.js:596-631 | a planned swap takes the one copy of its entry out of the source and puts one copy into the target |
| KeyTruth.DecideIsTruthful | lib/thinx/apikey.js:557-576 | after a lost reply the re-read decides success exactly when the swap applied, and failure exactly when it did not |
| KeyTruth.MoveAnswersTruthfully | lib/thinx/apikey.js:538-646 | with no other writer on the two stores, success is always true (once in the target, not in the source); a refusal other than the unreadable outcome is true (both stores untouched) if and only if no swap the move gave up on has run, and one that ran came after the first re-read: before the second exactly when the answer is the inconsistent outcome |
| KeyRefusals.RefusedIff | lib/thinx/apikey.js:578-594 | each refusal of a move that has read both lists is answered exactly for its own reason: an unreadable list, no entry or several with lastkey as hash of the key, hash or hash of the hash, an alias that says "Default MQTT API Key" (moves only), or an entry at the target that shares key or hash |
| KeyRefusals.SentIs | lib/thinx/apikey.js:596-631 | otherwise what is sent expects the texts read and writes the source without the one entry named and the target with it last |
| KeyRefusals.RefusedOnThirdMiss | lib/thinx/apikey.js:633-646 | over every run, a swap that met other texts is tried again from fresh reads, and the third one refuses the move |
| KeyRefusals.RereadIff | lib/thinx/apikey.js:557-576 | after a lost reply: success if and only if no entry of the source and exactly one of the target shares key or hash, failure the other way round, unknown if and only if a list is unreadable |
| KeyRefusals.MqttKeyStays | lib/thinx/apikey.js:391-394 | over every run without restores, an entry whose alias says "Default MQTT API Key" leaves its owner only by a revoke that lists its hash |
| KeyRefusals.CreatedIsNamed | lib/thinx/apikey.js:121-209 | a created entry is named by the hash of its key, and no other well-formed entry is |
| KeyTruth.RefusedThenMoved | lib/thinx/apikey.js:557-576 | any move that has sent its swap has a run in which it is refused and its swap applies afterwards, with no other writer |
| KeyTruth.TornIsInconsistent | lib/thinx/apikey.js:557-576 | and one in which it answers the inconsistent outcome and its swap has applied |
| KeyRestores.RestoreAnswers | lib/thinx/apikey.js:653-676 | with no other writer, whatever is answered: the entry is once in exactly one of the two stores, the move is in place if and only if none of the restore's swaps applied, otherwise it is undone (or another key that lastkey names was taken); "restored" gives back both raw stores and "moved_back" never leaves the move in place |
| KeyStripGap.MovedBackIsTrueIff | lib/thinx/apikey.js:653-676 | "moved_back" means the entry is back and the target has lost nothing else, in every run, if and only if lastkey named no other key at the target that the strip move could take; the codec need only write the two lists of that strip move |
| JsonCodec.JsonCanWrite | lib/thinx/apikey.js:596-631 | with JSON stores the two lists of a strip move can always be written |
| JsonCodec.MovedBackIsTrueIffInJson | lib/thinx/apikey.js:653-676 | so with JSON stores "moved_back" is true in every run if and only if lastkey named no other key at the target |
| KeyStripGap.MovedBackTakesAnother | lib/thinx/apikey.js:653-676 | a run from two stores of one key each, nobody else writing, in which a restore answers "moved_back" and both keys end at the same owner |
| TransferBinding.HopBinds | lib/thinx/apikey.js:596-611 | one transfer binds the earlier owners and the source, without the target and without repeats |
| TransferBinding.ChainBinds | lib/thinx/apikey.js:596-611 | along any chain of transfers, owners repeating or not, the binding lists every former owner once and never the current one |
| TransferBinding.FormerOwnersAccepted | lib/thinx/apikey.js:401-411 | the redirect accepts exactly the former owners of the device's entry |
| TransferBinding.RedirectIff | lib/thinx/apikey.js:401-411 | on any list: accepted if and only if all texts are given, one entry alone has the presented text as key or hash, and its binding for that device lists the owner |
| TransferBinding.CheckIff | lib/thinx/apikey.js:430-476 | the check by lastkey accepts if and only if lastkey names one entry alone and the redirect accepts that entry's hash, or its key when it has no hash |
| TransferBinding.HitIffPresents | lib/thinx/apikey.js:357-367 | the hash a device's lastkey holds is a candidate of an entry if and only if the device presented that entry's key or hash |
| TransferBinding.ChecksAgreeIff | lib/thinx/apikey.js:401-476 | the check by lastkey accepts if and only if the check by presented key does and the entry's hash is no other entry's key |
| TransferBinding.ChecksCanDisagree | lib/thinx/apikey.js:401-476 | two well-formed entries, one keyed by the other's hash, on which the two checks answer differently |
| RemoteDispatch.FailsIffItsWorkerRefuses | lib/thinx/builder.js:404-490 | over every run, whatever happens to other builds, the refusal contract runs for a dispatch if and only if its job is not sent or the first deciding status for its build on its own worker's socket is a refusal, and then once |
| RemoteDispatch.Worker.Release | lib/thinx/builder.js:458-464 | a worker that carries another build's job stays as it is, any other becomes free |
| RemoteDispatch.Worker.OnStatus | lib/thinx/builder.js:397-430 | which listeners a status leaves attached and which dispatches it refuses, in order |
| RemoteDispatch.Builder.RunRemoteShell | lib/thinx/builder.js:285-435 | when a job is sent, what the worker then carries, and what a refusal before the emit leaves |
| RemoteDispatch.CarriedBuildsWereSent | lib/thinx/builder.js:285-435 | over every run, a worker that carries a build was sent that build's job last, every job's cmd reads back as its argv, and only dispatches made listen or are refused, each refused one with one run of the contract |
| RemoteDispatch.Builder.RefuseDispatch | lib/thinx/builder.js:479-484 | the refusal contract runs the first time and never again |
| RemoteDispatch.Builder.DispatchRemoteBuild | lib/thinx/builder.js:478-490 | a job not sent runs the refusal contract, a job sent does not |
| RemoteDispatch.Builder.HandleStatus | lib/thinx/builder.js:404-430 | a status runs the refusal contract of exactly the dispatches it refuses |
| RemoteDispatch.WorkerKeepsItsBuild | lib/thinx/builder.js:285-464 | over every run, until the queue takes it back, a releasing status of any build arrives on its socket, or its own dispatch is refused, a worker keeps its build and is sent no other build's job |
| RemoteDispatch.AnotherStatusFrees | lib/thinx/queue.js:504-512 | from any state in which a worker carries a build, a refusal that names another build frees it, and the other build's job is then sent beside the one it runs |
| RemoteDispatch.FailRunsOncePerRefusal | lib/thinx/builder.js:469-490 | over every run, the refusal contract runs once for a dispatch that is ever refused and never for another |
| RemoteDispatch.StatusLeavesOtherBuilds | lib/thinx/builder.js:404-446 | a status leaves the listeners of every build it is not for attached and refuses none of them |
| RemoteDispatch.StatusRefusesIff | lib/thinx/builder.js:404-453 | after any run, while a job's listener is attached, a status on its connected socket runs the contract if and only if it names the build, says Failed, gives details and is no completed result |
| RemoteDispatch.JobCommandIsItsArgv | lib/thinx/builder.js:253-260 | what an old worker's shell makes of a sent job is the builder with the job's argv |
| TerminalFrames.Memory.TerminalFrameSent | lib/thinx/builder.js:161-170 | answers membership, and otherwise appends and forgets the oldest beyond the bound |
| TerminalFrames.Memory.Notify | lib/thinx/builder.js:182-206 | which calls send a frame and which change the memory |
| TerminalFrames.MemoryIsLatestEnded | lib/thinx/builder.js:161-170 | the memory is the last thousand builds that ended, each once, after any calls |
| TerminalFrames.SuppressedIffRecent | lib/thinx/builder.js:182-206 | a frame is sent if and only if it has a message and somewhere to go and does not end (Completed, or no success and nothing of build_running) a build among the last thousand that ended |
| TerminalFrames.EndedGrows | lib/thinx/builder.js:182-206 | a build ends by such a frame that is sent, and by nothing else |
| TerminalFrames.RepeatsAreFarApart | lib/thinx/builder.js:161-170 | between two terminal frames of one build a thousand others have ended |
| ShellCommand.ReadArgument | lib/thinx/builder.js:253-260 | a printed non-empty argument is read back as itself whatever follows it, through the stripped pair and the collapse |
| ShellCommand.ShellReadsTheArguments | lib/thinx/builder.js:253-260 | a POSIX shell reads the command as the non-empty arguments, so as the arguments if and only if none is empty |
| CsrfTokens.MessageInjective | lib/middleware/csrf.js:125-130 | two different pairs of session and nonce never sign the same message |
| CsrfTokens.CheckIffMinted | lib/middleware/csrf.js:132-148 | a token passes for a session if and only if it was minted for it |
| CsrfTokens.TokenBindsOnce | lib/middleware/csrf.js:138-148 | a token that passes for one session passes for another if and only if the MAC collides on the two different messages they sign |
| CsrfSessions.LegacyTokenNeverChanges | lib/middleware/csrf.js:424-482 | in legacy mode, after a first request and any further run, logins included, a request of the browser passes the enforced guard if and only if its header is the very token the browser held after that first request |
| CsrfSessions.ObserveAcceptsWhatLegacyAccepts | lib/middleware/csrf.js:424-512 | observe mode lets through exactly what legacy mode lets through |
| CsrfSessions.SignedPassesIffHeaderBinds | lib/middleware/csrf.js:424-512 | enforced signed mode passes a request if and only if it is a bearer call, a cookieless call with an API key off the public routes, or its header binds to its own primed or logged-in session |
| CsrfSessions.KeysExemptOnlyCookielessCalls | lib/middleware/csrf.js:424-440 | in every mode a bearer token is enough; an API key is on a cookieless call off the public routes and counts for nothing elsewhere; unenforced, everything passes |
| CsrfSessions.CookieCallsNeedTheToken | lib/middleware/csrf.js:424-512 | over every run in enforced signed mode, a request of the browser that is no bearer call passes if and only if its header binds to the live session, whatever API key it carries |
| CsrfSessions.Handler.SetBoundToken | lib/middleware/csrf.js:280-289 | the cookie set and the token answered are the same, minted for the session |
| CsrfSessions.Handler.EnsureXsrfCookie | lib/middleware/csrf.js:298-325 | per mode, when the global middleware sets a cookie and which |
| CsrfSessions.Handler.IssueCsrfToken | lib/middleware/csrf.js:330-362 | priming marks the session, and echoes a token that binds to it |
| CsrfSessions.Handler.EstablishSession | lib/thinx/establish_session.js:20-37 | regenerate, rotate, then the owner; a store that cannot regenerate leaves everything as it was |
| CsrfSessions.NextSettles | lib/middleware/csrf.js:298-368 | whatever the browser held, one request settles it on a bound token, and nothing unsettles it |
| CsrfSessions.LastTokenPasses | lib/middleware/csrf.js:280-368 | after any run the browser's token binds to its live session and a guarded request with it passes |
| CsrfSessions.PrimeEchoesTheToken | lib/middleware/csrf.js:330-362 | a priming answer echoes the token the browser then holds |
| CsrfSessions.NoTokenSurvivesLogin | lib/thinx/establish_session.js:20-37 | in enforced signed mode a token of any session used before a login passes after it, at once or after any further run, if and only if the session is then persisted and the MAC collides on its message and the old one; so it is refused |
| JsonText.PrintUnique | lib/thinx/design_upsert.js:45-48 | two different JSON values never print the same text, so comparing texts compares values |
| CanonicalJson.CanonicalIff | lib/thinx/design_upsert.js:33-43 | canonical forms are equal if and only if the values are equal up to key order and dropped keys at every depth |
| CanonicalJson.SameDesignIffEquivalent | lib/thinx/design_upsert.js:45-48 | on parsed documents sameDesign is equality up to key order and the keys _rev and __proto__, at every depth |
| CanonicalJson.FieldCountsIff | lib/thinx/design_upsert.js:33-48 | a field more is not seen by sameDesign if and only if its key is _rev or __proto__ |
| CanonicalJson.ProtoKeyIsIgnored | lib/thinx/design_upsert.js:33-43 | a `__proto__` member is invisible to sameDesign |
| DesignUpsert.WrittenIsSame | lib/thinx/design_upsert.js:94-142 | what a write stores compares equal to what was desired, whatever revision it gets |
| DesignUpsert.NextKeepsInv | lib/thinx/design_upsert.js:94-142 | every step of every interleaving keeps at most one write accepted and every pending one stale after it |
| DesignUpsert.UpsertConverges | lib/thinx/design_upsert.js:94-142 | over every run at most one write succeeds, an equal document is never overwritten, and after any ok the store is equal |
| DesignUpsert.RereadFindsEqual | lib/thinx/design_upsert.js:123-138 | after a conflict the re-read finds the document equal |
| DesignUpsert.AnswersTell | lib/thinx/design_upsert.js:90-147 | over every run: ok goes with created, updated and unchanged only; at most one instance answers created or updated, created exactly when there was no document at the start; and the first read decides unchanged exactly on an equal document |
| Pagination.FetchPage | scripts/purge-unused-users.js:51-70 | one request: the new rows after the cursor, design documents skipped, a row without a document refused |
| Pagination.Documents | scripts/purge-unused-users.js:51-70 | the loop over changing snapshots answers the recursive scan |
| Pagination.PageSlice | scripts/purge-unused-users.js:51-70 | a page's new rows are the next rows beyond the cursor, at least one when there is any, even if the cursor's document is gone |
| Pagination.ScanYields | scripts/purge-unused-users.js:51-70 | under arbitrary inserts and deletes the yielded ids strictly ascend and every visible id present throughout is yielded |
| Pagination.FixedScanIsFullScan | scripts/purge-unused-users.js:51-70 | on a fixed database the scan ends and is the full list of visible rows |
| PurgeUsers.DeletesExactly | scripts/purge-unused-users.js:115-154 | the loop ends normally if and only if no read, device query or deletion fails; its deletions, changes and conflicts are exactly those of the answers before the first that does |
| PurgeUsers.Purge.ScanAll | scripts/purge-unused-users.js:72-95 | both scans: the candidates and the count of every reason to retain, nothing outside touched |
| PurgeUsers.Purge.Run | scripts/purge-unused-users.js:72-154 | when deletions happen at all, that the snapshot comes first, and the counters of a normal return |
| PurgeUsers.ScanAccounts | scripts/purge-unused-users.js:87-95 | scanned is candidates plus all retained |
| PurgeUsers.ApplyAccounts | scripts/purge-unused-users.js:115-154 | when not aborted, candidates is deleted plus changed plus conflicts |
| PurgeUsers.DeletionsAreSafe | scripts/purge-unused-users.js:72-154 | every deletion follows the snapshot holding its document; its user was a candidate at both reads with one revision and owned no device |
| PurgeScans.DeletedOwnNoLastingDevice | scripts/purge-unused-users.js:51-154 | while both databases change under the scans: no user deleted owns, in every snapshot read, a device that is there throughout the device scan, and what is deleted was read in some snapshot as the unused document that is snapshotted |
| PurgeScans.LastingUsersAreCounted | scripts/purge-unused-users.js:51-95 | every user there throughout the user scan is read exactly once, and is a candidate if and only if nothing retains it |
| KeyRewrap.Migration.Replace | scripts/migrate-deploy-keys.js:241-284 | a file is replaced only when the check before the rename finds the bytes scanned, whatever others write before and after that check, and a key revoked meanwhile is not brought back |
| KeyRewrap.Migration.One | scripts/migrate-deploy-keys.js:362-408 | one entry of the run: which counter it adds to and what it writes, per answer |
| KeyRewrap.Migration.Run | scripts/migrate-deploy-keys.js:331-413 | the loop computes the whole run, with the latest version learned first |
| KeyRewrap.EveryFileIsCounted | scripts/migrate-deploy-keys.js:331-413 | rewrapped, at latest, changed and failed add up to the transit files, whatever is answered |
| KeyRewrap.NothingAfterAbort | scripts/migrate-deploy-keys.js:362-366 | after an abort nothing is written and every remaining file counts as not attempted |
| KeyRewrap.RewrapKeepsPlaintext | scripts/migrate-deploy-keys.js:371-408 | a counted rewrap found the bytes scanned at its check, put a latest-version ciphertext of the same plaintext in place, and left every other file as others had it |
| KeyRewrapRuns.RunLosesKeyIff | scripts/migrate-deploy-keys.js:241-413 | after a whole run a path holds another key than others alone would have left there if and only if some step, with nobody writing the path after it, renamed over a key that others had removed or replaced since its check, or took away a file whose public key had gone |
| KeyRewrapRuns.MissingIsRemoved | scripts/migrate-deploy-keys.js:241-413 | a file that is missing after a run was removed by others during it, or its public key was |
| KeyFiles.VersionReadsIff | lib/thinx/keyformat.js:21-31 | a text is a transit file of a version if and only if, trimmed, it is vault:v, that number without leading zeros, a colon, and base64 with at most two pads |
| KeyRewrap.RaceLosesAKey | scripts/migrate-deploy-keys.js:241-284 | any other key put in place between the check and the rename is lost, and a rewrap is counted |
| KeyRewrap.NoKeyIsCorrupted | scripts/migrate-deploy-keys.js:331-413 | after the whole run every file is as it was, as somebody else wrote it, or a rewrap of its own bytes |
| KeyRewrap.SecondRunIsIdle | scripts/migrate-deploy-keys.js:331-413 | after a clean run a second one at the same version rewraps and writes nothing |
| NginxLexer.Tokenise | scripts/check-console-headers.js:78-130 | the index loop answers the tokens of the text, or which construct is left open at which line |
| NginxLexer.TakeQuoted | scripts/check-console-headers.js:107-121 | the quoted word, where it ends, and the line it ends on |
| NginxLexer.TakeWord | scripts/check-console-headers.js:102-126 | a word of bare and quoted pieces, where it ends, and its lines |
| NginxLexer.TokensInvertPrint | scripts/check-console-headers.js:78-130 | tokenising any layout of any statements, words of bare and quoted spans and optional backslashes in any mixture, gives back every word and terminator, with the line of each statement's first word |
| NginxLayout.AcceptedIffLaidOut | scripts/check-console-headers.js:78-130 | a text is tokenised without an error if and only if it is a layout of some statement list, and then the answer is that list |
| Splitting.CollapseIsWords | scripts/check-console-headers.js:258-260 | collapsing gives the words of the text one space apart |
| CspPolicy.ReadTidiesWritten | scripts/check-console-headers.js:263-272 | the split, map and filter chain reads the directives as written, names lower-cased, placeholders dropped, sources sorted |
| CspPolicy.NormalValueDecidesMeaning | scripts/check-console-headers.js:263-298 | two policies have the same normal value if and only if, per name and in order, their directives list the same sources equally often |
| CspPolicy.NormalValueIsStable | scripts/check-console-headers.js:263-298 | re-parsing a normal value is the identity and keeps the meaning |
| CspPolicy.LowerFolds | scripts/check-console-headers.js:263-272 | two names are folded together if and only if they differ in the case of unaccented letters only |
| HeaderParity.Normalise | scripts/check-console-headers.js:282-298 | the loop keeps one normal header per name |
| HeaderParity.FirstHeaderWins | scripts/check-console-headers.js:278-298 | under each name it is that of the first header of the name |
| HeaderParity.Compare | scripts/check-console-headers.js:324-349 | the loop reports the drift and the warnings of every name, in name order |
| HeaderParity.SilentIffCovered | scripts/check-console-headers.js:301-319 | a side of a CSP difference names nothing if and only if the other side has all its directives and sources |
| HeaderParity.NoDriftIffSameValues | scripts/check-console-headers.js:324-349 | no drift is reported if and only if the two value maps are equal |
| HeaderParity.NoDriftIffSameHeaders | scripts/check-console-headers.js:263-349 | no drift between two files if and only if every header name is absent from both or means the same in both |
| HeaderParity.CompareIsSymmetric | scripts/check-console-headers.js:324-349 | comparing the other way round swaps the sides and changes nothing else |
| EvalException.ComparedButEval | scripts/check-console-headers.js:353-363 | what the exception compares is the meaning as written, except that where the last script-src of the other side omits 'unsafe-eval', none of its script-src may list it and the canonical side may |
| HeaderParity.ExceptionKeepsOthers | scripts/check-console-headers.js:353-363 | and leaves every other header compared as before |
| HeaderRules.ForgivenIffOnlyEvalOmitted | scripts/check-console-headers.js:263-363 | with the exception on, two files drift nowhere if and only if their policies are the same but for an omitted 'unsafe-eval' and every other header is absent from both or means the same |
| HeaderReports.DriftIff | scripts/check-console-headers.js:324-349 | the drift is exactly one difference per header that one side lacks or whose values differ, with the two values, the policy sides, or (absent) |
| HeaderReports.WarningIff | scripts/check-console-headers.js:324-349 | a warning is given exactly for a header of both sides that only one always sends, and says which |
| HeaderReports.SideNamesWhatIsMissing | scripts/check-console-headers.js:301-319 | a side of a policy difference names exactly the directives the other does not cover, in order, each with exactly the sources missing there |
| HeaderRules.ComparedAsCounts | scripts/check-console-headers.js:274-276 | two Permissions-Policy values compare equal if and only if they list the same features equally often |
| HeaderRules.ComparedAsSetIff | scripts/check-console-headers.js:274-276 | a value is compared as a set with every value that repeats no feature if and only if it repeats none itself |
| HeaderRules.RepeatIsDrift | scripts/check-console-headers.js:274-276 | one feature, and the same feature twice, are the same set and drift |
| Redaction.MatchIffEmailAt | scripts/redact-managed-logs.js:60-68 | the backtracking match is found exactly where some e-mail address starts |
| Replacing.Gone | scripts/redact-managed-logs.js:207-214 | a global replacement leaves no match when the marker takes part in none |
| Replacing.KeepTheRest | scripts/redact-managed-logs.js:207-214 | a global replacement keeps every character outside the matches, in order |
| Redaction.RedactedIsClean | scripts/redact-managed-logs.js:207-214 | a redacted text holds no reset key and no e-mail address, whatever the text |
| Redaction.EmailsKeepNoKey | scripts/redact-managed-logs.js:207-214 | the second replacement never re-creates a match of the first |
| Redaction.RedactIdempotent | scripts/redact-managed-logs.js:207-214 | redacting twice is redacting once |
| Redaction.KeysKeepTheRest | scripts/redact-managed-logs.js:207-214 | only whole reset keys are cut, all else is kept in order |
| Redaction.EmailsKeepTheRest | scripts/redact-managed-logs.js:207-214 | only whole e-mail addresses are cut, all else is kept in order |
| Redaction.MatchAny | scripts/redact-managed-logs.js:123-128 | finds a hit if and only if the text is not clean |
| Redaction.ContainsRawPII | scripts/redact-managed-logs.js:107-128 | true if and only if a text of message or flags is not clean |
| Redaction.RedactDoc | scripts/redact-managed-logs.js:175-205 | changed if and only if something is not clean, and what is then written |
| Redaction.RedactionReachesFixpoint | scripts/redact-managed-logs.js:175-205 | what is written is clean, so the next run changes nothing, and every other field is as it was |
| Redaction.CountsZeroIffClean | scripts/redact-managed-logs.js:138-170 | the scan counts no hit if and only if the text is clean |
| CallScanner.BuildLineStarts | scripts/logging-quality-audit.js:211-217 | the offsets at which the lines begin |
| CallScanner.LineNumberAt | scripts/logging-quality-audit.js:219-231 | the binary search answers one plus the newlines before the offset |
| CallScanner.IsCommentedLineStart | scripts/logging-quality-audit.js:233-238 | whether the text before the offset on its own line opens with a comment mark |
| CallScanner.FindCallEnd | scripts/logging-quality-audit.js:240-311 | always past the parenthesis and within the text; the end of the call, or of the line |
| CallScanner.CallEndsAtItsParenthesis | scripts/logging-quality-audit.js:240-311 | whatever strings, comments and nested parentheses the arguments hold, the call ends at its own closing parenthesis |
| CallScanner.UnclosedCallEndsWithItsLine | scripts/logging-quality-audit.js:309-310 | a call that nothing closes ends at the first newline from its parenthesis on, or with the text |
| CallExtraction.ExtractCalls | scripts/logging-quality-audit.js:313-342 | the loop answers the calls of the spans, which are inside the text, ascending and disjoint |
| CallExtraction.ExtractAll | scripts/logging-quality-audit.js:344-365 | the three extractions answer the calls of their three patterns |
| CallExtraction.PatternsMatch | scripts/logging-quality-audit.js:27-29 | the three patterns match exactly, at the start of a word, a call of a level of console or logger, of statsLog with or without its object, and of recordStatsEvent |
| CallExtraction.SpansAreCalls | scripts/logging-quality-audit.js:313-342 | every span is that of a match on a line that is not commented |
| CallExtraction.NoCallIsMissed | scripts/logging-quality-audit.js:313-342 | every match on a line that is not commented is found or lies inside a call found |
| CallExtraction.LinesAreOrdered | scripts/logging-quality-audit.js:327-329 | line is at most end_line, and they differ by the newlines of the call |
| SemVer.PrecedenceIsTotal | lib/thinx/deployment.js:396-404 | of two versions exactly one precedes the other, or they are equal (section 11 of Semantic Versioning 2.0.0) |
| SemVer.PrecedenceIsTransitive | lib/thinx/deployment.js:396-404 | precedence is transitive |
| VersionTexts.BelowIff | lib/thinx/deployment.js:396-404 | one version is below another if and only if it is at the first of major, minor, patch and prerelease identifiers where they differ, numbers before texts, and any prerelease before none |
| VersionTexts.ParsesIffSpelled | lib/thinx/deployment.js:164-187 | a text is a version if and only if it has at most 256 characters and, trimmed and without a leading v, spells one by the grammar; and it is that version |
| UpdateOffer.ParseDeviceVersion | lib/thinx/deployment.js:164-187 | the loop pads a report to three parts and cuts it at eight |
| UpdateOffer.HasUpdateAvailable | lib/thinx/deployment.js:375-424 | an offer if and only if the device's version is below the available one, or equal with a changed environment |
| UpdateOffer.SameVersionOfferedIff | lib/thinx/deployment.js:402-420 | on the available version, an offer if and only if both hashes are known, the device's is not the default, and the envelope's occurs nowhere in it |
| UpdateOffer.TagReportIsNotOffered | lib/thinx/deployment.js:88-129 | a device that reports the part after the last colon, with the envelope's hash, is never offered the build again |
| EndlessOffer.ReflashedIff | lib/thinx/deployment.js:88-187 | a device that reports the whole version, with the envelope's hash, is offered it again if and only if the text before the eighth dot is a version without a colon, the text after it holds one, and the numbers after the last colon collapse to a version above it |
| UpdateOffer.ShortNamesAreSafe | lib/thinx/deployment.js:164-187 | with at most eight parts it is never offered again |
| OfferTexts.TagStandsFor | lib/thinx/deployment.js:88-129 | whatever the firmware's name, a tag of numbers stands for its first, its second or 0, and its third, or the sum of the last of four or five, and for nothing when one is beyond the safe integers |
| OfferTexts.TagPartsAre | lib/thinx/deployment.js:103-107 | the tag is what follows the last colon, trimmed, without one leading v of either case |
| OfferTexts.ReportStandsFor | lib/thinx/deployment.js:164-187 | a missing report counts as 0.0.1, a valid one as itself, and any other as its first eight parts with zeros up to three |
| EndlessOffer.OlderNameIsReflashed | lib/thinx/deployment.js:164-187 | a firmware named by an older version of eight parts and more is offered for ever |
| EndlessOffer.OlderNameExists | lib/thinx/deployment.js:164-187 | such a name exists |

## Left out

- KeyConservation.RunConserves: `create` and `revoke` are one step each, as are the two writes of
  the swap script; torn interleavings of their GET and SET with a move are not conserved and not
  modelled.
- KeyEntries.MovedKeepsCore: the property order of a JSON object and the alias a moved entry gets
  when its alias is taken are part of the entry's new text, not of what is conserved.
- KeyStore.Redis.Create: the drawing of a random key, the validation of owner and alias texts and
  the log lines of a refusal are not modelled.
- KeyStore.Redis.Revoke: an error of the database is not modelled; in the step machine revoke is a
  step on stored lists only.
- KeyTruth.MoveAnswersTruthfully: other writers on the two stores are excluded; KeyConservation has
  them.
- RemoteDispatch.WorkerKeepsItsBuild: an old entry of a re-registered worker that a build still
  being prepared holds on to is a different worker of the run; the time bound of a reservation is
  the queue's step that frees the worker.
- RemoteDispatch.Builder.RunRemoteShell: the build arguments are checked as a whole (all flags or
  not); log lines and statistics are left out.
- TerminalFrames.Memory.Notify: the frame's contents and the sockets it goes to are left out.
- ShellCommand.ShellReadsTheArguments: of the shell, only splitting, quoting and the characters
  that end a simple command are modelled, as the command uses no other construct.
- CsrfSessions.LastTokenPasses: one token cookie per browser; the clearing of a second cookie of
  the same name, the answers when the session store is down or no key is configured, and the
  telemetry counters are left out.
- CsrfTokens.CheckIffMinted: what a caller without the key can compute is out of the model; a MAC is
  any function to 64 hex digits, and a collision of it is named where it matters.
- CanonicalJson.SameDesignIffEquivalent: numbers are kept as their printed tokens, and the
  enumeration of integer-like keys before all others is not modelled (both sides share it).
- DesignUpsert.UpsertConverges: the timeout of a request is an event that leaves its write under
  way; reasons and log lines are not modelled.
- Pagination.ScanYields: ids are ordered as the database orders them, not compared as texts.
- PurgeUsers.Purge.Run: documents are reduced to the fields the classification reads; the files and
  notices of a run are left out.
- KeyRewrap.Migration.Replace: of what other processes do after the rename, only the removal of the
  public key, which the script looks for, is modelled. File modes, temporary files, the count of
  requests, the version maps of the report and the files that are not transit ciphertexts are left
  out.
- KeyRewrapRuns.RunLosesKeyIff: Transit's ciphertexts are taken to come without white space around
  them, and a directory to list a name once.
- HeaderParity.NoDriftIffSameHeaders: header names that every JavaScript object inherits
  (`constructor`, `__proto__` and the like) are ordinary names here; letter case is folded for
  ASCII letters.
- The nginx parser behind the lexer (blocks, inheritance of proxy_hide_header, the structural
  problems of a file) and the file handling of the header checker.
- Redaction.RedactDoc: the order of an object's fields, and the batching, sampling and reporting
  around it.
- CallExtraction.ExtractCalls: the shortened excerpt of a call and the fields taken from the
  match's groups are left out; the patterns are matched by their names, spaces and parenthesis.
- CallScanner.CallEndsAtItsParenthesis: a template literal counts as a quoted string, and a regular
  expression literal is read as plain characters, as the scanner does.
- UpdateOffer.HasUpdateAvailable: reading the envelope from disk is left out, and versions are texts
  (a number is its text).
- SemVer.PrecedenceIsTotal: prerelease numbers beyond the safe integers are compared exactly, where
  the semver package would round them.
- HTTP routes, sockets, OAuth, Slack, Influx, MQTT and console output; real Redis, CouchDB, OpenBao,
  git, files and cryptography; the preparation of a build; `aes.js`, `acl.js` and the default-key
  circuit breaker.
