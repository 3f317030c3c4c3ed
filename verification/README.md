# Verified model of the RG40XXV mainline system

Dafny models of the parts of this system that must not go wrong when something else does:
the card's partition tables, the volume daemon, the programs that talk to each other in
text, and the algorithms of the shell. Each part has a specification on values, theorems
about every input, run or reachable state of it, and, where the original changes things in
place, classes and loops proved to be that specification.

- **GPT label switch** (`GptLayout`, `GptSwap`, `GptStages`, `GptCard`). A disk is a durable
  image plus unsynced sector writes; power may go after any call and leave unsynced sectors
  arbitrary. CRC-32 is an arbitrary function. In a history an interrupted run ends with
  power loss, so that the next one reads the durable image; for runs that start on unsynced
  writes a separate theorem says exactly when they are safe.
- **Cover cache** (`CoverCache`, `CoverCacheSafety`, `CoverCacheSizes`,
  `CoverCacheDelivery`, `CoverCacheRecency`, `CoverCacheThreads`). The regions under
  the mutex are the steps of a transition system of interface and decode worker.
- **Volume daemon** (`VolumeFormat`, `VolumeDaemon`, `VolumeAtomicity`, `VolumeRuns`,
  `VolumePlaying`, `VolumeService`). The outside is an arbitrary answer to every system call. `disk` is what
  volume.v1 holds after power loss; it follows the file only at a successful directory sync.
- **Bluetooth snapshot** (`BluetoothNames`, `BluetoothSnapshot`, `BluetoothRoundTrip`,
  `BluetoothNameLaws`, `BluetoothHelper`, `BluetoothPipeline`, `BluetoothKept`,
  `BluetoothAccepts`) and **backend** (`BluetoothBackend`, `BluetoothBackendSafety`,
  `BluetoothOutcome`, `BluetoothService`). The printer and the parser of two programs
  are put together; the helper may return any text at any time.
- **netstream store** (`NetstreamText`, `NetstreamTable`, `NetstreamFile`, `NetstreamWifi`,
  `NetstreamHosts`, `NetstreamAccepts`, `NetstreamStore`). Both databases are instances of one record format.
- **Shell algorithms**: incremental catalog refresh (`CatalogIncremental`, `CatalogRefresh`,
  `CatalogLimits`, `CatalogService`), merge sort and filters (`CatalogSort`, `CatalogFilters`), frame
  scheduler (`FrameScheduler`), analog hysteresis (`InputNavigation`), neutral latch
  (`InputLatch`).
- Shared: `Options`, `Decimal`, `Utf8`, `Percent`, `Fields`, `Cutting`, `Clock32`. Byte
  strings are strings of characters below 256.

Where the code and its comments or a natural reading disagree, the code is followed:

- `frame_scheduler_next_wait_ms` bounds its wait only with the screen on or with raw input
  (`FrameScheduler.WaitIsBounded`).
- The volume daemon deletes volume.v1 when the first commit fails after the controls were
  applied (`VolumeRuns.FailedFirstCommit`, `StartCanLoseSetting`).
- The nine transaction stages are those of one bundle; both together reach a tenth
  (`GptStages.TwoBundlesLeaveTheNine`).
- A rollback reads cached writes without syncing them first, which is safe only if the copy
  it writes second has none (`GptSwap.SafeExactlyIfSecondCopySynced`).
- netstream's number fields refuse a sign in front, but take one behind white space, where
  strtoul negates modulo 2^64 (`NetstreamText.NumeralAccepted`, `MinusBehindSpace`).
- netstream's loader reads each line up to the first NUL (`NetstreamFile.LoadSeesUpToNul`).

Check the whole project with `dafny verify dfyconfig.toml`.

## Model

| member | source | states |
|---|---|---|
| `GptLayout.LeRoundTrip` | tools/rg40xxv-gpt-label-swap.py:245-274 | Little-endian packing of a number that fits and unpacking it again is the identity. |
| `GptLayout.ValidateExactlyBuiltHeader` | tools/rg40xxv-gpt-label-swap.py:471-512 | For any bytes and any CRC function, validate_gpt_copy accepts a header and table if and only if the table has 1024 bytes and the header is byte for byte the one header_for_table builds for it. |
| `GptLayout.HeadersDifferOnlyInCrcs` | tools/rg40xxv-gpt-label-swap.py:550-562 | Headers of any two tables agree at every byte outside 16-19 and 88-91. |
| `GptSwap.RunNeverLosesBoth` | tools/rg40xxv-gpt-label-swap.py:611-644 | Power loss after any call of a two-copy rewrite, with the unsynced sectors arbitrary, leaves one copy exactly old or exactly new, provided the copy written second was exact at the start. |
| `GptSwap.HistoryKeepsRecoverable` | tools/rg40xxv-gpt-label-swap.py:1066-1161 | Any sequence of activate, deactivate and rollback runs, each completed or cut by power loss, keeps at least one exact stock or activated copy and every sector outside the two copies. |
| `GptSwap.SafeAtEveryInstant` | tools/rg40xxv-gpt-label-swap.py:611-644 | The same at every instant inside the next run: for the durable image, for what is read back, and for what any power loss would leave. |
| `GptSwap.RollbackAlwaysRestores` | tools/rg40xxv-gpt-label-swap.py:1164-1230 | After any such history an uninterrupted rollback is not refused and ends exactly at the before snapshot. |
| `GptSwap.RollbackRestores` | tools/rg40xxv-gpt-label-swap.py:1183-1225 | From any disk with one exact endpoint copy, the other torn at will, a completed rollback leaves both copies exactly at the before snapshot. |
| `GptSwap.AuditedStatesClassify` | tools/rg40xxv-gpt-label-swap.py:515-530 | The stock and the activated snapshot are each classified as themselves, never as each other or unknown. |
| `GptSwap.TransitionReaches` | tools/rg40xxv-gpt-label-swap.py:1066-1161 | A completed activate or deactivate from an audited state reaches exactly the other one, and is a no-op when already there. |
| `GptSwap.InterimChecksPass` | tools/rg40xxv-gpt-label-swap.py:973-1013 | None of the checks made after a synced stage fails in an uninterrupted run, forwards or back. |
| `GptSwap.SafeExactlyIfSecondCopySynced` | tools/rg40xxv-gpt-label-swap.py:1183-1216 | A run that writes, started on a device with any unsynced writes (whose cached contents it reads and trusts), keeps an exact copy at every instant and against every power loss if and only if no sector of the copy it writes second is unsynced; a sync before the run is enough. |
| `GptSwap.KillWithoutPowerLossIsUnsafe` | tools/rg40xxv-gpt-label-swap.py:1183-1216 | Such a device arises: an activation killed before its last fsync, followed without power loss by a rollback, can lose both copies at the rollback's first write. |
| `GptStages.WholeCutIsAnInstant` | tools/rg40xxv-gpt-label-swap.py:611-644 | A run cut between stages is one of the instants the safety theorem speaks of. |
| `GptStages.ExactlyNineStages` | tools/rg40xxv-gpt-label-swap.py:895-936 | With whole-component writes the stages reachable for one bundle are exactly the nine of ALLOWED_TRANSACTION_BITS, each of them reached by some runs. |
| `GptStages.TwoBundlesLeaveTheNine` | tools/rg40xxv-gpt-label-swap.py:895-936 | Whole-stage runs of both bundles, in any order and from either state, leave exactly ten combinations of components, each reached: the nine and (after, after, after, before). The activation bundle's table refuses exactly that one, the deactivation bundle's table exactly its flip. |
| `GptCard.Card.constructor` | tools/rg40xxv-gpt-label-swap.py:441-460 | An opened card has nothing pending. |
| `GptCard.Card.Pwrite` | tools/rg40xxv-gpt-label-swap.py:320-330 | One sector written goes to the pending writes; it is one call of the run, or the run dies first. |
| `GptCard.Card.Fsync` | tools/rg40xxv-gpt-label-swap.py:339-346 | A sync makes everything pending durable and nothing else. |
| `GptCard.Card.PwriteSectors` | tools/rg40xxv-gpt-label-swap.py:332-337 | A component is written sector by sector: exactly the put operations of its range, or a prefix of them if power goes. |
| `GptCard.Card.WriteStage` | tools/rg40xxv-gpt-label-swap.py:973-1013 | Write, sync and read back of one component: exactly that stage of the trace, and on success the component reads as written. |
| `GptCard.Card.WriteOneGptCopy` | tools/rg40xxv-gpt-label-swap.py:973-1013 | One copy is rewritten table first; the calls made are that copy's part of the trace, cut where power goes, and every check passes otherwise. |
| `GptCard.Card.WriteSnapshotOrdered` | tools/rg40xxv-gpt-label-swap.py:611-644 | The four-stage forward write makes exactly the calls of the trace and succeeds unless power goes. |
| `GptCard.Card.TransitionCommand` | tools/rg40xxv-gpt-label-swap.py:1066-1161 | The command refuses, does nothing or makes exactly the trace the decision function prescribes, for every power budget. |
| `GptCard.Card.RollbackCommand` | tools/rg40xxv-gpt-label-swap.py:1164-1230 | The same for rollback, whose copy order follows the topology found. |
| `CoverCache.VisibleIdsBounded` | components/rg40xxv-shell/src/cover_cache.c:564-586 | The visible ids are distinct and at most five, whatever the list and the selection. |
| `CoverCacheSafety.ReplacementExists` | components/rg40xxv-shell/src/cover_cache.c:606-620 | If a visible game has no item, distinct items and at most five distinct visible ids always leave a free or off-screen slot. |
| `CoverCacheSafety.EveryInterleaving` | components/rg40xxv-shell/src/cover_cache.c:643-996 | In every interleaving: at most one uncancelled job per game, of the current generation and for a game without an item; no visible eviction; texture bytes are the sum over items and within the bound; creates minus destroys are the live textures; every decoded surface is freed exactly once or held in exactly one place. |
| `CoverCacheSafety.LoadingSlotIsTheWorkers` | components/rg40xxv-shell/src/cover_cache.c:846-996 | No step of the interface clears, reuses or rewrites a slot that is being decoded, apart from its priority and cancelling it; and it is the worker's slot. |
| `CoverCacheSafety.ShutdownLeavesNothing` | components/rg40xxv-shell/src/cover_cache.c:1191-1218 | After shutdown every surface was freed exactly once, every texture destroyed, and the byte count is back to 0. |
| `CoverCacheSizes.StoreCaches` | components/rg40xxv-shell/src/cover_cache.c:762-844 | In every run whose decodes are thumbnails of the permitted size, storing a visible game always caches it: no slot is missing and the byte budget never turns it away. |
| `CoverCacheDelivery.CoverArrives` | components/rg40xxv-shell/src/cover_cache.c:643-996 | From every state a run with permitted decodes leaves quiet, a visible game without a cover that is requested and decoded within the size has its cover cached in the end, if the selection stays. |
| `CoverCacheDelivery.CoverIsDropped` | components/rg40xxv-shell/src/cover_cache.c:686-700 | If the selection moves away from the game before the decode is finished, exactly its surface is freed and the game has no cover. |
| `CoverCacheDelivery.WantedIsDelivered` | components/rg40xxv-shell/src/cover_cache.c:683-702 | In any interleaving: as long as the selection stays, a finished decode of a wanted game leaves its slot ready with the surface, and nothing is freed for it. |
| `CoverCacheDelivery.OutdatedIsDropped` | components/rg40xxv-shell/src/cover_cache.c:864-876 | In any interleaving: once a refresh has seen other games wanted, the decode under way is freed and its slot cleared when it is finished, even if the selection has come back. |
| `CoverCacheDelivery.WantedExactly` | components/rg40xxv-shell/src/cover_cache.c:546-586 | The wanted games are exactly those at most two places from the selection, around the ends of the list; the selected one is first, and five different ones come nearest first, left before right. |
| `CoverCacheDelivery.RefreshedIsWanted` | components/rg40xxv-shell/src/cover_cache.c:864-898 | After a refresh every job is being decoded, or wanted and ranked by its place around the selection. |
| `CoverCacheDelivery.CollectedIsWanted` | components/rg40xxv-shell/src/cover_cache.c:913-926 | After a collect no finished job is left whose game is not wanted. |
| `CoverCacheRecency.UsedIsMostRecent` | components/rg40xxv-shell/src/cover_cache.c:1011-1043 | In every run a cover that is looked at becomes the most recently used. |
| `CoverCacheRecency.StoredIsMostRecent` | components/rg40xxv-shell/src/cover_cache.c:831-834 | In every run a cover just stored is the most recently used. |
| `CoverCacheRecency.MostRecentStays` | components/rg40xxv-shell/src/cover_cache.c:606-620 | The most recently used cover gives way only if every other slot is occupied by a wanted game. |
| `CoverCacheThreads.ComputeVisibleIds` | components/rg40xxv-shell/src/cover_cache.c:564-586 | The offset loop computes the visible ids of the specification, distinct and at most five. |
| `CoverCacheThreads.CacheObject.constructor` | components/rg40xxv-shell/src/cover_cache.c:717-740 | A new cache is the initial state. |
| `CoverCacheThreads.CacheObject.WorkerPick` | components/rg40xxv-shell/src/cover_cache.c:650-672 | The worker's search is the pick step: the best-priority runnable job, marked loading. |
| `CoverCacheThreads.CacheObject.WorkerFinish` | components/rg40xxv-shell/src/cover_cache.c:676-704 | The worker's return is the finish step: deliver, or drop the surface and clear the slot when cancelled, outdated or off screen. |
| `CoverCacheThreads.CacheObject.RefreshWorkerVisible` | components/rg40xxv-shell/src/cover_cache.c:846-900 | The refresh step in place: generation, wanted ids, and every slot cancelled, cleared or re-ranked. |
| `CoverCacheThreads.CacheObject.CollectReady` | components/rg40xxv-shell/src/cover_cache.c:902-941 | The collect step in place: ready jobs off screen are swept, the best of the rest is handed over. |
| `CoverCacheThreads.CacheObject.FindBestReady` | components/rg40xxv-shell/src/cover_cache.c:913-936 | The best ready job by rank of its game among the visible ones. |
| `CoverCacheThreads.CacheObject.FindItemSlot` | components/rg40xxv-shell/src/cover_cache.c:537-544 | The item of a game, if any. |
| `CoverCacheThreads.CacheObject.FindReplacement` | components/rg40xxv-shell/src/cover_cache.c:606-620 | The first free slot, otherwise the least recently used one that is off screen. |
| `CoverCacheThreads.CacheObject.StoreSurface` | components/rg40xxv-shell/src/cover_cache.c:762-844 | The store step in place: discard, or upload into the slot chosen. |
| `CoverCacheThreads.CacheObject.RequestGame` | components/rg40xxv-shell/src/cover_cache.c:954-996 | The request step in place: an existing job is re-ranked, otherwise a free slot is taken. |
| `VolumeFormat.ParseExactlyCanonical` | components/device-control/volume/rg40xxv-volume-daemon.c:774-810 | parse_persistent_state returns a setting if and only if the setting is consistent and the contents are its exact printing, whatever %d does with numerals that do not fit an int. |
| `VolumeFormat.TextInjective` | components/device-control/volume/rg40xxv-volume-daemon.c:855-885 | Different settings print differently. |
| `VolumeAtomicity.CommitAgrees` | components/device-control/volume/rg40xxv-volume-daemon.c:1007-1051 | A commit that reports success leaves memory, all seven controls, volume.v1 as seen and as durable, and the marker in agreement on the requested setting, from any state. |
| `VolumeAtomicity.FailedCommitChangesNothing` | components/device-control/volume/rg40xxv-volume-daemon.c:1053-1085 | For every pattern of failing reads, writes, read-backs, renames and syncs, a failed commit from an initialized state leaves mixer, file, disk, marker and memory as before, provided the undoing calls work. |
| `VolumeAtomicity.FileAlwaysWhole` | components/device-control/volume/rg40xxv-volume-daemon.c:855-928 | After every call of a commit or its rollback, volume.v1 holds the old or the new text, as seen and as power loss would leave it. |
| `VolumeAtomicity.MarkerIsPublishedLast` | components/device-control/volume/rg40xxv-volume-daemon.c:1036-1085 | Through any commit and its rollback, the first commit included, at the call where the new marker becomes visible every control and volume.v1 already hold the new setting (once initialized: provided the marker is that of the setting in memory, or the new marker differs from it). |
| `VolumeAtomicity.RestoreRestores` | components/device-control/volume/rg40xxv-volume-daemon.c:675-685 | Writing the snapshot back from the last control to the first restores every control, if the writes work. |
| `VolumeAtomicity.ApplyPlays` | components/device-control/volume/rg40xxv-volume-daemon.c:722-751 | If every write and read-back succeeds, in either order, all seven controls play the setting. |
| `VolumePlaying.CommitSounds` | components/device-control/volume/rg40xxv-volume-daemon.c:722-751 | After every successful commit speaker and line switch are 0 if the new setting is muted and 1 otherwise, DAC volume is 63, DAC switch 1, reversed switch and route 0, and the line is at 31 hundredths of the level, rounded half up, at least 2 unless the level is 0. |
| `VolumePlaying.LineRawIsLevel` | components/device-control/volume/rg40xxv-volume-daemon.c:687-695 | The line value by that rule, and in numbers: 60 gives 19, 100 gives 31, 5 and 1 give 2. |
| `VolumePlaying.MutesSpeakerFirst` | components/device-control/volume/rg40xxv-volume-daemon.c:725-733 | In every successful commit of a muted setting the speaker is off in every scene from the first control write on. |
| `VolumePlaying.UnmutesSpeakerLast` | components/device-control/volume/rg40xxv-volume-daemon.c:730-750 | In every successful commit of a setting that is not muted the speaker is as it was until every other control is at its new value. |
| `VolumeRuns.RunsKeepGood` | components/device-control/volume/rg40xxv-volume-daemon.c:1190-1218 | Whatever is requested and whatever fails: the level stays in 0..100, level 0 is muted, and the last level equals any positive level. |
| `VolumeRuns.RequestKeepsGood` | components/device-control/volume/rg40xxv-volume-daemon.c:1190-1218 | One request leaves the setting alone when it fails and moves it exactly to what it asks for when it succeeds. |
| `VolumePlaying.RequestsMean` | components/device-control/volume/rg40xxv-volume-daemon.c:1190-1218 | What a successful request leaves, in numbers: up and down by 5 within 0..100, mute switched or the last level restored, or the level named; get always succeeds and changes nothing. |
| `VolumePlaying.RequestsSucceed` | components/device-control/volume/rg40xxv-volume-daemon.c:1190-1218 | If every call works, each of these requests succeeds. |
| `VolumePlaying.OthersRefused` | components/device-control/volume/rg40xxv-volume-daemon.c:1190-1218 | Any other request is refused without a call and changes nothing. |
| `VolumePlaying.RunsStayConsistent` | components/device-control/volume/rg40xxv-volume-daemon.c:1190-1218 | Over every run the level is 0..100, level 0 is muted, and the last level is 1..100 and equals a positive level. |
| `VolumeRuns.RunsStayInAgreement` | components/device-control/volume/rg40xxv-volume-daemon.c:1007-1085 | After any run whose failures could be undone, memory, mixer, file, disk and marker agree. |
| `VolumeRuns.StartCommitsLoaded` | components/device-control/volume/rg40xxv-volume-daemon.c:1087-1103 | Any completed start plays and records what was loaded, the default included. |
| `VolumePlaying.StartsWith` | components/device-control/volume/rg40xxv-volume-daemon.c:812-853 | A completed start comes up with exactly the setting volume.v1 prints if it can be read and prints one, and otherwise with 60 per cent, not muted. |
| `VolumeRuns.RestartRestoresLastCommitted` | components/device-control/volume/rg40xxv-volume-daemon.c:1087-1103 | After any run whose failures could be undone, a restart that can read volume.v1 and completes comes back with the last committed setting, last level included. |
| `VolumeRuns.PowerLossKeepsOldOrNew` | components/device-control/volume/rg40xxv-volume-daemon.c:855-928 | Power lost after any call of a commit: the next start that reads the file and completes comes back with the old or the new setting, never a default or a mixture. |
| `VolumeRuns.FailedFirstCommit` | components/device-control/volume/rg40xxv-volume-daemon.c:1063-1080 | Before initialization a failed commit whose undoing calls work leaves the mixer as it was and no marker, and deletes volume.v1 if and only if all controls had been read and applied. |
| `VolumeRuns.FirstCommitLosesFile` | components/device-control/volume/rg40xxv-volume-daemon.c:1063-1080 | It happens: if of all calls only the rename of the marker fails, the first commit deletes volume.v1, whatever it held. |
| `VolumeRuns.StartCanLoseSetting` | components/device-control/volume/rg40xxv-volume-daemon.c:1087-1103 | So one failing rename at start fails the start, and any later start comes up with the default. |
| `VolumeRuns.LineRawMonotone` | components/device-control/volume/rg40xxv-volume-daemon.c:687-695 | Louder never plays softer, only 0 is silent, and the control's range 0..31 is kept. |
| `VolumeRuns.MuteToggleTwice` | components/device-control/volume/rg40xxv-volume-daemon.c:1203-1210 | Two successful mute toggles undo each other if and only if the level is not 0. |
| `VolumeService.ParseSetRequest` | components/device-control/volume/rg40xxv-volume-daemon.c:1169-1188 | Accepts exactly `set ` followed by digits whose value is at most 100, and returns that value. |
| `VolumeService.Service.constructor` | components/device-control/volume/rg40xxv-volume-daemon.c:1105-1145 | A process just started: zeroed memory, no marker left from an earlier one, nothing initialized. |
| `VolumeService.Service.WriteAndVerifyControl` | components/device-control/volume/rg40xxv-volume-daemon.c:704-720 | One value to all channels and read back, call by call as specified. |
| `VolumeService.Service.SnapshotMixer` | components/device-control/volume/rg40xxv-volume-daemon.c:666-673 | Reads all controls in order, stopping at the first failure; on success it has them all. |
| `VolumeService.Service.RestoreMixer` | components/device-control/volume/rg40xxv-volume-daemon.c:675-685 | Writes all controls from the last to the first, past failures. |
| `VolumeService.Service.ApplyMixer` | components/device-control/volume/rg40xxv-volume-daemon.c:722-751 | Writes and verifies in the order for muting or unmuting, stopping at the first failure. |
| `VolumeService.Service.PersistState` | components/device-control/volume/rg40xxv-volume-daemon.c:855-928 | Temporary, rename, directory sync: fails before the rename with nothing changed, or after it with the file changed but not durable. |
| `VolumeService.Service.PublishState` | components/device-control/volume/rg40xxv-volume-daemon.c:960-1005 | The same for the marker. |
| `VolumeService.Service.CommitState` | components/device-control/volume/rg40xxv-volume-daemon.c:1007-1085 | The transaction with its rollback makes exactly the calls and leaves exactly the state of the specification, for every behaviour of the outside. |
| `VolumeService.Service.Interpret` | components/device-control/volume/rg40xxv-volume-daemon.c:1190-1218 | What each request asks for, unknown requests included. |
| `VolumeService.Service.ProcessCommand` | components/device-control/volume/rg40xxv-volume-daemon.c:1190-1218 | get changes nothing, unknown requests are refused, everything else is the commit it asks for. |
| `VolumeService.Service.InitializeAudioState` | components/device-control/volume/rg40xxv-volume-daemon.c:1087-1103 | A start reads the file, falls back to the default, and commits. |
| `Utf8.HelperFollowsGrammar` | components/bluetooth-runtime/src/bluetooth_model.c:58-81 | The helper's sequence check accepts exactly the multi-byte characters of the grammar in section 4 of RFC 3629, with their lengths. |
| `Utf8.NetstreamFollowsGrammar` | components/netstream/src/netstream.c:49-102 | utf8_next accepts exactly the same characters and computes the standard's code point. |
| `Utf8.ShellFollowsGrammar` | components/rg40xxv-shell/src/bluetooth_backend.c:270-312 | Checking the decoded code point for overlong forms, surrogates and range afterwards accepts exactly the same characters. |
| `Utf8.CodepointRange` | components/netstream/src/netstream.c:49-102 | Sequences stand for exactly the code points that need that many bytes, without surrogates. |
| `Utf8.Utf8TextValid` | components/rg40xxv-shell/src/bluetooth_backend.c:270-312 | The loop accepts exactly grammatical UTF-8 whose single bytes are printable. |
| `Utf8.ValidateUtf8Text` | components/netstream/src/netstream.c:104-131 | The loop accepts exactly grammatical UTF-8 of the given length without forbidden code points. |
| `NetstreamAccepts.CleanAscii` | components/netstream/src/netstream.c:104-131 | ASCII text is accepted if and only if it is printable. |
| `NetstreamAccepts.DirectionMarksRefused` | components/netstream/src/netstream.c:104-131 | Of the code points of two blocks exactly the separators and the marks that turn the direction of text are refused. |
| `Percent.LenientRoundTrip` | components/rg40xxv-shell/src/bluetooth_backend.c:325-357 | The shell's decoder undoes the helper's encoder on every byte string. |
| `Percent.StrictRoundTrip` | components/netstream/src/netstream.c:807-837 | netstream's decoder undoes its encoder on every byte string without NUL. |
| `Percent.EncodeIsPlain` | components/netstream/src/netstream.c:778-796 | Encoded text has only unreserved characters and percent signs, so no tab or newline. |
| `Fields.SplitOfJoin` | components/netstream/src/netstream.c:839-851 | Splitting undoes joining of tab-free fields, empty ones included. |
| `Fields.LinesOfUnlines` | components/netstream/src/netstream.c:1209-1260 | Cutting at newlines undoes writing newline-free lines. |
| `Decimal.ReadIntOfPrintInt` | components/netstream/src/netstream.c:885-898 | strtol undoes %d for every integer. |
| `Decimal.PrintOfValue` | components/device-control/volume/rg40xxv-volume-daemon.c:803-810 | The only numeral without leading zeros that denotes a number is the printed one. |
| `BluetoothNames.SanitizeIsPresentable` | components/bluetooth-runtime/src/bluetooth_model.c:83-122 | Whatever the bytes, the sanitised name is 1 to 96 bytes of printable UTF-8, also when truncated, if the fallback is. |
| `BluetoothNames.SanitizeKeepsPresentable` | components/bluetooth-runtime/src/bluetooth_model.c:83-122 | A presentable name that does not end in a space is its own sanitised form. |
| `BluetoothNameLaws.SanitizedAlone` | components/bluetooth-runtime/src/bluetooth_model.c:89-122 | In names of bytes that stand alone controls become blanks and stray bytes question marks, blanks at the end go, and a name of blanks becomes the fallback or a fixed name. |
| `BluetoothNames.SanitizeName` | components/bluetooth-runtime/src/bluetooth_model.c:83-122 | The copying and trimming loops compute the sanitised name. |
| `BluetoothHelper.FinalizeTable` | components/bluetooth-runtime/src/rg40xxv-bluetooth-control.c:489-517 | The in-place compaction keeps exactly the first record of each address that belongs to the adapter, finished, and leaves the rest of the table alone. |
| `BluetoothHelper.AddressAlreadyPresent` | components/bluetooth-runtime/src/rg40xxv-bluetooth-control.c:479-487 | True if and only if one of the kept records has the address. |
| `BluetoothHelper.KeptIsReady` | components/bluetooth-runtime/src/rg40xxv-bluetooth-control.c:489-517 | Every kept record has a canonical address and a presentable name, and no address is kept twice. |
| `BluetoothKept.KeptExactly` | components/bluetooth-runtime/src/rg40xxv-bluetooth-control.c:471-515 | An address is kept if and only if some object below the adapter's path has it in any case as six hex pairs; the kept devices are those of the first such objects, in the order they came, with their flags and signal, named after the alias or else the name. |
| `BluetoothKept.MacExactly` | components/bluetooth-runtime/src/bluetooth_model.c:35-56 | An address is exactly six pairs of hex digits between colons. |
| `BluetoothKept.OrderMeans` | components/bluetooth-runtime/src/bluetooth_model.c:210-224 | In the list shown connected devices come first, then paired ones, then the stronger signal, then name and address in byte order. |
| `BluetoothKept.SignalShown` | components/bluetooth-runtime/src/bluetooth_model.c:266-267 | The signal shown is the one measured from -127 to 20, and 127 otherwise. |
| `BluetoothHelper.PrintedIsFirst` | components/bluetooth-runtime/src/bluetooth_model.c:252-275 | On kept records nothing is skipped and no encoded name overflows: what is printed is the first 16, signal clamped. |
| `BluetoothHelper.TextFits` | components/bluetooth-runtime/src/bluetooth_model.c:234-276 | Any snapshot text has at most 5958 bytes. |
| `BluetoothPipeline.HelperToShell` | components/rg40xxv-shell/src/bluetooth_backend.c:428-501 | For every raw model and every way qsort may order: write_snapshot fails only over the adapter's own address; otherwise the text fits the 16 KiB buffer and parse_snapshot returns exactly the adapter flags and the first 16 devices in order, with sanitised names and clamped signal. |
| `BluetoothKept.ShellListsExactly` | components/rg40xxv-shell/src/bluetooth_backend.c:428-501 | With up to 16 devices, from the radio to the screen: the shell lists an address if and only if some object below the adapter has it. |
| `BluetoothPipeline.SortingIsUnique` | components/bluetooth-runtime/src/bluetooth_model.c:210-232 | The kept devices have only one ordered arrangement, so the text does not depend on qsort. |
| `BluetoothPipeline.SortingExists` | components/bluetooth-runtime/src/bluetooth_model.c:210-232 | Every list of devices has an ordered arrangement: the comparison is total and transitive. |
| `BluetoothService.NormalizeMacText` | components/rg40xxv-shell/src/bluetooth_backend.c:248-268 | Accepts exactly six hex pairs separated by colons and returns them in upper case. |
| `BluetoothService.DecodeNameText` | components/rg40xxv-shell/src/bluetooth_backend.c:325-357 | The decoding loop with its length and UTF-8 checks computes the decoded name or refuses. |
| `BluetoothService.ParseDeviceText` | components/rg40xxv-shell/src/bluetooth_backend.c:464-490 | One D line: too many, malformed, duplicate or a device, in the order the errors are found. |
| `BluetoothService.ParseSnapshotText` | components/rg40xxv-shell/src/bluetooth_backend.c:428-501 | The line loop computes the specified result, error codes included, for every byte string. |
| `BluetoothAccepts.ParsesExactly` | components/rg40xxv-shell/src/bluetooth_backend.c:428-501 | A text is taken for a snapshot if and only if it ends in a newline, holds no NUL and no carriage return, its lines spell out exactly that snapshot with at most 16 different addresses, and the adapter's flags make sense. |
| `BluetoothService.RetainDiscovered` | components/rg40xxv-shell/src/bluetooth_backend.c:173-206 | The nested loops compute the retained list. |
| `Cutting.SplitFields` | components/rg40xxv-shell/src/bluetooth_backend.c:359-377 | The fields of a line, or a refusal if there are more than the capacity. |
| `Cutting.CutLines` | components/rg40xxv-shell/src/bluetooth_backend.c:441-493 | The lines of a text that ends in a newline. |
| `BluetoothBackendSafety.QueueGrows` | components/rg40xxv-shell/src/bluetooth_backend.c:937-940 | Storing at (head + count) mod 32 appends to the queue. |
| `BluetoothBackendSafety.QueueShrinks` | components/rg40xxv-shell/src/bluetooth_backend.c:878-881 | Taking at head and advancing it mod 32 removes the oldest request. |
| `BluetoothBackendSafety.ParsedOk` | components/rg40xxv-shell/src/bluetooth_backend.c:428-501 | Whatever text is accepted yields at most 16 devices with different addresses. |
| `BluetoothBackendSafety.RetainKeepsDiscoveries` | components/rg40xxv-shell/src/bluetooth_backend.c:165-206 | A merely discovered device of the last list is still in the next one, unless that is full. |
| `BluetoothBackendSafety.EveryRun` | components/rg40xxv-shell/src/bluetooth_backend.c:859-946 | In every interleaving of requests, worker, helper results and stop: accepted requests have ids 1, 2, 3, ...; they leave the ring in that order, each once, and what was accepted and not taken is waiting in it until stop; outcomes follow in the same order; generations strictly rise and completed ids never fall; every list shown has at most 16 different addresses; and what is shown is the last confirmed data. |
| `BluetoothBackendSafety.RetainAddsDiscoveries` | components/rg40xxv-shell/src/bluetooth_backend.c:187-205 | Whatever is added to the helper's list is a mere discovery of the last one. |
| `BluetoothBackendSafety.FailureKeepsData` | components/rg40xxv-shell/src/bluetooth_backend.c:208-229 | A failure publishes its id and error with exactly the adapter and devices shown before. |
| `BluetoothBackendSafety.SuccessShowsHelper` | components/rg40xxv-shell/src/bluetooth_backend.c:145-163 | A success shows the helper's adapter and devices first; whatever follows was shown before and is merely discovered; after a scan nothing follows. |
| `BluetoothOutcome.ResultDecides` | components/rg40xxv-shell/src/bluetooth_backend.c:884-900 | In every run a result is published as Ready without error if and only if the helper reported none and its text parses; then adapter and first devices are the parsed ones and discoveries are carried over unless just scanned or off; otherwise the error is the helper's, or 71, 7 or 17 for the text, and the data stay. |
| `BluetoothOutcome.StoppedIsSilent` | components/rg40xxv-shell/src/bluetooth_backend.c:886-887 | A result that comes after stop is not published. |
| `BluetoothOutcome.RequestIsTaken` | components/rg40xxv-shell/src/bluetooth_backend.c:904-946 | In every run a request is let in if and only if the backend runs, fewer than 32 wait and its address is one where needed; it gets the next number and carries what was asked, and otherwise nothing changes. |
| `BluetoothOutcome.WorkIsShown` | components/rg40xxv-shell/src/bluetooth_backend.c:130-143 | While a request is worked on the view names it, with the data shown before. |
| `BluetoothBackendSafety.StopIsFinal` | components/rg40xxv-shell/src/bluetooth_backend.c:1103-1119 | After stop nothing is accepted or taken any more. |
| `BluetoothBackendSafety.PollReportsNews` | components/rg40xxv-shell/src/bluetooth_backend.c:1085-1101 | A poll reports news if and only if something was published since the generation seen. |
| `BluetoothService.Service.constructor` | components/rg40xxv-shell/src/bluetooth_backend.c:998-1009 | A started backend has the first status request queued and the loading view published. |
| `BluetoothService.Service.EnqueueRequest` | components/rg40xxv-shell/src/bluetooth_backend.c:904-946 | The four verdicts and the ring update of the specification. |
| `BluetoothService.Service.TakeRequest` | components/rg40xxv-shell/src/bluetooth_backend.c:870-882 | The worker takes the oldest request, or leaves when stopped. |
| `BluetoothService.Service.ShowWorking` | components/rg40xxv-shell/src/bluetooth_backend.c:130-143 | The confirmed data are shown with the request at work. |
| `BluetoothService.Service.JudgeResult` | components/rg40xxv-shell/src/bluetooth_backend.c:884-900 | Stopped, failed, malformed or parsed: the next state of the worker. |
| `BluetoothService.Service.MergeDiscovered` | components/rg40xxv-shell/src/bluetooth_backend.c:173-206 | The conditions under which discoveries are carried over, and the list that results. |
| `BluetoothService.Service.PublishSuccess` | components/rg40xxv-shell/src/bluetooth_backend.c:145-163 | The new data become confirmed and published under the next generation. |
| `BluetoothService.Service.PublishFailure` | components/rg40xxv-shell/src/bluetooth_backend.c:208-229 | The confirmed data stay, with the error, under the next generation. |
| `BluetoothService.Service.PollView` | components/rg40xxv-shell/src/bluetooth_backend.c:1085-1101 | News, view and generation as specified. |
| `BluetoothService.Service.StopService` | components/rg40xxv-shell/src/bluetooth_backend.c:1103-1119 | Running is cleared and the queue emptied. |
| `NetstreamTable.FindSpec` | components/netstream/src/netstream.c:900-912 | The index found is the first record with that key; none is found only if there is none. |
| `NetstreamTable.UpsertStores` | components/netstream/src/netstream.c:914-939 | Storing keeps the table valid, puts exactly that record under its key, and leaves every other key and the default alone. |
| `NetstreamTable.UpsertExactly` | components/netstream/src/netstream.c:914-939 | Storing in a valid table succeeds if and only if the record is valid and its key is there or there is room; a new record goes to the end, a known one takes the old one's place, and all others stay where they are. |
| `NetstreamTable.ForgetRemoves` | components/netstream/src/netstream.c:941-960 | Forgetting, which refuses names that are no valid text, removes exactly that record, keeps the table valid, and clears the default exactly when it named it. |
| `NetstreamTable.ForgetExactly` | components/netstream/src/netstream.c:941-960 | Forgetting succeeds if and only if the name is well formed and a record has it; the others keep their order. |
| `NetstreamTable.SelectKeepsValid` | components/netstream/src/netstream.c:962-972 | Selecting an existing record makes it the default and keeps the table valid. |
| `NetstreamTable.SelectExactly` | components/netstream/src/netstream.c:962-972 | Selecting succeeds if and only if a record has the key. |
| `NetstreamFile.SaveSucceeds` | components/netstream/src/netstream.c:1096-1180 | Serialising succeeds if and only if the table is valid: the 256 KiB limit is never hit. |
| `NetstreamFile.SaveLoad` | components/netstream/src/netstream.c:1182-1274 | Loading what was saved returns the same table, for every record format that reads back its own fields. |
| `NetstreamFile.LoadedIsStable` | components/netstream/src/netstream.c:1182-1377 | Whatever bytes load: what they gave can be saved, and loads again as it was. |
| `NetstreamAccepts.LoadsExactly` | components/netstream/src/netstream.c:1182-1377 | A file loads as a table if and only if it is of permitted size, ends in a newline, its lines up to their first NUL spell out exactly that table, and the table is valid. |
| `NetstreamFile.LoadSeesUpToNul` | components/netstream/src/netstream.c:1209-1260 | A text of permitted size loads to whatever its lines up to their first NUL load to; so the loader sees the whole text if and only if there is no NUL in it. |
| `NetstreamFile.NulHidesTail` | components/netstream/src/netstream.c:1209-1260 | A file with anything behind a NUL in its header line loads as an empty database. |
| `NetstreamFile.SessionsKeepValid` | components/netstream/src/netstream.c:914-1038 | Any sequence of stores, removals, selections and reloads keeps the table valid. |
| `NetstreamFile.ReloadsChangeNothing` | components/netstream/src/netstream.c:1096-1377 | Saving and loading between commands is not observable. |
| `NetstreamText.UnsignedRoundTrip` | components/netstream/src/netstream.c:853-883 | Printed numbers within the bound are read back. |
| `NetstreamText.UnsignedExactly` | components/netstream/src/netstream.c:853-883 | A field that does not start with white space is accepted if and only if it is digits within the bound, and then has their value. |
| `NetstreamText.NumeralAccepted` | components/netstream/src/netstream.c:853-883 | White space, sign and digits: accepted if and only if a sign has white space before it, the magnitude is below 2^64, and the result, negated modulo 2^64 for a minus, is within the bound. |
| `NetstreamText.AcceptedIsNumeral` | components/netstream/src/netstream.c:853-883 | Nothing else is accepted. |
| `NetstreamText.MinusBehindSpace` | components/netstream/src/netstream.c:853-883 | Behind white space a minus is accepted exactly for 0 and for magnitudes within the bound of 2^64. |
| `NetstreamText.MinusReadAsOne` | components/netstream/src/netstream.c:853-883 | Minus 2^64 - 1 behind a space is read as 1; without the space it is refused. |
| `NetstreamWifi.WifiSaveLoad` | components/netstream/src/netstream.c:1096-1136 | A Wi-Fi database is written if and only if it is valid, and then read back as it was. |
| `NetstreamWifi.ProfileParses` | components/netstream/src/netstream.c:1232-1245 | The six fields of a profile read back as the profile. |
| `NetstreamAccepts.ProfileParsesExactly` | components/netstream/src/netstream.c:1232-1245 | Six fields are a profile if and only if they are its name and secret, percent-encoded within 32 and 64 bytes, its mode, 0, 1, false or true, and a numeral of its priority. |
| `NetstreamAccepts.PriorityExactly` | components/netstream/src/netstream.c:885-898 | A priority is white space, sign and digits of a value from -999 to 999 that does not begin with a plus. |
| `NetstreamWifi.SecretsExactly` | components/netstream/src/netstream.c:267-283 | An open network has no secret, WPA3 takes exactly clean texts of 8 to 63 bytes, and WPA2 those and 64 hex digits. |
| `NetstreamHosts.HostsSaveLoad` | components/netstream/src/netstream.c:1138-1180 | A host database is written if and only if it is valid, and then read back as it was, whatever inet_pton accepts. |
| `NetstreamHosts.HostParses` | components/netstream/src/netstream.c:1326-1356 | The thirteen fields of a host read back as the host. |
| `NetstreamAccepts.HostParsesExactly` | components/netstream/src/netstream.c:1326-1356 | Thirteen fields are a host if and only if they spell out its name, address, flag, time and stream. |
| `NetstreamAccepts.StreamLimits` | components/netstream/src/netstream.c:390-414 | A stream is valid if and only if every number is within its limits and the resolution is a preset or marked as custom. |
| `NetstreamHosts.DefaultsAreValid` | components/netstream/src/netstream.c:286-299 | A host with a good name and address and the default stream is valid. |
| `NetstreamHosts.DottedNumbers` | components/netstream/src/netstream.c:330-352 | Digits and dots are an address only if inet_pton takes them. |
| `NetstreamHosts.ValidDnsName` | components/netstream/src/netstream.c:301-328 | The one-pass loop accepts exactly names of at most 253 bytes made of dot-separated labels of 1 to 63 letters, digits and inner hyphens. |
| `NetstreamStore.Buffer.Grown` | components/netstream/src/netstream.c:722-730 | Doubling, or the jump to the limit, reaches the capacity wanted without passing the limit. |
| `NetstreamStore.Buffer.Reserve` | components/netstream/src/netstream.c:713-738 | Succeeds if and only if the content stays within the limit; then there is room, and the content is unchanged. |
| `NetstreamStore.Buffer.Append` | components/netstream/src/netstream.c:740-748 | Succeeds if and only if it fits, and then appends exactly the text. |
| `NetstreamStore.Buffer.AppendEncoded` | components/netstream/src/netstream.c:778-796 | Succeeds if and only if the encoding fits, and then appends exactly the encoding. |
| `NetstreamStore.SaveTable` | components/netstream/src/netstream.c:1096-1180 | The buffer the save loops fill is the specified text. |
| `NetstreamStore.LoadTable` | components/netstream/src/netstream.c:1182-1377 | The load loops compute the specified table or refuse. |
| `NetstreamStore.Store.constructor` | components/netstream/src/netstream.c:1199-1207 | A table is empty before anything is loaded. |
| `NetstreamStore.Store.FindRecord` | components/netstream/src/netstream.c:974-986 | The search loop finds the first record with the key. |
| `NetstreamStore.Store.UpsertRecord` | components/netstream/src/netstream.c:988-1006 | The slot overwritten or appended gives the specified table, and a refusal changes nothing. |
| `NetstreamStore.Store.ForgetRecord` | components/netstream/src/netstream.c:1008-1026 | Checking the name and closing the gap in place gives the specified table, and a refusal changes nothing. |
| `NetstreamStore.Store.SelectRecord` | components/netstream/src/netstream.c:1028-1038 | The default is set if and only if the record exists. |
| `CatalogRefresh.EachHasItsShare` | components/rg40xxv-shell/src/catalog_incremental.c:324-374 | After the pass each directory has exactly its share: rescanned games and a fresh record, or the old games and the old record. |
| `CatalogRefresh.CompleteIsFullScan` | components/rg40xxv-shell/src/catalog_incremental.c:282-393 | A refresh that returns 0 leaves, for every platform, the games a full scan finds, and none of any other platform, warm start included. |
| `CatalogRefresh.PartialIsFreshOrAsBefore` | components/rg40xxv-shell/src/catalog_incremental.c:336-374 | A blocked refresh leaves every platform as a full scan finds it or exactly as it was, and the cursor names the first one that is not up to date. |
| `CatalogRefresh.RefreshStaysTruthful` | components/rg40xxv-shell/src/catalog_incremental.c:282-393 | Whatever its result, the catalog left behind tells the truth: each record stands for exactly its platform's games, and no game is without one. |
| `CatalogRefresh.WarmHasNoStrays` | components/rg40xxv-shell/src/catalog_incremental.c:303-316 | As many records as directories, one for each, means no record is left over. |
| `CatalogRefresh.StaleShrinks` | components/rg40xxv-shell/src/catalog_incremental.c:119-128 | If the first stale platform scans within the budget, fewer are stale afterwards; and none is stale if and only if the refresh is complete. |
| `CatalogRefresh.RoundsComplete` | components/rg40xxv-shell/src/catalog_incremental.c:282-393 | As many such refreshes as there are stale platforms complete the catalog. |
| `CatalogRefresh.EveryLife` | components/rg40xxv-shell/src/catalog_incremental.c:282-393 | From no snapshot, through any sequence of refreshes, complete, cut short or failed, with directories appearing, changing and going in between: the catalog always tells the truth, and whenever a refresh reports completion it is exactly what a full scan of the directories of that moment finds. |
| `CatalogLimits.FailsExactly` | components/rg40xxv-shell/src/catalog_incremental.c:282-393 | A refresh fails if and only if it is not warm and the games to keep are more than 65536; it then leaves nothing, and otherwise exactly that many games. |
| `CatalogLimits.GamesOfExactly` | components/rg40xxv-shell/src/catalog_incremental.c:184-195 | The games of a platform are those that name it, each as often as it stands there. |
| `CatalogService.MoveGames` | components/rg40xxv-shell/src/catalog_incremental.c:184-195 | Moves exactly the platform's games, in order, leaving holes, or fails if they do not fit 65536. |
| `CatalogService.OthersStay` | components/rg40xxv-shell/src/catalog_incremental.c:184-195 | Moving one platform out leaves the games of every other in place. |
| `CatalogService.Rebuild.constructor` | components/rg40xxv-shell/src/catalog_incremental.c:318-323 | The new catalog starts empty and unblocked. |
| `CatalogService.Rebuild.MoveRecord` | components/rg40xxv-shell/src/catalog_incremental.c:197-217 | The record is moved out of its slot, leaving a hole; records of other names stay. |
| `CatalogService.Rebuild.Retain` | components/rg40xxv-shell/src/catalog_incremental.c:219-224 | Old games and record are moved over; everything of other platforms is still in place. |
| `CatalogService.FindSlot` | components/rg40xxv-shell/src/catalog_incremental.c:108-117 | The first record of that name that is still in its slot. |
| `CatalogService.Rebuild.VisitDirectory` | components/rg40xxv-shell/src/catalog_incremental.c:324-374 | One turn of the loop: retain, rescan or block; everything of other platforms is still in place. |
| `CatalogService.Rebuild.VisitAll` | components/rg40xxv-shell/src/catalog_incremental.c:324-374 | The destructive loop computes the pass of the specification. |
| `CatalogService.RefreshCatalog` | components/rg40xxv-shell/src/catalog_incremental.c:282-393 | Result, catalog and completeness as specified. |
| `CatalogSort.SortIsStable` | components/rg40xxv-shell/src/catalog.c:86-133 | For every count: a permutation, most recent first, ties in the order they stood. |
| `CatalogSort.PassDoublesRuns` | components/rg40xxv-shell/src/catalog.c:100-119 | A pass turns sorted runs of one width into sorted runs of twice that. |
| `CatalogSort.MergeSorts` | components/rg40xxv-shell/src/catalog.c:108-118 | Merging two sorted runs, the first from earlier entries, is sorted and stable. |
| `CatalogSort.MergeRuns` | components/rg40xxv-shell/src/catalog.c:102-118 | The inner loops write exactly the merge and touch nothing before it. |
| `CatalogSort.Pass` | components/rg40xxv-shell/src/catalog.c:101-119 | One pass over the buffer. |
| `CatalogSort.SortVisibleRecent` | components/rg40xxv-shell/src/catalog.c:86-133 | The ping-pong buffers end up, copied back if needed, as the bottom-up sort of the list. |
| `CatalogFilters.ShownExactly` | components/rg40xxv-shell/src/catalog.c:176-187 | The list has exactly the ids that pass game_is_visible, each once; in catalog order, or most recent first with ties in catalog order. |
| `CatalogFilters.RecentFirst` | components/rg40xxv-shell/src/catalog.c:86-133 | In the recent view a game played later comes first, and of two played at the same time the first in the catalog. |
| `CatalogFilters.AppsApart` | components/rg40xxv-shell/src/catalog.c:54-61 | The apps page shows exactly the apps whatever the filters, no other page shows any, and with no filter everything else is shown. |
| `CatalogFilters.EachFilterNarrows` | components/rg40xxv-shell/src/catalog.c:62-75 | Each filter takes away exactly the games it says, whatever the others; a search over all systems lifts the system filter. |
| `CatalogFilters.RpgPageIgnores` | components/rg40xxv-shell/src/catalog.c:62-70 | The role-playing page ignores the filters by system and core. |
| `CatalogFilters.RpgSystems` | components/rg40xxv-shell/src/catalog.c:9-15 | The role-playing systems are three names in either case. |
| `CatalogFilters.AlikeExactly` | components/rg40xxv-shell/src/catalog.c:44-46 | Characters are alike exactly if they are the same, or one letter in two cases. |
| `CatalogFilters.SelectionIsKept` | components/rg40xxv-shell/src/catalog.c:160-202 | A selected game that is still shown stays selected; otherwise entry 0 is. |
| `CatalogFilters.ApplyTwice` | components/rg40xxv-shell/src/catalog.c:157-207 | Applying the same filters again changes nothing. |
| `CatalogFilters.TextContains` | components/rg40xxv-shell/src/catalog.c:32-52 | The scanning loops find exactly the case-insensitive occurrences. |
| `CatalogFilters.View.constructor` | components/rg40xxv-shell/src/catalog.c:157-162 | A view shows nothing before filters are applied. |
| `CatalogFilters.View.Filter` | components/rg40xxv-shell/src/catalog.c:176-185 | The ids that pass and the place of the selected one. |
| `CatalogFilters.View.ApplyFilters` | components/rg40xxv-shell/src/catalog.c:157-207 | The method leaves the specified list, filters and selection. |
| `FrameScheduler.WaitsAreExact` | components/rg40xxv-shell/src/frame_scheduler.c:5-65 | With the last frame, and the end of an active overlay, within 2^31 ms, the wrapped computation agrees with exact arithmetic, at any time of the clock. |
| `FrameScheduler.DueExactly` | components/rg40xxv-shell/src/frame_scheduler.c:27-94 | On the wrapped clock a frame is due exactly if something changed, 1000 ms after the last one, 16 or 100 ms with animation or marquee, when an overlay shown since ends, and every 33 ms in its last 420 ms. |
| `FrameScheduler.NoDueInstantInside` | components/rg40xxv-shell/src/frame_scheduler.c:90-109 | At no instant strictly inside a returned wait does the due test, on the wrapped clock, say yes. |
| `FrameScheduler.WaitIsNotShort` | components/rg40xxv-shell/src/frame_scheduler.c:96-109 | A wait ends with a frame due, an overlay beginning to fade, the wake-up asked for, 50 ms with raw input, or 1000 ms with the screen off. |
| `FrameScheduler.WaitIsBounded` | components/rg40xxv-shell/src/frame_scheduler.c:96-109 | Waits are never negative, and at most 1000 ms if and only if the screen is on, or the wake-up asked for is no later, or raw input is in use. |
| `FrameScheduler.LongWaitWhenHidden` | components/rg40xxv-shell/src/frame_scheduler.c:96-109 | A wait of 5000 ms: the bound of 1000 fails with the screen off. |
| `FrameScheduler.OverlayIsClearedOnce` | components/rg40xxv-shell/src/frame_scheduler.c:46-63 | On the wrapped clock: an overlay that ran out since the last frame is due; once a frame was shown after its end it plays no part. |
| `FrameScheduler.LoopStaysPrompt` | components/rg40xxv-shell/src/main.c:858-980 | In every run of the loop, with queries, overlays, invalidations and the screen changing every turn: a wait with the screen on ends within a second of the last frame and by the end of an overlay shown, no frame was due inside it, and whatever calls for a frame when it comes to drawing gets it at once. |
| `FrameScheduler.FramesStayFresh` | components/rg40xxv-shell/src/main.c:858-980 | With the screen on throughout, the last frame is never more than a second old. |
| `FrameScheduler.Scheduler.constructor` | components/rg40xxv-shell/src/frame_scheduler.c:67-71 | A new scheduler is dirty. |
| `FrameScheduler.Scheduler.Presented` | components/rg40xxv-shell/src/frame_scheduler.c:83-88 | Presenting records the time and clears the flag. |
| `FrameScheduler.Scheduler.NextWaitMs` | components/rg40xxv-shell/src/frame_scheduler.c:27-109 | The wait built up step by step is the specified one. |
| `FrameScheduler.Scheduler.BeforeWait` | components/rg40xxv-shell/src/main.c:865-943 | Invalidation and the wait asked for. |
| `FrameScheduler.Scheduler.AfterWait` | components/rg40xxv-shell/src/main.c:949-980 | Draws exactly if a frame is due, and the flag is clear afterwards, also with the screen off. |
| `FrameScheduler.Scheduler.LoopTurn` | components/rg40xxv-shell/src/main.c:858-980 | One turn of the loop on the wrapped clock is the turn of the run. |
| `InputNavigation.ThresholdsInOrder` | components/rg40xxv-shell/src/input_navigation.c:66-105 | For all int32 ranges, flats and resting values: min <= negative press < negative release <= centre <= positive release < positive press <= max, and the axis is configured if and only if its span is at least 2. |
| `InputNavigation.NoOverflow` | components/rg40xxv-shell/src/input_navigation.c:66-105 | No intermediate of the 64-bit arithmetic overflows. |
| `InputNavigation.CenterFollowsRest` | components/rg40xxv-shell/src/input_navigation.c:87-99 | The centre is the resting value if that is inside and within a twentieth of the span of the middle, the middle if it is more than a quarter away, and always one of the two. |
| `InputNavigation.HalfAndQuarter` | components/rg40xxv-shell/src/input_navigation.c:27-51 | With a small flat zone a side presses at half its extent, rounded up, and lets go at a quarter, rounded down. |
| `InputNavigation.FlatZoneIsQuiet` | components/rg40xxv-shell/src/input_navigation.c:27-51 | A side presses outside the flat zone unless that is all there is, and lets go no nearer than its edge unless it presses there. |
| `InputNavigation.NeutralResets` | components/rg40xxv-shell/src/input_navigation.c:190-206 | In every run of samples, configurations and resets, a neutral sample brings its axis to rest, configured or not. |
| `InputNavigation.RunsStaySound` | components/rg40xxv-shell/src/input_navigation.c:58-105 | In every such run the thresholds in force are in order, directions are -1, 0 or 1, and an unconfigured axis is at rest. |
| `InputNavigation.EqualStepsAreSeparated` | components/rg40xxv-shell/src/input_navigation.c:127-188 | In every run of samples, configurations and resets over all axes, two equal steps of one axis are separated by a sample of it outside the region that holds the side, by its configuration anew, or by a reset. |
| `InputNavigation.FullPushSteps` | components/rg40xxv-shell/src/input_navigation.c:127-188 | In every run an axis pushed to an end of its range takes that side and emits a step unless it was there: left and right for the first and third stick axis and the first hat, up and down for the others. |
| `InputNavigation.Navigation.constructor` | components/rg40xxv-shell/src/input_navigation.c:53-56 | No axis configured, everything at rest. |
| `InputNavigation.Navigation.Thresholds` | components/rg40xxv-shell/src/input_navigation.c:27-51 | Press and release of one side as specified; 0 <= release < press <= extent. |
| `InputNavigation.Navigation.ConfigureAxis` | components/rg40xxv-shell/src/input_navigation.c:66-105 | Exactly that axis is replaced and brought to rest. |
| `InputNavigation.Navigation.ResetDirections` | components/rg40xxv-shell/src/input_navigation.c:58-64 | All axes and hats are brought to rest; configurations stay. |
| `InputNavigation.Navigation.HandleAnalog` | components/rg40xxv-shell/src/input_navigation.c:158-188 | The new direction of that axis, and a step exactly when it changed to a side. |
| `InputNavigation.Navigation.HandleHat` | components/rg40xxv-shell/src/input_navigation.c:158-188 | The same for a hat. |
| `InputLatch.ClearsLowest` | components/rg40xxv-shell/src/input_latch.c:75-89 | value & (value - 1) takes exactly one bit away and adds none. |
| `InputLatch.AndBit` | components/rg40xxv-shell/src/input_latch.c:75-89 | The & of the model is the conjunction of each bit. |
| `InputLatch.CountWord` | components/rg40xxv-shell/src/input_latch.c:75-89 | The loop counts the bits set. |
| `InputLatch.ActiveCount` | components/rg40xxv-shell/src/input_latch.c:75-89 | The count is the cardinality of the set of controls held. |
| `InputLatch.AnyActive` | components/rg40xxv-shell/src/input_latch.c:6-14 | Both words are zero if and only if nothing is held. |
| `InputLatch.FlipBit` | components/rg40xxv-shell/src/input_latch.c:26-50 | Raising or lowering a mask in its word adds or removes exactly that control. |
| `InputLatch.ValidMeansNeutral` | components/rg40xxv-shell/src/input_latch.c:26-68 | In every run, neutral_since_valid holds if and only if nothing is held. |
| `InputLatch.OpensOnlyAfterRest` | components/rg40xxv-shell/src/input_latch.c:52-68 | In every run, across any number of clock wraps, the latch opens only after everything stayed at rest for the whole interval. |
| `InputLatch.PollOpensExactly` | components/rg40xxv-shell/src/input_latch.c:52-68 | While the latch waits with nothing held, a poll opens it if and only if the rest has lasted for the interval on the 32-bit clock; within 2^32 ms, exactly from the end of the interval on. |
| `InputLatch.StaysOpen` | components/rg40xxv-shell/src/input_latch.c:52-55 | Open, it stays open. |
| `InputLatch.HeldExactly` | components/rg40xxv-shell/src/input_latch.c:26-50 | In every run the controls held are exactly those of the 128 that were last pressed. |
| `InputLatch.LatchObject.constructor` | components/rg40xxv-shell/src/input_latch.c:16-24 | A new latch waits with nothing held. |
| `InputLatch.LatchObject.SetControl` | components/rg40xxv-shell/src/input_latch.c:26-50 | The words, flag and time follow the set. |
| `InputLatch.LatchObject.UpdateLatch` | components/rg40xxv-shell/src/input_latch.c:52-68 | The latch opens as specified and says so. |

## Left out

- GPT tool: command line, locks, device identity, payload hashes and JSON bundles; they are assumed to pass. Table contents are opaque bytes, and a bundle is its before and after snapshot.
- GPT tool: a write that fails without power loss; every call that returns is taken to have succeeded.
- Cover cache: decoding, thumbnail files and the metric counters other than creates, destroys and visible evictions; generations are unbounded.
- Volume daemon: sockets, key events and the discovery of controls; `muted` is a flag instead of an int that is 0 or 1 at every call.
- VolumeAtomicity.FailedCommitChangesNothing: for initialized states only, because before that the code deletes instead of restoring; that case is VolumeRuns.FailedFirstCommit.
- Bluetooth helper: D-Bus, and the table that derives a device's kind from icon, class and services, which is an arbitrary function of the record.
- Bluetooth backend: process spawning, time-outs and the admission file; a helper run ends in any result at any time. Request ids and generations are unbounded, so their step over 0 after 2^64 is not modelled.
- netstream: file permissions, the lock, the atomic write, the vendor import and the error texts; memory allocation succeeds; inet_pton is an arbitrary predicate.
- Catalog refresh: directory listing, reading and writing the snapshot file, the filters re-applied afterwards, the lists of systems and cores, and the scan itself; equal metadata are assumed to mean equal contents, directory names to be distinct, and memory to suffice.
- Catalog filters and sort: the carousel fields and failing allocations (which leave the list empty or unsorted).
- Main loop: time passes only in waits; the launcher's own turns, which sleep 10 ms without drawing, are left out.
- Input: the tables from event codes to axes and buttons, input_latch_force_ready and the activation guard.
- persistence.c keeps the shell's play history in files, power.c the screen and idle states, and further pages show the state of network, hardware and streams; none of it is modelled, nor are drawing and audio.
- The scripts under tools/ other than the label switch build, deploy and verify boot images; they are not modelled.
