# A verified model of the CertPilot agent

The agent runs on a host, holds certificates whose keys were made there, renews them, and installs
them into files or into a certificate store. This project models the parts of it that change state,
and proves what they keep.

| file | what it models |
|---|---|
| `StoreInstall` | installing into a certificate store: read, import, bind, reload, verify, settle, roll back |
| `StoreCalls` | what an install asks of a store and reports, in full, told from its outcome |
| `StoreSafety`, `StoreRuns`, `StoreWitnesses`, `StoreReports` | no binding is left dangling, in one install and over whole runs, and a run for each hypothesis that shows it is needed; what the reports mean |
| `FileInstall`, `FileGuarantees`, `FileCalls` | installing files: capture, atomic write, check, reload, restore; all or nothing; the commands and the report in full |
| `InstallSpec`, `Profiles`, `SpecMeaning` | modes, validation, profiles, rendering and paths of a declared destination, and what each field means |
| `Apply`, `TaskMeaning` | what one destination comes to: whose certificate, put where, running what |
| `ApplyGuarantees`, `Interference`, `Quiescence`, `WholeSpec`, `CycleRuns` | all destinations of a host: independence, order, coming to rest, and store safety over whole cycles |
| `BigEndian`, `KeyDerivation`, `DerivationMeaning` | the key derivation of appendix B.2 of RFC 7292, in place, and byte by byte |
| `Der`, `KeystoreFormat`, `KeystoreNaming`, `KeystoreMeaning`, `KeystoreSuccess`, `MacMeaning`, `KeystoreVectors` | naming the key entry of a PKCS#12 keystore and remaking its MAC; known answers |
| `RenewTime`, `Renewal`, `RenewalMeaning`, `HeldRecords` | when a certificate is due, how often it is ordered, what a crash leaves of its record |
| `Deploy`, `Settlement`, `RunLoop` | one install cycle and what it posts, from the jobs handed out to their results; the main loop |
| `Prelude`, `Arithmetic`, `Text` | shared types, facts about products and remainders, text functions |

How it is built. Whatever the world decides (whether a call fails, and if it fails whether it took
effect; what a command answers; what the core replies; what the clock reads) is a field of an
answers record that is chosen before the operation starts. A statement that quantifies over those
records holds for every outcome of every call. Each step of the agent that changes something is a
method of a class over the same fields, proved equal to a function of the state it started from and
of the answers; the theorems are about those functions. A call sequence is kept with the store
installer, and the disk each command saw with the file installer, so statements reach every
intermediate state and not only the last. What such a function computes is told a second time, without
the functions it is made of: as a relation, a flat table, a round trip or a known answer.

Some promises in the code or its comments turned out to hold only under conditions. For one operation
the condition can be checked before the call and is proved to be exact; over whole runs it is a list
of hypotheses, each shown to be needed by a run that breaks only that one:

- `store.go:552-555` says a binding never names a certificate that is not there. One install keeps
  that if and only if it starts inside `StoreSafety.Guard`. Whole runs, forced installs and endpoints
  that somebody else re-points included, keep it under the ten hypotheses of `StoreRuns.Hypothesis`;
  for each of the ten there is a run that meets the other nine and leaves a binding dangling.
- "Rolled back" on a store destination is meant to say that the host is as it was. It is so if and only
  if the import was undone where nothing was before, or could not be undone and changed nothing, and an
  endpoint that was re-pointed named the previous certificate (`StoreReports.RolledBackExactly`).
- A file install is meant to be all or nothing. It is, if and only if it is forced, or some target is
  missing or differs, or every target has its permissions already (`FileGuarantees.AllOrNothingExactly`):
  modes that were set on files that match are not put back when a later step fails.
- After a failure a target that is not marked as written is meant to be as it was. Over all answers it
  is, if and only if targets that share a path write nothing new there, and the install is forced, or some
  target is missing or differs, or every target has its permissions already
  (`FileGuarantees.UnmarkedIsAtEntryExactly`). Validation lets targets share a path, and nothing is marked
  when only modes are set.
- A profile is meant to be applied once or many times to the same effect. It is, for exactly the
  certificate names that are not blank (`Profiles.IdempotentExactly`), and an accepted destination
  has such a name.
- A destination that reported installed is meant to be left alone next time. A file destination is, if
  and only if it gives no path two contents (`Quiescence.InstalledFilesMatchExactly`).
- A renewal is meant to be ordered at the core's pace. `RenewTime.BornDue` says exactly which records
  are due when they are issued. Beyond that, a core that returns the names in another order, or a host
  that cannot save an answer, orders one certificate at every pass; but as long as nothing else is filed
  in a directory, its pace depends on its own answers alone (`Renewal.RenewalsAreRateBounded`).
- `renew.go:16-18` says that an impossible renewal time is replaced so that a third of the life
  remains. That holds up to 2^62 - 1 nanoseconds of life; beyond, the doubling wraps and the record is
  due at once.

`dafny verify dfyconfig.toml` verifies the project.

## Model

| member | source | states |
|---|---|---|
| StoreInstall.Installer.ThumbprintNamed | store.go:344-356 | reading the store gives the first certificate in it, in enumeration order, that carries the name, or none; a read that fails says so |
| StoreInstall.Installer.VerifyServed | store.go:671-693 | the endpoint counts as serving the certificate if and only if one probe inside the window did |
| StoreInstall.Installer.RollbackStore | store.go:563-622 | the calls of a rollback in their order: nothing bound, remove; no previous certificate, stop; re-bind failed, stop; otherwise remove and reload; "rolled back" is claimed only after the re-bind or the removal succeeded |
| StoreInstall.Installer.Settle | store.go:504-527 | the mark is set first and the replaced certificate is removed second, and neither failing makes the install fail |
| StoreInstall.Installer.BindAndProve | store.go:449-483 | bind, reload, verify in that order, each failure rolled back with the right knowledge of what was bound and reloaded |
| StoreInstall.Installer.ApplyStore | store.go:366-441 | from any host and for all answers, the calls made, the host left and the report are those of the install plan |
| StoreInstall.ReplayConcat | store.go:366-441 | a sequence of store calls can be cut anywhere: the second part acts on the host the first part leaves |
| StoreCalls.CallsInFull | store.go:366-622 | the calls of an install, in order, told from its outcome: what is proved, and then marked and tidied, or taken out again |
| StoreCalls.ReportInFull | store.go:366-622 | exactly when a report says installed, rolled back, an install time and a reload time |
| StoreCalls.ReloadedOntoPrevious | store.go:611-620 | after a bind back to the previous certificate that succeeds, the refused one is removed, and a service that had been reloaded is reloaded once more, last of all; one that had not is not |
| StoreCalls.PreviousIsFirst | store.go:344-356 | the previous certificate is the first of those listed that is in the store under the destination's name |
| StoreSafety.FirstNamedFinds | store.go:344-356 | the certificate found is in the store, in that store, and carries the name; none is found only if no listed one carries it |
| StoreSafety.InstallSafe | store.go:552-555 | inside the guard, if the bind commands that run say what they did, no intermediate state of an install has a binding that names an absent certificate |
| StoreSafety.BoundImportDangles | store.go:413-422 | a failed import removes the certificate even when an endpoint already names it, which leaves that endpoint dangling |
| StoreSafety.ForcedRollbackDangles | store.go:563-622 | a forced reinstall that is rolled back re-binds to the very certificate it then removes |
| StoreSafety.SettledInstallDangles | store.go:504-527 | settling removes the replaced certificate from under any endpoint this destination does not re-point |
| StoreSafety.SafeExactlyInsideTheGuard | store.go:366-622 | over all answers whose bind commands say what they did, every intermediate state of an install is free of dangling bindings if and only if the guard holds when it starts |
| StoreRuns.RunsNeverDangle | store.go:552-555 | over every run of installs, forced or not, with or without a bind command, and of endpoints re-pointed or unbound by somebody else in between, from a kept host and whatever else fails, the ten hypotheses leave no intermediate state with a dangling binding; destinations may share an endpoint, and another store may hold certificates marked before |
| StoreWitnesses.EachHypothesisIsNeeded | store.go:366-622 | for each of the ten hypotheses, a run that meets all the others at every event and leaves a binding dangling |
| CycleRuns.CycleIsItsInstalls | install.go:445-459 | what a cycle does to stores and bindings is the run of its store installs, whatever file destinations stand between them |
| CycleRuns.TurnIsItsEvents | store.go:366-622 | a whole cycle, or a change by somebody else, leaves the stores and bindings its events leave, and is safe at every call if they are |
| CycleRuns.CyclesNeverDangle | store.go:552-555 | over every sequence of whole cycles, forced destinations included, and of changes by somebody else between them, that starts from a kept host and meets the hypotheses, no state of any cycle has a dangling binding |
| StoreReports.RolledBackMeans | store.go:563-622 | "rolled back" on a store destination means nothing was re-pointed and the import is out again, or the endpoint names the certificate last marked, present exactly unless the rollback removed that very one |
| StoreReports.RolledBackExactly | store.go:563-622 | exactly when a "rolled back" report leaves the whole host, certificates with their names and bindings, as it was |
| StoreReports.InstalledMeans | store.go:366-527 | "installed" means the certificate is in the store and bound, marked if naming worked, its predecessor gone if removing worked, and nothing else changed |
| StoreReports.RemovedOnlyAfterRebind | store.go:548-556 | in an install that got past its bind command, wherever its certificate is removed, the call just before is a bind of the same endpoint to the previous certificate, and it succeeded |
| StoreReports.GoneOnlyIfPutBack | store.go:563-622 | once an install got past its bind command, its certificate is gone in the end only if the endpoint names the previous one |
| FileInstall.Installer.WriteAtomic | installfs.go:164-217 | a write replaces the file or leaves the disk as it was, at whichever stage it fails; at every moment the path holds the old or the new file whole, and the temporary file holds content under the final permissions only |
| FileInstall.Installer.CaptureAll | install.go:682-697 | after a capture that succeeds, every target records whether its path existed and exactly what it held |
| FileInstall.Installer.WriteAll | install.go:632-663 | either every target is written in order, or the ones written before the failure are put back where that works, and the marks say which are not |
| FileInstall.Installer.Restore | install.go:735-758 | putting back last first ends, path by path, at the entry state where some write of the path could be undone and at the written state elsewhere; repeated paths included |
| FileInstall.Installer.FilesMatch | install.go:701-709 | "matches" means every file can be read and already holds exactly the content that would be written |
| FileInstall.Installer.Enforce | install.go:712-732 | modes are set in order up to the first failure and no content changes |
| FileInstall.Installer.Rollback | install.go:588-619 | "rolled back" is claimed only if every restore worked, and only then are loaded files reloaded |
| FileInstall.Installer.Confirm | install.go:547-579 | the check sees the new files before any reload, and either failing restores |
| FileInstall.Installer.InstallFiles | install.go:632-663 | the disk, the commands with what they saw, the marks and the report of a whole file install, for all answers; and at every moment of it each path of the destination holds what it held at entry or a file written there, whole, and no other file differs |
| FileInstall.AfterKeys | install.go:646-661 | writing creates the targets' paths and no others |
| FileInstall.EnforcedKeeps | install.go:711-732 | enforcing modes neither creates nor removes a file and changes no content |
| FileGuarantees.LastWriteWins | install.go:651-661 | a path holds what its last target wrote |
| FileGuarantees.RestoredAt | install.go:735-758 | what each path holds after a restore of which some steps failed |
| FileGuarantees.FailureLeavesNothing | install.go:632-663 | a failed install whose restores work leaves every path's existence, content and permissions as at entry, however paths repeat, if it is forced, or something differs in content, or all modes are right already |
| FileGuarantees.AllOrNothingExactly | install.go:632-758 | over all answers whose restores work, failure always leaves the entry disk if and only if the install is forced, or some target is missing or differs in content, or every target already has its permissions |
| FileGuarantees.ChangedModeWitness | install.go:712-732 | an install of two distinct matching files that fails at the second with the first one's mode changed |
| FileGuarantees.RolledBackIsTrue | install.go:588-619 | a report says "rolled back" if and only if a command failed after everything was written and every restore worked, and then the disk is the entry disk |
| FileGuarantees.PartialFailure | install.go:735-758 | what every path holds when restores fail: what was written if it was written and all its written targets are still marked, and otherwise what was there at entry |
| FileGuarantees.UnmarkedIsAtEntry | install.go:671-680 | every target not marked as written is as at entry after any failure, where targets that share a path write nothing new there and the install writes its files or has no mode to set |
| FileGuarantees.UnmarkedIsAtEntryExactly | install.go:671-758 | over all answers, failed installs that only set modes included, that is so if and only if for any two targets of one path the earlier one writes what the path holds already, and the install is forced, or some target is missing or differs in content, or every target already has its permissions |
| FileGuarantees.RepeatedPathWitness | install.go:632-663 | with one path named twice, a target that was never written and is not marked can still differ from entry |
| FileGuarantees.WrittenMatchesExactly | install.go:651-661 | written files all hold their contents if and only if no path is given two |
| FileGuarantees.InstalledMode | install.go:632-732 | whether it wrote or only set modes, an install that says it is installed leaves each path with the permissions of its last target |
| FileGuarantees.OtherPathsKept | install.go:632-758 | no path outside the destination changes, in the end or at any command |
| FileGuarantees.CommandsSeeWholeStates | install.go:547-619 | every command runs on the written disk or on the entry disk, whole; with distinct paths all targets are new or all are as at entry |
| FileGuarantees.ReloadFollowsCheck | install.go:547-619 | new files are reloaded only after a declared check passed on that same disk, a refused check is followed by no reload, and a second reload happens only on the restored entry disk |
| FileCalls.SeenInFull | install.go:547-619 | the commands a file install runs, with the disk each sees, in full |
| FileCalls.FailedReloadIsTakenBack | install.go:605-616 | a failed reload whose restores all work is followed by exactly one reload, on the entry disk |
| FileCalls.ReportInFull | install.go:507-619 | exactly when a file install reports installed, an install time and a reload time |
| FileCalls.ModesSetInPart | install.go:712-732 | which files have their modes when setting them stops half way, and that no content changes |
| InstallSpec.ModesAlwaysParse | install.go:371-405 | for an accepted file destination neither mode falls back on a parse error, and both lie between 1 and 0o7777 |
| InstallSpec.KeyIsNeverWorldReadable | install.go:310-334 | in every layout, each rendered file that holds the key of an accepted destination has permissions without the world-readable bit |
| InstallSpec.KeyIsWrittenOnce | install.go:761-804 | every layout writes the key in exactly one file, at the key's path, or at the one path of a keystore |
| InstallSpec.PathsAreRendered | install.go:807-831 | the reported paths are the rendered paths, in order, whenever rendering succeeds, and the store's name for a store |
| InstallSpec.AcceptedPathsMayRepeat | install.go:264-365 | validation accepts a destination that names one path twice, and the later file then overwrites the key |
| InstallSpec.PermKeepsBit | install.go:371-405 | cutting a mode down to permission bits keeps the world-readable bit as it was |
| SpecMeaning.OctalRoundTrip | install.go:395-405 | a mode reads back from its octal digits, with a zero in front or without |
| SpecMeaning.OctalExactly | install.go:395-405 | a mode can be read exactly if it is nothing but octal digits |
| SpecMeaning.ModeInDigits | install.go:328-347 | three digits mean owner, group and others, and any account may read exactly when the last holds a four |
| SpecMeaning.DefaultModes | install.go:371-393 | unwritten modes are as if 644, 600, or with a group 640, had been written |
| SpecMeaning.FilesByteForByte | install.go:761-845 | the path, bytes and mode of every file of every layout, in order, and exactly when there are none |
| SpecMeaning.FilesAcceptedExactly | install.go:264-365 | exactly which file destinations are accepted |
| SpecMeaning.StoresAcceptedExactly | store.go:161-255 | exactly which store destinations are accepted |
| SpecMeaning.LookupExactly | profile.go:124-132 | the profile found is the first of that name, and none is found exactly if there is none |
| SpecMeaning.BlanksAreFilled | profile.go:151-198 | every field left blank and every list not written down takes the default of the same field of the first profile of that name; every other stays |
| SpecMeaning.RefusedExactly | profile.go:151-229 | a profile is refused exactly for an unknown name, another platform, or a path or endpoint that keeps a placeholder |
| SpecMeaning.ReadExactly | install.go:235-262 | a destination's name is trimmed, its certificate's name cleaned, its profile applied and the result validated; exactly when that refuses it |
| Profiles.Draft.LookupProfile | profile.go:124-132 | the profile found is the first of that name, trimmed and in lower case |
| Profiles.Draft.ExpandPlaceholders | profile.go:206-229 | substitution succeeds exactly when no path and no endpoint is left with a placeholder |
| Profiles.Draft.ApplyProfile | profile.go:151-198 | step by step a profile is refused as `SpecMeaning.RefusedExactly` says and otherwise fills as `SpecMeaning.BlanksAreFilled` says |
| Profiles.ApplyingTwiceIsOnce | profile.go:151-198 | applying a profile to its own result changes nothing, if the certificate has a name |
| Profiles.BlankCertificateWitness | profile.go:177-181 | with any blank certificate name it does: a path that expands to blank is filled the second time |
| Profiles.IdempotentExactly | profile.go:151-198 | for a certificate name, applying twice is applying once for every destination and catalogue if and only if the name is not blank |
| Profiles.AcceptedIsStable | install.go:240-262 | an accepted destination has a name that is not blank, and applying its profile again changes nothing |
| Profiles.ProfileNeverOverrides | profile.go:143-150 | what the operator wrote survives, apart from the placeholder; a written list survives even when empty; no path or endpoint keeps a placeholder |
| Profiles.WrittenPathIsKept | profile.go:200-229 | each path, and the endpoint, written without a placeholder is taken as it stands |
| Profiles.LoadInstallSpec | install.go:223-262 | a spec is accepted if and only if every destination is and no two share a name, and then each is its own cleaned, filled and validated form, in order |
| Apply.Installer.FindHeldFor | installfs.go:60-72 | the loops find the certificate that `TaskMeaning.FindHeldExactly` describes, compared without case and trailing dot |
| Apply.Installer.ApplyTask | install.go:462-538 | each destination is done by the installer of its kind, and what it did to the host, ran and called is what that installer did |
| Apply.Installer.ApplyAll | install.go:445-459 | destinations are applied in the order declared and reported in the order of their names |
| TaskMeaning.FindHeldExactly | installfs.go:60-72 | the certificate taken bears the destination's name and no earlier one does; none is taken exactly if none does |
| TaskMeaning.TaskIsOfTheFirst | install.go:462-538 | a destination puts that certificate's material into its files or its store, runs check, reload, bind and verify exactly if declared, and otherwise says which way it ends |
| TaskMeaning.ForcedIsReinstalled | install.go:632-661 | a forced destination writes its files and reloads, or imports its certificate, whatever is there |
| ApplyGuarantees.ReportIsSorted | install.go:455-457 | a report over distinct names is sorted by name and holds the same entries |
| ApplyGuarantees.SortedIsUnique | install.go:455-457 | there is only one sorted report with the same entries |
| Prelude.BeforeExactly | install.go:455-457 | one name comes before another if it is the beginning of it or less where they first differ |
| ApplyGuarantees.FilesLocal | install.go:632-663 | a file install reports and leaves the same on two disks that agree on its own paths |
| ApplyGuarantees.PlanLocal | store.go:366-441 | a store install asks and reports the same on two hosts that agree on which certificates of its store carry its name |
| ApplyGuarantees.InstallKeeps | store.go:366-622 | a store install changes no certificate but its own and the previous one, and no endpoint but its own |
| ApplyGuarantees.KeyOnDiskIsPrivate | install.go:318-334 | after any install that says it is installed, the file at the key's path cannot be read by any account, unless a later file of the destination took the path over |
| ApplyGuarantees.KeyIsNeverExposed | installfs.go:164-217 | in every state of any install of an accepted destination, failed ones, temporary files and restores included, a file that differs from entry and that any account can read holds nothing but a first part of a file without the key, or of what was at entry with the same permissions |
| Interference.JobLocal | install.go:462-538 | a destination does the same in two worlds that look the same to it and leaves everything else alone |
| Interference.EachAsAlone | install.go:445-459 | among destinations with nothing in common, each thing on the host ends as if the one destination that owns it had been applied alone, and so does its report |
| Interference.OrderDoesNotMatter | install.go:445-459 | any order of such destinations leaves the same world and the same sorted report, with exactly one entry for each |
| WholeSpec.SpecOrderDoesNotMatter | install.go:445-459 | the same for a spec and the order in which it declares its destinations |
| WholeSpec.TaskIsDetermined | install.go:462-538 | what a destination comes to depends on the held material alone for a store, also on whether its owner is known for PEM files, and also on the encoding for a keystore |
| WholeSpec.SpecComesToRest | install.go:632-639 | after an application of a spec in which everything reported installed and every naming and removal that was made took effect, applying the same spec to the same material without force runs no command, makes no store call but reads, changes no content and reports everything installed |
| Quiescence.SettledDoesNothing | install.go:632-639 | a destination that is as it should be and not forced runs nothing, imports nothing, changes no content, and says it is installed |
| Quiescence.InstalledSettles | store.go:388-411 | a destination that reported installed is as it should be from then on, given that it gives no path two contents, or has at most one certificate of its store marked and every naming and removal it makes takes effect |
| Quiescence.InstalledFilesMatchExactly | install.go:632-663 | a file destination that reported installed has all its contents in place if and only if it gives no path two |
| Quiescence.ApplyingAgainDoesNothing | install.go:632-639 | after a run in which everything reported installed, over destinations that share nothing, applying again runs no command, makes no store call but reads, changes no content and reports installed throughout |
| Quiescence.SharedCertificateNeverSettles | store.go:388-411 | two store destinations with one certificate take its mark from each other: each application imports again although both report installed |
| Quiescence.EveryRoundImportsAgain | store.go:504-514 | and they do so in every round, for ever |
| Quiescence.RepeatedPathNeverSettles | install.go:701-709 | a destination that gives one path two contents rewrites and reloads at every application |
| KeyDerivation.FillWithRepeats | keystore_alias.go:295-301 | a salt or password is padded to a whole number of blocks with its bytes in turn, for every length |
| KeyDerivation.SetBlock | keystore_alias.go:347-361 | one block becomes the sum modulo 256^v in v bytes, carries dropped and short sums set in zeros, and no other byte changes |
| KeyDerivation.UpdateBlocks | keystore_alias.go:346-361 | the update in place gives the blocks the definition gives, each computed from its old value |
| KeyDerivation.AdvanceAddsExactly | keystore_alias.go:345-361 | block j stands for (block j + B + 1) modulo 256^v, for any number of blocks |
| KeyDerivation.AdvanceLength | keystore_alias.go:345-361 | the update keeps the length of I |
| KeyDerivation.HashRounds | keystore_alias.go:326-330 | the hash is applied r times, and once if r is less than one |
| KeyDerivation.RunRounds | keystore_alias.go:324-362 | one buffer overwritten between rounds yields the rounds of the definition, each from the I of that round |
| KeyDerivation.Pbkdf | keystore_alias.go:314-365 | for all u, v, r, sizes, salts and passwords the result is the first `size` bytes of A_1 to A_c of appendix B.2 of RFC 7292 |
| KeyDerivation.OneRoundIsEnough | keystore_alias.go:269-275 | if the size is at most the hash length the key is the start of H^r(D, I), D being v bytes of ID, so the block update is never reached |
| DerivationMeaning.DerivedDerives | keystore_alias.go:314-365 | for all parameters the key is the rounds' outputs one after another: each hashes v bytes of ID and its input r times; the first input is salt and password filling blocks; every other adds the repeated output plus one to each block, modulo 256^v |
| MacMeaning.OidsAre | keystore_alias.go:80-90 | the object identifiers compared are the seven of the source |
| MacMeaning.KeyEntriesAre | keystore_alias.go:146-149 | the entries named are plain and shrouded keys |
| MacMeaning.IntegerExactly | keystore_alias.go:47-61 | a version or an iteration count is read exactly if it fits 64 bits and takes the fewest bytes it can |
| MacMeaning.RemadeIsTheMac | keystore_alias.go:258-288 | a MAC is remade exactly for the three hashes and a password in the basic plane; its digest is the keyed hash under the hash, applied as often as is said, of blocks of 3, the salt, and the password of two bytes a character with two zeros |
| KeystoreVectors.AttributeVector | keystore_alias.go:216-229 | the attribute that names an entry a, byte for byte |
| KeystoreVectors.MacVector | keystore_alias.go:58-67 | MAC data with parameters and an iteration count, byte for byte |
| KeystoreVectors.KeystoreVector | keystore_alias.go:47-78 | a whole keystore with one key entry, byte for byte |
| BigEndian.ValueInjective | keystore_alias.go:347-350 | byte strings of one length that stand for one number are equal |
| Der.RoundTrip | keystore_alias.go:95-204 | an encoded element decodes to itself, whatever follows it |
| Der.EncodingShape | keystore_alias.go:95-204 | a length below 128 is one byte, and a longer one the fewest bytes that hold it after their count |
| Der.Canonical | keystore_alias.go:95-204 | the bytes of a decoded element are its encoding |
| KeystoreFormat.InfoRoundTrip | keystore_alias.go:53-56 | a ContentInfo reads back as written, and one whose explicit tag has no child does not |
| KeystoreFormat.AttributeRoundTrip | keystore_alias.go:75-78 | an attribute reads back as written |
| KeystoreFormat.SortedInOrder | keystore_alias.go:69-73 | the attributes of a bag are written in the order of their encodings |
| KeystoreFormat.BagRoundTrip | keystore_alias.go:69-73 | a bag reads back as written, its attributes in the order of a DER set; one that ends in an explicit tag without a child does not |
| KeystoreFormat.MacRoundTrip | keystore_alias.go:58-67 | MAC data reads back as written, the default iteration count left out |
| KeystoreFormat.PfxRoundTrip | keystore_alias.go:47-51 | a whole keystore reads back as written |
| KeystoreNaming.BmpRoundTrip | keystore_alias.go:236-246 | an alias is encoded if and only if all its characters lie in the basic plane, and the encoding loses nothing |
| KeystoreNaming.EncodeBmp | keystore_alias.go:236-246 | the loop gives that encoding or refuses |
| KeystoreNaming.NameKeyBags | keystore_alias.go:146-158 | every key entry of a safe gains the attribute, in place and counted; one already named refuses all |
| KeystoreNaming.NameKeySafes | keystore_alias.go:131-173 | only plain safes with a key entry are rewritten, and the count is over all of them |
| KeystoreNaming.RecomputeMac | keystore_alias.go:258-288 | the digest becomes the keyed hash of the message under the derived key, for the three hashes known |
| KeystoreNaming.SetKeystoreAlias | keystore_alias.go:95-204 | the rewrite, with every refusal, on any bytes |
| KeystoreMeaning.NamingKeepsMeaning | keystore_alias.go:95-204 | on success the result opens again: same version, same safes byte for byte but one, in which the same bags stand in order and the only key entry, unnamed before, has gained exactly one name that reads as the alias; and the MAC is that of the new contents |
| KeystoreMeaning.NamingTwiceIsRefused | keystore_alias.go:150-153 | the result of naming is refused if it is named again |
| KeystoreSuccess.NameBagsExactly | keystore_alias.go:146-158 | a safe's entries can be named if and only if no key entry has a name, and then as many are named as there are key entries |
| KeystoreSuccess.NameSafesExactly | keystore_alias.go:126-178 | the same over all safes, those that are not plain counting for nothing |
| KeystoreSuccess.NamingSucceedsExactly | keystore_alias.go:95-204 | naming succeeds if and only if the keystore opens, alias and password can be encoded, its MAC is of a known kind, it holds exactly one plain key entry, unnamed, nothing that is written again ends in a bare tag, and the library opens a result shorter than 2^31 bytes |
| KeystoreSuccess.NamingCanSucceed | keystore_alias.go:95-204 | a small keystore that is named |
| KeystoreSuccess.NoAliasNoChange | keystore_alias.go:95-98 | without an alias any bytes come back as they are |
| KeystoreSuccess.TrailingIsRefused | keystore_alias.go:100-105 | a keystore with anything after it is refused |
| RenewTime.OverriddenExactly | renew.go:24-31 | the core's renewal time is replaced if and only if it precedes a recorded issue time that precedes the expiry, and is otherwise taken as it is |
| RenewTime.OverrideLeavesAThird | renew.go:32-33 | up to 2^62 - 1 nanoseconds of life the replacement lies between issue and expiry and leaves at least a third |
| RenewTime.LongLifeWraps | renew.go:32-33 | beyond that the doubling wraps and the replacement is no later than the issue |
| RenewTime.DueAtIssueExactly | renew.go:24-33 | exactly which records are due at the moment they were issued |
| RenewTime.WaitsExactly | renew.go:24-33 | exactly which records wait at least d after their issue |
| Renewal.NormalizeNames | request.go:310-322 | the loop gives the clean names in order, blanks and repeats dropped |
| Renewal.NormalizedHolds | request.go:310-322 | a name is kept if and only if it is not blank and some given name reads as it once cleaned |
| Renewal.NormalizedOnce | request.go:310-322 | no name is kept twice |
| Renewal.Runner.Request | request.go:82-133 | a request that brings a certificate is an order, saved or not; if it is saved it replaces exactly the record of the directory its first name gives |
| Renewal.Runner.RenewDue | request.go:230-260 | a pass takes the records as they were listed at its start, and counts exactly the orders whose answers were saved |
| Renewal.RunKeepsPace | request.go:230-260 | over every run in which a directory's own answers are saved, file themselves there and wait d, and what others hold and save is not filed there, that directory's orders are at least d apart, whatever becomes of the others |
| Renewal.RunKeepsDirectories | request.go:230-260 | over every run whose saved answers file themselves and that loses no record, the set of held directories never changes |
| Renewal.RenewalsAreRateBounded | request.go:220-229 | orders of one directory within a span of time T number at most 1 + T / d, over whole runs that are good for that directory |
| Renewal.EarlyPassDoesNothing | request.go:230-260 | a pass no later than the issue of every record orders nothing, unless some record is due from birth |
| Renewal.BornDueIsOrdered | request.go:230-260 | in any pass, wherever it stands in the listing, a record due from birth is ordered if it is looked at no sooner than its issue and answered |
| Renewal.UnreplacedIsOrderedAgain | request.go:230-260 | a record that no turn of a pass replaces stays exactly as due as it was, and is ordered at every turn of its own that finds it due and is answered; among them is any to whose directory no listed record's names lead |
| Renewal.UnsavedIsOrderedEveryPass | request.go:112-127 | over whole runs, a record whose answers cannot be saved never changes and is ordered once at every pass that finds it due and is answered |
| Renewal.ReorderedNamesNeverSettle | request.go:97-99 | a core that returns the names in another order has one certificate ordered in every pass, for ever |
| RenewalMeaning.SlugExactly | request.go:325-336 | a directory's name, character by character, a leading star left out |
| RenewalMeaning.WildcardDirectory | request.go:325-336 | a certificate for *.domain is kept under domain |
| RenewalMeaning.TargetExactly | request.go:82-99 | a request is written under its first name that is not blank, and not made without one |
| RenewalMeaning.TurnExactly | request.go:230-260 | exactly when a record's turn orders a certificate, what is logged, what record of the answer is kept, and that no other record changes |
| RenewalMeaning.NormalizedInOrder | request.go:310-322 | clean names stand in the order in which each is first given |
| HeldRecords.Directory.Save | request.go:136-182 | key, certificate, chain and record are written in that order, and a save stops where it is stopped |
| HeldRecords.WhatIsThere | request.go:151-181 | wherever a save stops, each of the four files is as written, a part of it, or as it was, according to whether its write was done, under way or not begun; and no other file changes |
| HeldRecords.FreshSaveIsAllOrUnlisted | request.go:193-218 | on a fresh directory, whatever a crash leaves is either not listed or complete, and then reads back exactly as issued |
| HeldRecords.CompleteSaveIsListed | request.go:193-218 | a save that completes is listed with its record |
| HeldRecords.CompleteRenewalReadsBack | installfs.go:27-45 | a completed renewal reads back as issued if and only if the answer carries a chain or none was there before |
| HeldRecords.InterruptedRenewalMixes | request.go:151-159 | a renewal that stops after its key leaves the new key beside the old certificate, still listed |
| HeldRecords.TornRecordIsUnlisted | request.go:205-212 | a record that is cut off makes its directory disappear from the listing |
| HeldRecords.ListedByRecordAlone | request.go:193-218 | a directory is listed by its record alone, whatever other files are there |
| HeldRecords.PlainJsonIsValid | request.go:171-181 | there is an encoding of records that reads back whole and not in part, as the statements about saving suppose |
| Deploy.Runner.DestinationsFor | deploy.go:103-125 | the loops cover the destinations of a job that `Settlement.CoveredExactly` describes |
| Deploy.Runner.ForcedBy | deploy.go:62-67 | the loops force the destinations of every job |
| Deploy.Runner.CreditJobs | deploy.go:72-82 | each installation is credited to the last job that covers it |
| Deploy.Runner.ReportResult | deploy.go:164-201 | one job gets one result, a success only if it covers something and no covered report says otherwise |
| Deploy.Runner.InstallCycle | deploy.go:23-93 | the host, the remembered spec and everything posted after a cycle are those of the cycle, for a spec that cannot be read, is missing or is found |
| Deploy.ForcedIsTheUnion | deploy.go:62-67 | a destination is forced if and only if some job covers it, and all of them are declared |
| Deploy.CoveredIsDeclared | deploy.go:103-125 | a job covers only declared destinations |
| Settlement.CoveredExactly | deploy.go:103-125 | a job covers exactly the declared ones among those it names, in its order, or if there are none, those of its certificate, in the spec's |
| Settlement.LastJobIsCredited | deploy.go:72-82 | an installation carries the last job that covers it, or none |
| Settlement.CycleSettlesEveryJob | deploy.go:23-93 | from the jobs handed out: exactly the destinations they cover are forced, the state report has one credited entry for each destination, and each job gets one result, a success exactly if all it covers are reported installed |
| Settlement.UnclaimedCycle | deploy.go:24-64 | a cycle that cannot reach the core, or over no destinations, claims and forces nothing; one that cannot reach it posts nothing, and an unreadable spec is reported |
| Deploy.EveryJobIsSettled | deploy.go:84-91 | in a reachable cycle, after the one state report each job gets exactly one result, a success if and only if it covers at least one destination and every one it covers is reported installed |
| Deploy.CycleReportIsComplete | deploy.go:69-75 | the report of a cycle over a spec without repeated names has exactly one entry for each destination |
| Deploy.RememberedExactly | deploy.go:41-56 | over any run of cycles the remembered bit says exactly whether a spec was declared and no cycle since could tell the core that it is gone |
| Deploy.VanishedSpecIsReportedExactly | deploy.go:41-54 | over any run, found specs included, a cycle reports that the spec is gone if and only if it finds it missing, reaches the core, and the core is owed that word; and then it posts nothing else |
| Deploy.VanishedSpecIsReportedOnce | deploy.go:41-54 | between two cycles that report it there is one that found a spec |
| Deploy.VanishedSpecIsReportedFirst | deploy.go:41-54 | the first cycle after a found spec that finds it missing and reaches the core reports it |
| RunLoop.BackoffIsBounded | run.go:229-236 | the wait after n failures is min(15 s * 2^(n-1), 10 min) plus three tenths of that times the random number, so always between 15 s and 13 min, conversion overflow included |
| RunLoop.Agent.TakeTurn | run.go:149-197 | what one turn of the loop does, in order, and how the failure counter moves |
| RunLoop.Agent.Run | run.go:143-199 | a whole run is its turns, up to the one that ends it |
| RunLoop.FailuresAreTheStreak | run.go:147-178 | the counter is the number of heartbeats that failed in a row |
| RunLoop.EventsSplit | run.go:143-199 | a run can be cut at any turn: what follows depends on the past only by the counter |
| RunLoop.WaitFollowsTheStreak | run.go:180-197 | each turn's wait is the interval after a success, and after a failure the back-off of the current streak |
| RunLoop.OneInstallCycleATurn | run.go:163-189 | every turn but one that finds the credential revoked runs exactly one install cycle |
| RunLoop.RunIsOrderly | run.go:149-199 | over every run, a heartbeat that succeeded is followed by renewals, a cycle that reaches the core, the inventory and a wait, and these come after no other; one that failed by a cycle that does not; and nothing follows a revoked one |
| Text.TrimSpaceBlank | profile.go:176-181 | text is empty once trimmed if and only if it is all white space |
| Text.SpacesAre | install.go:241-242 | the characters that count as white space |
| Text.TrimSpaceExactly | install.go:241-242 | trimming takes white space off both ends and nothing else |
| Text.LettersAre | install.go:242 | which letters become which, and that nothing else changes |
| Text.TrimAffixExactly | request.go:336 | an affix that is there is taken off once |
| Text.CleanNameExactly | install.go:242 | a name is compared without the white space around it and one dot at its end, in lower case |
| Text.ContainsExactly | profile.go:222 | text contains another if it stands somewhere in it |
| Text.ReplaceFirst | profile.go:221 | the first occurrence gives way, what comes before stays, and the rest goes on |
| Text.CleanNameHasInk | install.go:242 | a certificate name that is not empty once cleaned is not blank |
| Text.ReplaceKeepsInk | profile.go:220-222 | substituting a name that is not blank leaves text blank only if it was blank |

## Left out

- Signing, enrolment and HTTP (`client.go`, `enrol.go`): a post succeeds, fails or is revoked.
- Key generation, certificate requests, PEM and X.509 parsing: their results are inputs.
- Hashes, HMAC and the encryption inside PKCS#12: uninterpreted; a hash has a fixed output length. Whether the library opens the result is an input.
- The Windows certificate store itself, access lists and services: only the contract of `certStore` is modelled, with an error that may or may not have taken effect.
- TLS dialling and timing inside a verify: each probe says whether the endpoint served the certificate.
- Ownership of files, symbolic links, directories created on the way, power loss after a rename: a disk is contents and permission bits. A restore does not put ownership back in the code either.
- Removing the temporary file is taken to work, its name is taken not to be one of the destination's own paths, and commands are taken not to write the destination's own files.
- Inventory scanning (`inventory.go`), `ForceInstall` (`deploy.go:210-225`), the command line, the text of reports and logs.
- Profile detection and the contents of the profile catalogue: the catalogue is an input.
- Reading JSON: a spec file is unreadable, missing or a list of destinations; a record's encoding is any that reads back whole and not in part.
- Letter case beyond ASCII, and bytes that are not valid UTF-8.
- Object identifiers are compared by their encoded bytes; base-128 validity and tags of more than one byte are not read. Integers and algorithm parameters are kept as bytes.
- Absolute paths, store names and host:port syntax are predicates of the platform.
- Directory names: a slug that is empty or made of dots is an ordinary name here.
- KeystoreNaming.SetKeystoreAlias: the result has to read back, down to the bags of its plain safes, as well as to be opened by the library; in the code the library's decoding does both. How an explicit tag without a child is treated is `encoding/asn1`'s rule; that package is not part of this model.
- RunLoop.BackoffIsBounded: the jitter is computed over real numbers, not over 64-bit floating point; a conversion that overflows gives either end of the range.
- WholeSpec.SpecComesToRest: for a keystore it supposes that the encoding is the same both times, which the random salts of a PKCS#12 encoder do not promise (`keystore.go:88`); for PEM files and stores nothing of the kind is supposed.
- Renewal.RenewalsAreRateBounded: supposes that the directory's own answers file themselves and are saved; `ReorderedNamesNeverSettle` and `UnsavedIsOrderedEveryPass` show what happens otherwise.
- HeldRecords.FreshSaveIsAllOrUnlisted: a crash leaves a prefix of the file being written; reordering of writes by the disk is not modelled.
