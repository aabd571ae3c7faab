# Verified model of pkgdepot

pkgdepot serves pacman package repositories: a service keeps a directory tree of
repositories and package databases, an HTTP API lists and changes them, and a client talks
to that API with OAuth tokens. This project models three parts of it in Dafny and proves
what they are for.

**The repository service.** A tree of directories, files and links is a finite recursive
value (`FileTree`). Publish, Remove, Create, RemoveRepository and Rename are written twice:
as small-step machines, one system call at a time, each of which may fail (`Operations`), and
as the methods of a class that changes the tree in place (`RepositoryService`), proved to end
exactly where the machine ends and to pass only through good trees. `Transactions` and
`Renaming` say what one operation does; `Locking` is the flock, read-write mutex and mutex
protocol around them for any number of goroutines and processes; `Serializability`, `Safety`
and `SignatureHistory` are theorems about every interleaving. `Names` and `Paths` hold the
facts about file names and paths they rest on, `Reporting` says what the service lists.

Which calls of an operation fail is a set fixed beforehand and otherwise arbitrary, so a
theorem about all operations covers every pattern of failures. `Kept` is the invariant of the
tree: below every name the service accepts as a repository there are only architecture
directories in which each database entry names a package file that is there, no two entries
share one, and only databases, links to them, packages, signatures and foreign files appear.
Foreign are the files the service neither reads nor writes, such as the `.files` and `.old`
companions of `repo-add`; the link to the database may be missing.

**Tokens and keys.** `SingleFlight` is the shared interactive authorization, `TokenCache` the
locked refresh-and-store cache, `KeyTrust` the key set with a bounded lifetime.

**The data pipeline.** `Description` and `PackageInfo` are the two metadata parsers,
`Paging` the database reader, the paged listing and the client loop over it, `Grouping` the
repository page, `UrlPath` the client's URL building, `Challenge` the authentication
challenges. `Text`, `Numbers`, `Dependencies` and `Options` are shared by them.

`dafny verify dfyconfig.toml` checks everything.

Two remarks where the code and what is said about it differ. The comment on Rename
(internal/repository/service.go:260-261) allows for mutations missed while the snapshot is
copied; the exclusive lock rules them out, and the stronger fact is what is proved. A Publish
that fails after it made its architecture directory can hide a repository that was empty, and
one that cannot make it can leave a new empty repository; `Reporting.PublishReports` says exactly
when.

Where a failing call makes a property fail, the condition is exact and told from the operation
and the tree before the call (`Transactions.PublishUndone`, `Safety.ApplyUndangling`,
`SignatureHistory.StepRecords`, `Reporting.PublishReports`), and lemmas show the failing cases:
`Transactions.StaleSignatureLost`, `Safety.HalfDeletedDangles`, `Safety.HalfMovedDangles`,
`SignatureHistory.OldSignatureTakenForNew`, `Reporting.FailuresReported`,
`TokenCache.FailedWritePresentsAgain`, `TokenCache.LostAnswerPresentsAgain`. In runs a set of
repositories, or the history of one package, is followed through the operations instead.

In two cases no call fails, and it is the input that makes a property fail. A base URL that ends
in an encoded slash is not sent as written (`UrlPath.EncodedSlashLost`). And pages of a database
whose equal names straddle a page may not fit together (`Paging.TiesMayGoMissing`) as far as the
documentation of `sort.Slice` goes, which leaves the order of ties open: with an implementation
that sorts equal inputs equally all readings of an unchanged file agree, and then
`Paging.EqualReadings` gives the whole list.

## Model

| member | source | states |
|---|---|---|
| Names.NamesDisjoint | internal/repository/service.go:22-23 | package, signature, database and link names never coincide, whatever repositories and packages they are for |
| Names.DerivedNamesInjective | internal/repository/service.go:502-532 | database, link and signature names determine what they were made from |
| Names.PackageFileExactly | internal/repository/service.go:23 | a package file is a stem, `.pkg.tar` and one of four compressions or none, without a slash |
| Names.TemporaryIsNoComponent | internal/repository/service.go:298 | the name of a Rename's temporary directory never matches the component pattern |
| Names.MutexKeyInjective | internal/repository/service.go:585-587 | the in-process mutex key determines its repository and architecture |
| Names.TargetLockCollision | internal/repository/service.go:590 | targets of different repositories share a lock file exactly if a hyphenated part can move between the architecture of the one and the repository of the other |
| Names.TargetLockShared | internal/repository/service.go:590 | two valid targets that share one |
| Names.TargetLockOfRepository | internal/repository/service.go:590 | within one repository the lock file name determines the architecture |
| Names.TargetLockNotGlobal | internal/repository/service.go:590-615 | no target's lock file is the global lock file |
| FileTree.SignatureNameRoundTrip | internal/repository/service.go:562-572 | the package name can be read back from a signature name |
| FileTree.StoreFrame | internal/repository/service.go:672-680 | a change at one target is invisible at every other |
| FileTree.StoreTwice | internal/repository/service.go:672-680 | of two changes at one target the second alone counts |
| Operations.FinishLifts | internal/repository/service.go:143-236 | a Publish or Remove run on the whole tree is the run on its own directory, stored back |
| Operations.StepDecreases | internal/repository/service.go:143-368 | every operation ends: each of its steps brings it nearer to its end |
| Transactions.TargetStepKeeps | internal/repository/service.go:166-235 | after every single step of a Publish or Remove, whatever fails, no entry dangles, no file is shared by two entries and every entry of the directory is of a known kind |
| Transactions.AddKeeps | internal/repository/service.go:188 | entering a package whose file is present and unlisted keeps the directory consistent |
| Transactions.DropKeeps | internal/repository/service.go:221 | dropping an entry keeps it consistent, and no remaining entry names the dropped file |
| Transactions.PublishAllOrNothing | internal/repository/service.go:143-197 | succeeds exactly if the archive is admitted, nothing is in the way and no needed call fails, told beforehand; then adds exactly package, optional signature and one entry; otherwise leaves exactly what it installed and could not undo, and reports exactly the first thing in its way |
| Transactions.PublishOutcome | internal/repository/service.go:143-197 | in a directory the service keeps, success needs exactly: archive inspected, architecture right, filename free, no failing call on the way |
| Transactions.PublishUndone | internal/repository/service.go:183-194 | a failure whose undo works leaves everything as it was but for a new empty directory, except exactly that a stale signature is lost if the upload was signed and the database refused it |
| Transactions.StaleSignatureLost | internal/repository/service.go:183-194 | such a failure for every signed upload: the signature that stood there is gone and nothing is published |
| Transactions.PublishedContents | internal/repository/service.go:176-197 | name by name what a successful Publish leaves |
| Transactions.RemoveAllOrNothing | internal/repository/service.go:199-236 | succeeds exactly if the entry is there and no call fails, and takes out one entry, its file and its signature; each error exactly for its reason, not found exactly if the database can be read and has no such entry; nothing changes unless the entry was dropped, and then exactly the files not yet deleted stay |
| Transactions.RemovedContents | internal/repository/service.go:221-235 | name by name what a Remove that drops the entry leaves |
| Renaming.RetargetedMeaning | internal/repository/service.go:502-532 | a directory with its database renamed is consistent under the new name, lists the same packages and has the same package, signature and foreign files |
| Renaming.RetargetedBack | internal/repository/service.go:502-532 | renaming the database back restores the directory |
| Renaming.RenameAllSucceeds | internal/repository/service.go:307-315 | in every repository the service keeps, renaming the databases meets no refusal |
| Renaming.RenamedRepositoryMeaning | internal/repository/service.go:298-315 | the same for all architectures of a repository |
| Renaming.RenameNeverLoses | internal/repository/service.go:291-322 | at every step and failure of a Rename, either the old repository is untouched and the new name as it was, or the new one is the complete renamed copy; no other name changes |
| Renaming.RenameOutcome | internal/repository/service.go:262-323 | Rename succeeds exactly when the old repository exists, the new and temporary names are free and no call fails; what it then leaves; and which error it reports otherwise |
| Renaming.RenamePreservesMeaning | internal/repository/service.go:298-322 | after a successful Rename every architecture lists under the new name what it listed under the old, with all package, signature and foreign files unchanged; a Rename back restores the tree, and exactly when that can succeed |
| Renaming.RenameBackRestores | internal/repository/service.go:262-323 | a successful Rename back restores the original tree |
| Locking.StepLockInv | internal/repository/service.go:580-641 | every step of every goroutine keeps the lock tables and the exclusions they give |
| Locking.RWMutexNeverBlocks | internal/repository/service.go:627-631 | once the global flock is held the read-write mutex never blocks |
| Locking.MutexBlocksSameTargetOnly | internal/repository/service.go:585-588 | goroutines of one process wait on a target mutex only for the same target |
| Locking.WaitsExactly | internal/repository/service.go:580-641 | who waits for whom: shared operations only for an exclusive one, an exclusive one for any, a mutex for the same target in one process, a lock file for another holder of that file |
| Locking.SomeoneCanMove | internal/repository/service.go:580-641 | while one goroutine is unfinished some goroutine can move |
| Locking.StuckMeansFinished | internal/repository/service.go:580-641 | no deadlock: nobody can move exactly when everybody has finished |
| Locking.RunsAreBounded | internal/repository/service.go:580-641 | no run is longer than the work there was at its start |
| Locking.RunsComplete | internal/repository/service.go:580-641 | every finite set of operations finishes under every schedule, and all locks are given back, on error paths too |
| Locking.NothingHeld | internal/repository/service.go:602-640 | when all have finished no lock is held |
| Serializability.BodiesApart | internal/repository/service.go:580-641 | two operations work at the same moment only if both are shared and their targets differ |
| Serializability.Serializable | internal/repository/service.go:143-368 | every complete interleaving leaves the tree and gives the answers of running the operations one at a time in some order |
| Serializability.LogGrows | internal/repository/service.go:143-368 | the order of answers is only ever extended at its end |
| Serializability.RealTimeOrder | internal/repository/service.go:143-368 | a job answered before another one was answered, let alone begun, stands before it however the run goes on |
| Safety.ApplyKeeps | internal/repository/service.go:143-368 | every operation, successful or not, keeps the invariant of every repository outside a set followed through the operations: a failing tree deletion adds its repository, a Rename's copy is as good as what it was made from, and what is created or gone is good |
| Safety.ApplyUndangling | internal/repository/service.go:143-368 | from a kept tree an operation leaves a dangling entry at a target if and only if a tree deletion fails there that leaves the database and not the file of every package in it, told from the operation and the tree before the call |
| Safety.RefusedLeavesTree | internal/repository/service.go:580-641 | an operation refused by its checks or locks fails and changes nothing |
| Safety.RefusedAnswer | internal/repository/service.go:580-641 | an operation is refused exactly for an invalid name, equal names of a Rename, or a lock that cannot be had, in this order |
| Safety.PublishedPackage | internal/repository/service.go:176-197 | a successful Publish answers the inspected package with every field unchanged but the filename, and that is what the database has under its name, beside the files uploaded |
| Safety.CreateOutcome | internal/repository/service.go:325-342 | succeeds exactly for a valid free name if no call fails, and adds exactly one empty repository; otherwise nothing changes, and each error is reported exactly for its reason |
| Safety.RemoveRepositoryOutcome | internal/repository/service.go:344-368 | succeeds exactly for an existing repository if no call fails, and takes out exactly that; a failed deletion touches only that repository; an absent one is reported exactly if the operation is not refused and its first look does not fail |
| Safety.RenameAnswer | internal/repository/service.go:262-323 | an absent repository is reported exactly if the operation is not refused and its first look does not fail, and every other error of Rename exactly for its reason |
| Safety.DistinctTargetsCommute | internal/repository/service.go:580-608 | operations on distinct targets give the same answers and leave the same tree in either order |
| Safety.ReachableSafe | internal/repository/service.go:143-368 | in every state of every interleaving of any operations every repository outside the set of that moment satisfies the invariant, and every operation in progress outside it finds what it relies on |
| Safety.NeverDangling | internal/repository/service.go:166-235 | at every moment of every interleaving of any operations, in every repository that is not half-deleted at that moment, each database entry names a present file and no two share one; this includes the copy of a Rename whose deletion fails and a name created anew |
| Safety.TaintedWithin | internal/repository/service.go:143-368 | the set followed through a run stays within any set that can be read off the jobs: closed under the failing deletions and the Renames |
| Safety.HalfDeletedDangles | internal/repository/service.go:363-367 | in every kept repository that lists a package some failing RemoveRepository leaves a dangling entry |
| Safety.HalfMovedDangles | internal/repository/service.go:316-322 | so does some failing deletion of the old repository by a Rename, while its copy satisfies the invariant |
| Safety.CopyStays | internal/repository/service.go:316-322 | every Rename of a kept repository whose deletion fails leaves a complete copy that means the same |
| Safety.RenameNeverLosesInRuns | internal/repository/service.go:291-322 | a Rename loses nothing at any moment, whatever it is interleaved with and whichever calls of any operation fail |
| SignatureHistory.StepRecords | internal/repository/service.go:143-368 | one more operation keeps files and history in agreement exactly unless it fails in a way told beforehand for each operation: an undo of Publish, the signature deletion of Remove, a tree deletion that takes the package or its signature alone |
| SignatureHistory.SerialRecords | internal/repository/service.go:170-235 | after any serial run signature files agree with the history of what was installed, unless an operation broke the agreement and nothing has taken the package away or brought a signed one since |
| SignatureHistory.SignaturesMatchHistory | internal/repository/service.go:562-578 | at every target nobody works on, at any moment of any interleaving of any operations, a signature stands only beside its package, and HasSignature is true exactly when the publish that installed the package carried one, under the same condition |
| SignatureHistory.NoneAstray | internal/repository/service.go:143-368 | no history goes astray outside a set of repositories that can be read off the jobs |
| SignatureHistory.OldSignatureTakenForNew | internal/repository/service.go:562-578 | after a Remove that could not delete the signature, an unsigned publish of the same file is shown as signed |
| Paths.LookupGraft | internal/repository/service.go:461-500 | reading at one path after writing at another |
| Reporting.ListingFromMultiset | internal/repository/service.go:398-402 | a directory listing is determined by the entries: strictly ordered, each name once |
| Reporting.TemporaryNeverReported | internal/repository/service.go:398-426 | a Rename's temporary directory is never reported as a repository |
| Reporting.PublishReports | internal/repository/service.go:158-197 | exactly which repositories are reported after a Publish, whatever its outcome and whatever fails |
| Reporting.FailedPublishHidesEmptyRepository | internal/repository/service.go:414-421 | a Publish makes a reported repository disappear exactly if it is the target, was empty, and the Publish fails after it made the architecture directory, told beforehand |
| Reporting.FailuresReported | internal/repository/service.go:158-182 | a failing installation hides an empty repository, and a failing architecture directory makes a new empty one appear, for every admitted upload |
| RepositoryService.Upload.WriteFile | internal/repository/service.go:653-670 | an upload file is created exclusively, and nothing else in the staging directory changes |
| RepositoryService.Upload.WritePackage | internal/repository/service.go:109-124 | accepts exactly the first package whose base name is a package file not yet staged and whose write works, under that base name; a refusal changes nothing, a failing write leaves part of the content |
| RepositoryService.BaseExactly | internal/repository/service.go:113 | the base name is what follows the last slash, slashes at the end cut off before |
| RepositoryService.Upload.WriteSignature | internal/repository/service.go:126-135 | accepts exactly the first signature that is not yet staged and whose write works; a refusal changes nothing, a failing write leaves part of the content |
| RepositoryService.Service.BeginUpload | internal/repository/service.go:92-107 | exactly the valid targets get an upload with a staging directory of its own |
| RepositoryService.Service.Cleanup | internal/repository/service.go:137-141 | the staging directory is removed |
| RepositoryService.Service.PublishUpload | internal/repository/service.go:143-197 | ends exactly where the Publish machine ends, passes only through trees that satisfy the invariant, and removes the staging directory whatever happens; a success answers the inspected package under the uploaded filename and leaves the staged files and that entry in place |
| RepositoryService.Service.Prepare | internal/repository/service.go:158-175 | the checks and the directory: follows the machine up to the installation |
| RepositoryService.Service.Install | internal/repository/service.go:176-186 | package and signature moved in place, the package taken out again if the signature fails |
| RepositoryService.Service.Enter | internal/repository/service.go:188-197 | the database entry, and the rollback if it fails |
| RepositoryService.Service.RollBack | internal/repository/service.go:188-194 | the rollback after the database refused the package |
| RepositoryService.Service.Find | internal/repository/service.go:213-220 | what Remove looks up before it changes anything; found, not found and unreadable exactly for their reasons |
| RepositoryService.Service.Drop | internal/repository/service.go:221-235 | entry, file and signature in that order, following the machine |
| RepositoryService.Service.Remove | internal/repository/service.go:199-236 | ends exactly where the Remove machine ends, passing only through good trees |
| RepositoryService.Service.Create | internal/repository/service.go:325-342 | ends exactly where the Create machine ends |
| RepositoryService.Service.RemoveRepository | internal/repository/service.go:344-368 | ends exactly where the RemoveRepository machine ends |
| RepositoryService.Service.RepositoryArchitectures | internal/repository/service.go:428-459 | exactly the component-named directories with a regular `.db.tar.gz` file of the repository's name, in order |
| RepositoryService.Service.Repositories | internal/repository/service.go:398-426 | exactly the reported repositories, strictly ordered, each with exactly its architectures |
| RepositoryService.Service.CopyDirectory | internal/repository/service.go:461-500 | terminates, writes only below the destination, succeeds on every copyable tree unless a call fails, and then the copy equals the original |
| RepositoryService.Service.CopyEntry | internal/repository/service.go:466-498 | one turn of its loop |
| RepositoryService.CopyableExactly | internal/repository/service.go:461-500 | what can be copied is exactly what has no special file at any path |
| RepositoryService.Service.RenameDatabaseIn | internal/repository/service.go:502-532 | the database and its link renamed in one architecture, or only the snapshot touched |
| RepositoryService.Service.RenameDatabasesIn | internal/repository/service.go:307-315 | the loop over the architectures |
| RepositoryService.Service.FillSnapshot | internal/repository/service.go:298-315 | the snapshot is the renamed copy, or only the snapshot was touched |
| RepositoryService.Service.Replace | internal/repository/service.go:316-322 | the snapshot put in place and the old repository deleted, losing nothing at any moment |
| RepositoryService.Service.Rename | internal/repository/service.go:262-323 | what Rename leaves and reports for every outcome, an absent repository included, and that every tree it passes through has lost nothing |
| SingleFlight.StepInv | internal/httpclient/client.go:839-872 | every step of every caller keeps the invariant of the shared authorization |
| SingleFlight.OneAuthorization | internal/httpclient/client.go:839-872 | at most one authorization is in progress; while one is registered and the mutex is free there is no refresh source |
| SingleFlight.RefreshSource | internal/httpclient/client.go:841-865 | while no authorization is in progress there is a refresh source exactly if some authorization has succeeded and no refresh has failed since |
| SingleFlight.AsksTheSource | internal/httpclient/client.go:840-847 | a call that has the mutex asks the source exactly if there is one |
| SingleFlight.RefreshedReturns | internal/httpclient/client.go:841-845 | a refreshed token is what the call returns, without an authorization of its own |
| SingleFlight.AuthorizesOnlyIfNeeded | internal/httpclient/client.go:841-858 | an authorization starts only if none is in progress and no refresh source is owed |
| SingleFlight.ResultFilledOnce | internal/httpclient/client.go:831-870 | a result is written and closed at most once, is complete when closed, and is open exactly while its leader is at work on it |
| SingleFlight.WaiterGetsItsLeadersAnswer | internal/httpclient/client.go:848-855 | a caller that waited returns exactly the token and error of the authorization it waited for, whatever was started since |
| SingleFlight.ReplyIsItsOwnAnswer | internal/httpclient/client.go:839-872 | every other call returns exactly its own refreshed token, the answer of the authorization it ran, or its cancellation, never both a token and an error |
| SingleFlight.SomeoneCanGoOn | internal/httpclient/client.go:839-872 | while a call has not returned some call can go on without any cancellation |
| SingleFlight.RunsAreBounded | internal/httpclient/client.go:839-872 | every set of calls returns after a bounded number of steps |
| TokenCache.StepInv | internal/httpclient/client.go:717-747 | every step of every caller keeps the invariant of store, locks and provider |
| TokenCache.PresentedAgainOnlyIfNotStored | internal/httpclient/client.go:730-745 | an exchanged refresh token is presented again exactly if the result of the last exchange was lost on its way or could not be stored |
| TokenCache.ExchangedOnce | internal/httpclient/client.go:717-747 | while no answer of the provider is lost and every write of the store succeeds, no exchanged refresh token is presented again |
| TokenCache.ReturnedIsStored | internal/httpclient/client.go:742-747 | at every successful return the store holds the token returned |
| TokenCache.ReplyIsDue | internal/httpclient/client.go:722-746 | a call succeeds exactly if nothing it was told failed, with the token it read if that had more than thirty seconds left, or at least ten at the refresh, and otherwise exactly the one the refresh or the login delivered |
| TokenCache.StoredIsDue | internal/httpclient/client.go:743-745 | the store changes only by a successful write, under the key of the call, to the token that call owes |
| TokenCache.OneCallPerKey | internal/httpclient/client.go:718-720 | calls that share a key exclude each other from reading the store to returning |
| TokenCache.SomeoneCanGoOn | internal/httpclient/client.go:717-747 | no call waits for a lock that nobody will release |
| TokenCache.StuckMeansReturned | internal/httpclient/client.go:717-747 | nothing can go on exactly when every call has returned |
| TokenCache.RunsAreBounded | internal/httpclient/client.go:717-747 | every set of calls returns after at most six steps a call |
| TokenCache.FailedWritePresentsAgain | internal/httpclient/client.go:742-745 | a concrete run with a failed write in which the second call presents the exchanged token |
| TokenCache.LostAnswerPresentsAgain | internal/httpclient/client.go:730-741 | a concrete run with a lost answer in which the second call presents the exchanged token |
| KeyTrust.Sub | internal/auth/jwt.go:53 | the saturated difference of instants compares with a lifetime as the exact one does |
| KeyTrust.AgeBelowLifetime | internal/auth/jwt.go:50-60 | every call uses a key set younger than the lifetime |
| KeyTrust.BuildsBounded | internal/auth/jwt.go:50-60 | at most one key set for the first call and one per whole lifetime since |
| KeyTrust.BoundReached | internal/auth/jwt.go:50-60 | calls exactly a lifetime apart reach that bound |
| KeyTrust.WithdrawnKeyUntrusted | internal/auth/jwt.go:27-30 | a key withdrawn at an instant is trusted by no call that reads the clock a lifetime later, however late it verifies |
| KeyTrust.TrustedUntilThen | internal/auth/jwt.go:27-30 | the bound is exact |
| KeyTrust.ExpiringKeySet.constructor | internal/auth/jwt.go:41-48 | a lifetime that is not positive becomes fifteen minutes |
| KeyTrust.ExpiringKeySet.VerifySignature | internal/auth/jwt.go:50-60 | uses the key set the run of readings determines, and rebuilds it exactly when it has expired |
| Numbers.ParseDecimal | internal/alpm/database.go:89-91 | a written size reads back, saturating at the largest one |
| Numbers.ParseInt64Exact | internal/alpm/database.go:89-91 | a size that is a number is read as it, or as the nearest one of 64 bits |
| Numbers.AtoiDecimal | internal/httpclient/client.go:302-303 | a written cursor or limit reads back |
| Numbers.AtoiExact | internal/httpapi/server.go:425-435 | accepted exactly an optional sign and decimal digits that mean a number of 64 bits, with that number |
| Dependencies.Judge | internal/alpm/database.go:65-75 | the verdict of the running checks is positive exactly when count and bytes are within limits |
| Dependencies.JudgeSettled | internal/alpm/database.go:65-75 | a broken limit decides whatever follows |
| Description.ParseDescription | internal/alpm/database.go:54-96 | the loop with its map and running checks returns exactly the declarative meaning of the lines |
| Description.RejectedExactly | internal/alpm/database.go:65-75 | the dependency checks reject exactly when the whole input exceeds a limit |
| Description.AcceptedExactly | internal/alpm/database.go:85-96 | a package is read exactly if the limits hold, the scan succeeded and name and version are given; its fields are the first values of their sections |
| Description.FirstValue | internal/alpm/database.go:98-103 | a scalar is the first value line under any section of its name |
| Description.SectionAppends | internal/alpm/database.go:61-77 | a section adds its non-blank lines after earlier ones of its name, and to no other section |
| Description.BlankLinesIrrelevant | internal/alpm/database.go:65 | a blank line anywhere changes nothing |
| Description.RenderedRead | internal/alpm/database.go:61-77 | reading any list of rendered sections gives each name its values, repeated sections joined |
| Description.RenderedParses | internal/alpm/database.go:54-96 | parsing the entry written for a package returns it |
| PackageInfo.ParsePackageInfo | internal/alpm/package.go:37-81 | the loop with its counters: the described package if the whole input is acceptable, otherwise the error of the first line that makes it unacceptable |
| PackageInfo.AcceptedExactly | internal/alpm/package.go:37-81 | accepted exactly when the scan succeeds, the three limits hold, every trimmed non-blank non-comment line has a separator, and name, version and architecture are last set to something |
| PackageInfo.LastValue | internal/alpm/package.go:56-67 | a key has the value it is last set to |
| PackageInfo.RejectedFor | internal/alpm/package.go:42-69 | the first unacceptable line decides the error: length, form, number of dependencies, their bytes |
| PackageInfo.AcceptablePrefix | internal/alpm/package.go:42-69 | an input that became unacceptable stays so |
| PackageInfo.TrimSpaceExact | internal/alpm/package.go:46 | trimming takes white space off both ends and nothing else |
| PackageInfo.ReadLineExact | internal/alpm/package.go:46-53 | which lines are skipped, which are malformed, and that the rest are cut at the first separator |
| PackageInfo.PrintedRead | internal/alpm/package.go:50-71 | reading printed assignments gives each key its values in order |
| PackageInfo.PrintedParses | internal/alpm/package.go:37-81 | parsing the printed assignments of a package returns it, dependencies in order |
| Paging.ReadEntries | internal/alpm/database.go:32-49 | the loop over the archive: the packages of the `desc` entries in archive order, or nothing exactly if one does not parse |
| Paging.ReadDatabase | internal/alpm/database.go:16-52 | fails exactly if an entry does not parse or the archive cannot be read; otherwise the packages of all entries, sorted by name |
| Paging.ReadableExactly | internal/alpm/database.go:16-49 | read exactly if there is no file, or a complete archive whose `desc` entries all parse |
| Paging.ArchiveContents | internal/alpm/database.go:16-52 | reading the database file written for any packages gives exactly them |
| Paging.ListPage | internal/repository/service.go:245-258 | a slice of some sorted reading of the database |
| Paging.PageExactly | internal/repository/service.go:245-258 | a page holds, in order, the packages from the offset on, at most as many as the limit |
| Paging.ListHandler | internal/httpapi/server.go:421-450 | a page for a limit that is absent or a number from 1 to 100 and a cursor that is absent or a number of 64 bits that is not negative, absent meaning 100 and 0; otherwise exactly the message that fits |
| Paging.ListingUnique | internal/alpm/database.go:50 | with distinct names every reading gives the same list |
| Paging.List | internal/httpclient/client.go:294-319 | the client loop makes n/100+1 requests and returns n packages cut from as many readings of the database, and exactly the sorted list if no tie of different packages is split by a page |
| Paging.PagingExact | internal/httpclient/client.go:294-319 | pages cut from independent readings make up the sorted database, whichever the readings are, if and only if no page ends inside a group of equal names that holds different packages |
| Paging.StraddlesInEvery | internal/alpm/database.go:50 | that condition can be told from any one sorted reading |
| Paging.DistinctNamesNeverStraddle | internal/alpm/database.go:50 | it holds whenever the names are distinct |
| Paging.EqualReadings | internal/alpm/database.go:50 | readings that agree make up the list they agree on, whatever its ties |
| Paging.TiesMayGoMissing | internal/alpm/database.go:50 | a database file with two versions of one package, and sorted readings of it, whose pages repeat one version and miss the other |
| Text.StrictOrderUnique | internal/alpm/database.go:50 | a strictly ordered permutation is unique |
| Text.LessExactly | internal/alpm/database.go:50 | the order is decided by the first differing character, a beginning before what it begins |
| Text.SortBy | internal/repository/service.go:389-394 | sorting gives an ordered permutation |
| Grouping.ListRepository | internal/repository/service.go:370-396 | every package of every architecture as often as in that architecture's database, by name and then architecture; an error exactly if a database cannot be read |
| Grouping.GatheredExactly | internal/repository/service.go:370-396 | the same told package by package |
| Grouping.PackageViews | internal/httpapi/server.go:217-250 | rows whose variants concatenated are the input in order, each with one name different from its neighbours', the first non-empty description, the first variant's details link and a signature link exactly where the file has a signature; an error exactly if an inspection fails |
| Grouping.GroupingUnique | internal/httpapi/server.go:217-250 | these conditions determine the rows |
| Grouping.FirstDescriptionIsFirst | internal/httpapi/server.go:244-246 | the row's description is that of the first variant that has one |
| Grouping.RowNamesAscend | internal/httpapi/server.go:217-226 | on the sorted list row names ascend strictly |
| Grouping.Search | internal/httpapi/server.go:155-167 | the filter returns the matching rows; an empty query keeps all |
| Grouping.MatchesExactly | internal/httpapi/server.go:155-167 | a row matches exactly if the query stands in its lower-cased name or in the lower-cased description of a variant |
| Grouping.MatchingExact | internal/httpapi/server.go:155-167 | a row is kept exactly if it matches, unchanged and in order |
| Grouping.FoundRowsAscend | internal/httpapi/server.go:155-167 | the rows found on a sorted list match, and their names ascend strictly |
| UrlPath.AppendURLPath | internal/httpclient/client.go:437-446 | the loop that builds path and encoded path |
| UrlPath.EscapeDecodes | internal/httpclient/client.go:439-442 | decoding an escaped component gives it back |
| UrlPath.EscapedPathDecodes | internal/httpclient/client.go:444 | the wire form of any URL is a valid encoding of its path |
| UrlPath.RawPathDecodes | internal/httpclient/client.go:437-446 | the encoded path decodes to the path exactly if the base does not end in an encoded slash |
| UrlPath.WireForm | internal/httpclient/client.go:437-446 | the path is sent as it was encoded exactly under the same condition |
| UrlPath.SplitsBack | internal/httpclient/client.go:437-446 | splitting at slashes and decoding gives the base's segments and then exactly the given components, even with slashes or percent signs in them |
| UrlPath.AppendTwice | internal/httpclient/client.go:418-435 | appending twice is appending once if the first part does not end in a slash |
| UrlPath.RepositoryURLSplitsBack | internal/httpclient/client.go:429-435 | the nested use gives the base's segments, the three fixed ones and one that decodes to the repository, for every repository name |
| UrlPath.EncodedSlashLost | internal/httpclient/client.go:443-444 | a base with an encoded slash at its end for which the path is sent differently |
| Challenge.BearerError | internal/httpapi/server.go:356-366 | the header text is the list of three fixed and two optional parameters |
| Challenge.BearerChallenge | internal/httpapi/server.go:368-375 | the same for the plain challenge |
| Challenge.QuotedReadsBack | internal/httpapi/server.go:384-386 | a quoted value reads back without CR and LF, whatever follows it |
| Challenge.CleanUnchanged | internal/httpapi/server.go:384-386 | a value without CR and LF reads back as it was |
| Challenge.ReadsBack | internal/httpapi/server.go:356-375 | reading a written challenge gives exactly its parameters in order, each without CR and LF, or nothing exactly if a value has another control character |
| Challenge.ErrorReadsBack | internal/httpapi/server.go:356-366 | the same for the error challenge, optional parameters present exactly when not empty |
| Challenge.ChallengeReadsBack | internal/httpapi/server.go:368-375 | the same for the plain challenge |

## Left out

- Operations.FinishLifts: one lock failure, system call or command failure is one member of an operation's failure set; durations, file modes, fsync and umask are not modelled.
- Transactions.PublishAllOrNothing: `repo-add` and `repo-remove` appear by contract (enter or drop one entry, an error changes nothing); their own lock is not modelled, and the `.old` and `.files` companions are foreign files that never change.
- Transactions.RemoveAllOrNothing: a database filename with a directory part counts as escaping, where the code joins and cleans paths first; names the service itself enters never have one. The data root is taken to be absolute, which the check on line 226 needs.
- Renaming.RenameNeverLoses: in interleavings the copy and the database renames of the snapshot are one step each; what they do entry by entry is in RepositoryService.Service.CopyDirectory and RepositoryService.Service.RenameDatabasesIn.
- RepositoryService.Service.RemoveRepository: `os.RemoveAll` is one deletion that, if it fails, leaves an arbitrary part of the tree it was removing; the order inside it is not modelled.
- RepositoryService.Service.PublishUpload: the inspection of the archive is a parameter, so decompression, tar reading and the reader limits are not modelled.
- RepositoryService.Service.Repositories: a repository or architecture directory that is a symbolic link counts as not a directory, and a dangling link as absent.
- Safety.NeverDangling: claims nothing about a repository while a whole-tree deletion of it has failed half-way and it has not since been removed, or about copies made of such a one; Safety.ApplyUndangling says exactly when an entry dangles after such a failure in a tree that was kept.
- SignatureHistory.SignaturesMatchHistory: claims nothing about a package after an operation broke the agreement (SignatureHistory.StepRecords says exactly which do), or after a Remove in a half-deleted repository, until the package is taken away or published with a signature.
- SingleFlight.WaiterGetsItsLeadersAnswer: the interactive authorization itself (loopback listener, browser, code exchange) is an event that answers a token or an error.
- TokenCache.ReturnedIsStored: freshness of returned tokens beyond what the oauth2 source grants, granted scopes, and which client a cached token was issued to are not claimed; other processes and `pkgdepot login` do not write during a run.
- KeyTrust.WithdrawnKeyUntrusted: the remote key set is any set of keys the provider published after the key set was built.
- Description.ParseDescription: lines come as the scanner delivers them; invalid UTF-8 and the scanner's own line limit appear only as a failed scan.
- Grouping.Search: lower-casing is a parameter.
- Paging.List: JSON transport is the identity and a failing request is a bad response.
- Challenge.ReadsBack: the reader knows quoted parameters only, which are all that is written.
- `limitedReader`, `formatBytes`, HTML and CSS, configuration, command line, keyring backend, OIDC discovery, token claims, `urlpolicy` and `cimd` checks: single checks or library calls that would only add easy members.
- `pathURL` of the server reads the encoded path after it overwrote the path, so it lacks the property of `UrlPath.WireForm`, and nothing is claimed about it.
