# Verified model of the eSync update agent

`libua`, the eSync update agent in C, keeps a component of a vehicle up to date: it receives messages from a bus, routes
them to components, downloads packages in a way that survives a power loss, installs them, and rolls back when an
installation fails. This project models its five cores in Dafny and proves what they are for. `dafny verify
dfyconfig.toml` checks all of it.

| core | files | main results |
|---|---|---|
| containers | `BitMask`, `Links`, `HashBuckets`, `UtHash`, `UtHashRuns`, `MergeSort`, `UtList`, `DlQueue` | every run of the hash table refines a finite map with insertion order, across expansions (`UtHashRuns.Run`); the list sort is a stable permutation (`UtList.LlSort`) |
| package digest | `PackageDigest` | the digest of an archive does not depend on the order of its entries, and, short of hash collisions, determines them (`PackageDigest.DigestDetermines`) |
| download | `Crc32`, `Journal`, `Storage`, `Download`, `DownloadSteps` | after any number of lives, each ended by a power loss at any file operation and with any server, the next restart is consistent, has what the life before had up to the last two chunks, and completed reports are earned (`DownloadSteps.Lives`); by how long the power lasts, when its loss costs everything and what it costs otherwise (`Download.Context.Transfer`); bursts are detected (`Crc32.BurstDetected`) |
| routing and pipeline | `Routes`, `RoutingTree`, `RoutingRuns`, `Pipeline` | a path gathers exactly the runners registered at its prefixes (`RoutingRuns.RunGathers`), the tree is determined by the registrations (`Routes.Determined`); when unregistering faults (`RoutingRuns.FaultsIff`); over all interleavings of the pipeline nothing that is handled in time is lost (`Pipeline.Run`) |
| update and rollback | `Rollback`, `UpdateRun`, `UpdateRuns`, `Stages` | over any sequence of messages, when a failure is reported once, and when as a plain failure (`UpdateRuns.Run`, `UpdateRuns.OnceIff`, `UpdateRuns.PlainIff`), and when a confirm-update resets the rollback type (`UpdateRuns.TypeIff`); when failing rollbacks end, wherever they start (`Rollback.EndsIff`, `UpdateRuns.EchoFails`); safety of prepare, ready and confirm over all interleavings, with the exact condition for the null pointer (`Stages.Run`) |
| codecs and deltas | `Base64`, `Templates`, `Delta` | round trips in both directions, the two-pass expander fills its buffer exactly, a successful reconstruction is the target (`Base64.EncodesIffWellFormed`, `Templates.ExpandToolArgs`, `Delta.YieldsTarget`) |

Code that changes things in place is a class or a loop here as well: pointers of the hash table are numbers with maps for
their fields, list nodes and tree nodes are objects, files and the message queue are fields that methods reassign. What
the world decides (the network, the client, callbacks of the update agent, decryption and verification, the hash and the
patch tools, the clock, the moment the power goes) is a parameter of the methods and arbitrary in the theorems.

## What the code does that its users may not expect

Each of these is stated and proved on the model.

- A message that finds the worker busy is discarded, but its sequence number has been used up: the same message is
  outdated when it comes again (`Pipeline.LostWhenBusy`, src/handler.c:822-830 and 911-936).
- A server that goes back to a smaller offset opens a window between truncating the data file and saving the record; a
  power loss costs everything if and only if it comes there or inside a save of the record
  (`Download.Context.Transfer`), and a run gets there (`Download.WindowReached`). A server that goes back to the very
  beginning fails the session, because the CRC of an empty file is an error (`Download.Context.ChangeOffset`).
- A transfer that ends well counts as the whole download, however few bytes have come: a proper part of the content is
  decrypted, verified and reported as completed (`DownloadSteps.EarlyEnds`, src/ua_download.c:535-545). A completed report
  covers the whole content if and only if all of it has come (`DownloadSteps.WholeIff`), as it has with a server that ends
  no transfer early (`DownloadSteps.WholeEarned`).
- A record below 4 GiB that the data file covers is resumed if and only if it is below 2 GiB: from there on its length
  turns negative where the CRC helper takes an `int` (`Journal.LargeNeverResumes`). The other theorems about downloads
  are for contents below 2 GiB.
- A record that a restart writes behind another one is never read: the record file is open for appending then, and only
  its first record is read. Recovery is nevertheless consistent (`Download.Context.Init`).
- Failing rollbacks go on for ever if and only if a version from the next one on occurs earlier in the list
  (`Rollback.EndsIff`, `UpdateRuns.EchoFails`); a prepared delta package ends a rollback at once, even when versions are
  left (`UpdateRun.Attempt`, in the contract of `UpdateRun.Component.StartRollbackOperations`).
- The retry count counts successful ready-updates too, so a success uses up a retry of a later failure
  (`UpdateRuns.SuccessUsesUpRetry`); the exact condition for a plain failure is `UpdateRuns.PlainIff`.
- Without rollback versions a failed installation is reported not at all, once or twice (`UpdateRuns.OnceIff` says when
  it is once, `UpdateRuns.TwiceAndNever` has a run for each of the others).
- A confirm-update resets the rollback type only when it finds the name of a package under update, which an ordinary one
  does not: either it came during a ready-update, or a message that was not carried out has left its name behind
  (`UpdateRuns.TypeIff`, `UpdateRuns.NamedIff`, `UpdateRuns.ResetOutOfTurn`, src/handler.c:1401, src/updater.c:759).
- After a preparation without a campaign that ended well, and before any campaign has been stored, a prepare-update with
  a campaign compares a null pointer (`Stages.NullPointerReached`), and so does one without when a campaign is under
  way, which a ready-update that could not be parsed has left behind (`Stages.NullPointerLeftBehind`,
  src/updater.c:651, src/handler.c:1316-1323). Among the messages for one package nothing else does (`Stages.Run`).
- The package digest separates neither a name from its content nor tells which of them a byte belongs to
  (`PackageDigest.BorderUnseen`); the CRC misses some changes of five consecutive bytes (`Crc32.FiveBytesUndetected`).
- A delta package in which two entries come from the same old file can never be reconstructed when the later one needs
  that file (`Delta.SharedSourceFails`).
- To unregister a runner dereferences a null pointer exactly when the path has no node (`RoutingTree.Node.Query`), that
  is when it has a segment and nobody is registered there or below (`RoutingRuns.FaultsIff`); the agent only unregisters runners it has just
  gathered there.

## Model

| member | source | states |
|---|---|---|
| BitMask.MaskIsMod | src/uthash.h:344-347 | masking with `n - 1` is the remainder by `n`, for every power of two |
| BitMask.ShiftIsDiv | src/uthash.h:827-829 | shifting right by `k` divides by `2^k` |
| Links.PushBackDll | src/uthash.h:228-234 | appending relinks a doubly linked list into the list with the element at its end |
| Links.PushFrontDll | src/uthash.h:761-767 | prepending relinks it into the list with the element at its front and touches no other element |
| Links.UnlinkDll | src/uthash.h:775-785 | joining the neighbours of an element leaves the list without it |
| HashBuckets.AddToBucket | src/uthash.h:761-767 | after an element has joined its bucket every element is in exactly the chain its hash selects, with right heads and counts |
| HashBuckets.RemoveFromBucket | src/uthash.h:775-785 | the same after an element has left its chain |
| HashBuckets.CountsSum | src/uthash.h:424-452 | the bucket counts sum to the number of items |
| HashBuckets.RebuiltStep | src/uthash.h:836-847 | moving one element into the doubled array keeps chains, counts, nonideal items and expand multipliers right |
| UtHash.ToBkt | src/uthash.h:344-347 | the masked bucket index is the hash value modulo the number of buckets |
| UtHash.IdealChain | src/uthash.h:827-829 | the shift-and-mask ideal chain length is the number of items divided by twice the number of buckets, rounded up, and positive |
| UtHash.HashTable.Find | src/uthash.h:739-758 | returns an element with the key, and NULL exactly when no element has it |
| UtHash.HashTable.MoveChain | src/uthash.h:833-849 | all elements of an old chain and no others move, whatever relinking does to it on the way |
| UtHash.HashTable.ExpandBuckets | src/uthash.h:816-862 | doubling keeps the table valid, so it neither loses nor duplicates an element, leaves the insertion order alone, and sets the statistics |
| UtHash.HashTable.AddToBkt | src/uthash.h:761-772 | the new element is in its chain, also when the table expands; exactly when the table expands |
| UtHash.HashTable.MakeTable | src/uthash.h:175-192 | the first table is empty, of 32 buckets |
| UtHash.HashTable.AppendList | src/uthash.h:228-234 | the insertion-order list grows at its end and the tail is the new element |
| UtHash.HashTable.AddKeyptr | src/uthash.h:308-336 | a fresh key: the order grows by the element, keys are unchanged otherwise, and the table stays valid |
| UtHash.HashTable.Delete | src/uthash.h:361-394 | the order loses exactly the element; tail, both lists and counts stay right; the last element takes the table with it |
| UtHash.HashTable.Elements | src/uthash.h:1022-1024 | walking the list yields the elements in insertion order |
| UtHash.HashTable.CountsMatch | src/uthash.h:424-474 | what HASH_FSCK compares: the counts of all buckets add up to num_items and to the length of the order list |
| UtHashRuns.Run | src/uthash.h:308-394 | any legal run of look-ups, additions and deletions answers as a finite map with insertion order does, for any hash function |
| UtHashRuns.Do | src/component.c:65-76 | one operation refines one step of that map |
| MergeSort.MergeSorts | src/utlist.h:137-157 | a stable merge of two stably sorted runs is stably sorted |
| MergeSort.PassDoubles | src/utlist.h:123-166 | one pass turns sorted blocks of n into sorted blocks of 2n |
| MergeSort.StableSortUnique | src/utlist.h:111-169 | there is only one stable sorting of a list without repetitions |
| UtList.LlSort | src/utlist.h:111-169 | the list is a permutation of its nodes, sorted, stable, and ends in NULL |
| UtList.SortPass | src/utlist.h:123-162 | one pass over the linked list computes the pass on its node sequence and counts its merges |
| UtList.LlAppend | src/utlist.h:338-352 | the node becomes the last of the list |
| UtList.LlDelete | src/utlist.h:385-402 | exactly this node leaves the list |
| PackageDigest.HashEntry | src/misc.c:692-712 | an entry is hashed over its name and its content, read in blocks of any size |
| PackageDigest.AddEntry | src/misc.c:670-727 | a failure to stat, open or read an entry that counts is an error, the first two leave the loop; otherwise its digest joins the list |
| PackageDigest.CalcSha256X | src/misc.c:651-757 | an error exactly if an entry that counts cannot be read; otherwise the hash over the sorted digests of the entries that count |
| PackageDigest.MemcmpOrders | src/misc.c:42-45 | the comparison of digests is a total order |
| PackageDigest.MemcmpFirst | src/misc.c:42-45 | the first byte that differs decides |
| PackageDigest.OrderIndependent | src/misc.c:651-757 | archives with the same entries in any order have the same digest |
| PackageDigest.SameFilesSameDigest | src/misc.c:682-687 | manifests and signatures, added or removed, do not change the digest |
| PackageDigest.LeftOut | src/misc.c:681-687 | directories and entries called manifest.xml or manifest_diff.xml or beginning with xl4-x- or xl4-signature do not count, readable or not |
| PackageDigest.DigestsAgree | src/misc.c:651-757 | such an entry changes neither the digest nor whether there is one, wherever it stands |
| PackageDigest.FileSeen | src/misc.c:689-712 | any other file contributes its name followed by its content |
| PackageDigest.Unreadable | src/misc.c:678-705 | an entry with any other name must be readable, and a failing stat always is an error |
| PackageDigest.DigestDetermines | src/misc.c:732-756 | without hash collisions two digests are equal exactly if the multisets of name and content are |
| PackageDigest.BorderUnseen | src/misc.c:693-707 | a byte may move from the name to the content unseen |
| Crc32.EntryIsEight | src/Crc32.c:23-57 | all 256 table entries are eight steps of the bitwise reflected CRC |
| Crc32.TableStep | src/Crc32.c:64 | one table step equals eight bitwise steps on the byte xored in |
| Crc32.CrcConcat | src/Crc32.c:59-68 | the CRC of a concatenation is that of its second part seeded with that of the first |
| Crc32.BufCrc32 | src/Crc32.c:59-68 | the table loop computes the bitwise CRC for every buffer and seed |
| Crc32.OneTimeCrc32 | src/Crc32.c:70-80 | the same, complemented |
| Crc32.OneTimeIsRfc1952 | src/Crc32.c:70-80 | seeded with CRC32_INIT_VALUE it is the CRC-32 of section 8 of RFC 1952 |
| Crc32.FeedByteInjective | src/Crc32.c:64 | a byte step loses no state |
| Crc32.BurstDetected | src/Crc32.c:59-68 | two equal-length buffers that differ only within four consecutive bytes have different CRCs from the same seed |
| Crc32.FiveBytesUndetected | src/Crc32.c:59-68 | for five bytes this fails |
| Journal.RestartConsistent | src/ua_download.c:186-263 | from every sound disk a restart has a data file of the recorded length and CRC, a prefix of the content, and counts a download as finished only when it has what the server delivers before it ends a transfer well |
| Journal.ResumesExactly | src/ua_download.c:228-247 | for a record of any size: it is resumed exactly if its earlier position, as an int, is positive and within the file and has the recorded CRC |
| Journal.RestartExact | src/ua_download.c:186-263 | below 2 GiB a restart comes back to the record's earlier position exactly if the data file reaches it, and to nothing otherwise |
| Journal.RestartStep | src/ua_download.c:249-251 | a finished download stays finished over a restart, whatever came after that is done again, and an unfinished one stays unfinished |
| Journal.LargeNeverResumes | src/ua_download.c:238-247 | a record below 4 GiB that the file covers is resumed if and only if it is below 2 GiB |
| Journal.CutJournaled | src/ua_download.c:388-397 | after the cut to a smaller offset the old record is beyond the file; once the new record is saved the session's invariant holds again |
| Journal.AdvancedJournaled | src/ua_download.c:424-442 | after a chunk the record's CRC is that of the longer prefix, and a restart comes back to the previous boundary |
| Journal.AcceptKeeps | src/ua_download.c:248-260 | what recovery writes when it resumes is recovered as the same record again |
| Storage.Files.SaveRecord | src/ua_download.c:485-502 | the record file holds this record; which power loss leaves it as it was and which leaves it empty |
| Storage.Files.AppendRecord | src/ua_download.c:206-213 | in append mode the first record stays in front |
| Storage.Files.AppendData | src/ua_download.c:805-826 | the data file grows by what the file system took; a power loss leaves a part of it |
| Download.CalcFileCrc32 | src/ua_download.c:93-125 | the CRC by blocks of 1024 bytes is the CRC of the whole prefix; an error for an empty or too short file |
| Download.Context.DropLast | src/ua_download.c:228-236 | going back to the previous boundary does not change what a restart would recover |
| Download.Context.Init | src/ua_download.c:186-275 | recovery yields the recovered record and the kept bytes, is consistent, and a power loss during it changes nothing for the next restart; from the old files alone: position, CRC and step of the first record, where a finished or later step becomes "downloaded"; how many file operations it takes |
| Download.Context.SaveData | src/ua_download.c:805-826 | a torn or short append keeps the session's invariant, so a restart resumes at the previous boundary or later |
| Download.Context.ReceiveData | src/ua_download.c:417-481 | which deliveries are saved and which let the session go on, and the new record |
| Download.Context.ChangeOffset | src/ua_download.c:383-415 | the file is cut to the new offset and the record recomputed; offset 0 fails; the exact disk that a power loss leaves at each point |
| Download.Context.RecvCb | src/ua_download.c:364-483 | one callback in either case, keeping the session invariant, and what a power loss during it costs |
| Download.Context.Transfer | src/ua_download.c:514-533 | how many chunks of a session are saved and how many file operations that takes; how long the power lasts tells the callback its loss comes in, and a restart then resumes after the chunk two before it or later, with a changed offset as well, unless the loss comes inside a save of the record or right after the cut, and exactly then everything is lost |
| Download.Context.StepDownload | src/ua_download.c:504-562 | success exactly if all deliveries go on and the server ends well, whatever has come; then the data file is what has come; a failed session after k chunks keeps exactly the first k - 1; the same bounds for a power loss, and the last chunk at most for one in the save at its end |
| Download.WindowReached | src/ua_download.c:388-397 | a run in which a power loss right after the cut makes the next restart begin from nothing |
| Download.RecordedAt | src/ua_download.c:417-481 | the count of saved chunks: up to the first delivery that does not go on |
| DownloadSteps.StepEncrypt | src/ua_download.c:589-638 | decryption works on a copy of the downloaded file; when the step succeeds |
| DownloadSteps.StepVerify | src/ua_download.c:649-700 | the first CA file that verifies decides; the data file is removed in either case |
| DownloadSteps.VerificationsAre | src/ua_download.c:660-685 | one verification for each CA file up to the first good one, and only that one is good |
| DownloadSteps.StepAction | src/ua_download.c:717-774 | from any step on, exactly which decryption, verifications and completed reports follow and when they end well; a completed report comes only after decryption and then verification |
| DownloadSteps.StartDownload | src/ua_download.c:776-803 | the same for a whole call, whatever step the stored record held; with power enough a transfer that ends well is taken through all steps, whatever part of the content it has brought |
| DownloadSteps.FinishedStays | src/ua_download.c:249-251 | over two calls: after a session that ended well and a power loss before decryption, the next call begins with decrypting what had come, whatever the server would deliver |
| DownloadSteps.Lives | src/ua_download.c:127-275 | over any number of lives, with any server and a power loss at any file operation, the disk stays sound, the next restart is consistent, completed reports are earned, and what each life leaves to the next is bounded by how long its power lasted |
| DownloadSteps.WholeIff | src/ua_download.c:702-715 | a completed report is sent exactly if all steps pass, and covers the whole content exactly if all of it has come, in the session or before the restart |
| DownloadSteps.WholeEarned | src/ua_download.c:535-545 | if the server ends no transfer early, a completed report means that the whole content was decrypted and then verified |
| DownloadSteps.EarlyEnds | src/ua_download.c:535-545 | a run in which a proper part of the content is reported as completed |
| DownloadSteps.EarnedAdd | src/handler.c:2824-2825 | one more event keeps the order of decryption, verification and completed reports |
| Routes.InsertedKeeps | src/handler.c:645-651 | registering keeps the array sorted and adds exactly the runner |
| Routes.ErasedKeeps | src/handler.c:635-643 | unregistering keeps it sorted and removes exactly the runner |
| Routes.RegisteredAt | src/handler.c:624-687 | registering changes the array at its path and no other |
| Routes.UnregisteredAt | src/handler.c:624-687 | unregistering changes the array at its path and no other, in spite of pruning |
| Routes.RegisteredKeeps | src/handler.c:645-671 | no empty leaf and sorted arrays after registering |
| Routes.UnregisteredKeeps | src/handler.c:679-686 | no empty leaf and sorted arrays after unregistering |
| Routes.GatheredIs | src/handler.c:630-632 | without tip the arrays at every segment prefix, root to leaf; with tip that of the exact path |
| Routes.Determined | src/handler.c:624-687 | two pruned trees with the same registrations are equal |
| Routes.RestoresTree | src/handler.c:624-687 | registering a new runner and unregistering it restores the tree |
| RoutingTree.Node.Query | src/handler.c:624-687 | the recursive update in place computes registering, unregistering and gathering on the tree; it dereferences a null pointer exactly when it is to unregister at a path without a node |
| RoutingTree.Node.QueryChild | src/handler.c:675-686 | the recursion into a child and its removal when it has become empty |
| RoutingRuns.RunGathers | src/handler.c:624-687 | after any matching changes a path gathers exactly the runners registered at a prefix of it |
| RoutingRuns.FaultsIff | src/handler.c:658-686 | after any matching changes, unregistering faults exactly if the path has a segment and nobody is registered at it or below it |
| RoutingRuns.RunsAgree | src/handler.c:624-687 | runs with the same registrations in the end leave the same tree |
| RoutingRuns.Apply | src/handler.c:194-300 | a run of calls on the tree in place is that run |
| RoutingRuns.SegmentsSplit | src/handler.c:628-673 | a slash separates the segments before it from those after it |
| RoutingRuns.SlashesDoNotMatter | src/handler.c:628-673 | repeated, leading and trailing slashes do not change the segments |
| RoutingRuns.NameIsSegment | src/handler.c:656-660 | a name without a slash is one segment, all of it |
| RoutingRuns.SegmentsOfJoined | src/handler.c:628-673 | cutting names joined by slashes gives the names back |
| RoutingRuns.GatherAfter | src/handler.c:624-687 | with paths as strings, on the tree in place: exactly the runners registered under the first names of the path, in full, or with tip under all of them |
| DlQueue.Queue.Append | src/utlist.h:639-651 | the queue grows at its end; the head's prev is the tail |
| DlQueue.Queue.Delete | src/utlist.h:706-723 | exactly the element leaves the queue, in all three cases |
| Pipeline.Component.HandleMessage | src/handler.c:596-605 | the message joins the end of the queue with its time of arrival |
| Pipeline.Component.RunnerStep | src/handler.c:699-724 | the first message leaves the queue; ten seconds old it only expires, otherwise it is processed, with the exact events, sequence numbers and worker flag |
| Pipeline.Component.ChkIncomingSeqOutdated | src/handler.c:776-800 | outdated exactly if the package has accepted this number or a later one; otherwise it is the last accepted one |
| Pipeline.Component.ProcessMessage | src/handler.c:813-895 | the exact events for a message that does not parse, has no number, is outdated, or is accepted, and then by its kind |
| Pipeline.Component.ProcessRun | src/handler.c:911-936 | run at once, started, discarded, or not started because there is no thread, and the worker flag in each case |
| Pipeline.Component.WorkerEnds | src/handler.c:898-909 | the job that ends is the live one |
| Pipeline.Run | src/handler.c:690-727 | over every interleaving: arrival order, at most once, in time, nothing that is handled is lost, one live job, increasing sequence numbers; what has arrived and been taken follows from the steps |
| Pipeline.HandledFollows | src/handler.c:716-717 | a handled message is found outdated by an earlier number of its package, or accepted and then run, started, discarded for a busy worker, or left without a thread |
| Pipeline.LostWhenBusy | src/handler.c:823-829 | a message discarded by a busy worker is outdated when it comes again |
| Pipeline.OrderlyAdd | src/handler.c:776-800 | one more event keeps all of that |
| Rollback.GetPkgNextRollbackVersion | src/utils.c:281-305 | the version after the first occurrence, the first one for an unknown version, none after the last |
| Rollback.NextOfDistinct | src/utils.c:281-305 | over distinct versions position i leads to position i + 1, and the last one to none |
| Rollback.NextOfUnknown | src/utils.c:289-300 | a version that is not in the list is followed by the first one |
| Rollback.NextOfFirst | src/utils.c:289-300 | a version is followed by the one after its first occurrence |
| Rollback.EndsIff | src/utils.c:281-305 | from any version, failing rollbacks end exactly if no version from the next one on occurs earlier in the list |
| Rollback.EndsIffDistinct | src/utils.c:281-305 | from the first version on they end exactly if the versions are distinct |
| UpdateRun.Component.UpdateAction | src/handler.c:1862-1918 | a failed installation reports itself only without rollback versions |
| UpdateRun.Component.StartInstallOperations | src/updater.c:249-280 | completed exactly if the version is there already or the installation goes through; its failure reports |
| UpdateRun.Component.SendRollbackIntent | src/updater.c:342-376 | the intent has the form of the rollback type |
| UpdateRun.Component.StartRollbackOperations | src/updater.c:378-491 | how an attempt ends, in terms of Attempt, and all its failure reports |
| UpdateRun.Component.ProcessReadyUpdate | src/handler.c:1243-1324 | all statuses of a ready-update in order, and the failures among them, in every branch, for installations and rollbacks, with and without rollback versions |
| UpdateRun.SendsFailures | src/handler.c:1243-1324 | the failures among all statuses are the failure reports that the runs are about |
| UpdateRun.CompletedLast | src/handler.c:1862-1918 | the status "completed" is sent exactly if the update or the rollback is done, once and last |
| UpdateRun.Component.ResumeFromReboot | src/updater.c:493-538 | exactly one report after a reboot, and which |
| UpdateRun.Component.FailToParse | src/handler.c:1316-1323 | a ready-update that cannot be parsed reports one failure, terminal once a version to roll back to has been read, and leaves what has been read of it |
| UpdateRuns.Run | src/handler.c:1231-1289 | over any sequence of messages and resets the statuses sent and the failures among them are those of the messages in turn, each by the count of tries, the type and what is left in update_pkg at that moment |
| UpdateRuns.CountIsTries | src/handler.c:1264-1266 | the retry count is the number of ready-updates other than rollbacks since the last reset, successes included |
| UpdateRuns.PlainIff | src/handler.c:1268-1288 | a failed installation that may be rolled back is reported once, and as a plain failure exactly if so many tries are at most max_retry or the rollback type hides the intent |
| UpdateRuns.ReportIs | src/updater.c:354-363 | that report in full, for each rollback type |
| UpdateRuns.RolledBackIff | src/updater.c:354-363 | a failed installation is reported as a rollback exactly if its tries are used up, there is a next version and the agent initiates rollbacks |
| UpdateRuns.OnceIff | src/handler.c:1268-1288 | a failed installation is reported exactly once if and only if there are rollback versions, or it was reached just when the tries are used up |
| UpdateRuns.SuccessUsesUpRetry | src/handler.c:1264-1272 | a success before the first failure makes that failure an intent, with its status in full |
| UpdateRuns.TwiceAndNever | src/handler.c:1268-1288 | a failure that is reported twice and one that is not reported |
| UpdateRuns.NamedIff | src/updater.c:644-763 | update_pkg has a name exactly if the last message to touch it was a ready-update that could not be parsed or a prepare-update that returned early |
| UpdateRuns.TypeIff | src/handler.c:1400-1402 | there is a rollback type exactly if it was set and no confirm-update has since found the temporary manifest and, during a ready-update or left behind, a name |
| UpdateRuns.ResetOutOfTurn | src/handler.c:1400-1402 | the same confirm-update leaves the type after an update and resets it after one that could not be parsed |
| UpdateRuns.EchoFails | src/updater.c:378-491 | when every rollback fails, the next one is asked for as long as the list gives a version, for ever exactly if one ahead occurs earlier; all reports of it |
| UpdateRuns.EchoRun | src/updater.c:378-491 | a client that echoes intents causes at most one attempt for each version left, and the run ends completed or reported as failed |
| UpdateRuns.EchoStep | src/updater.c:378-491 | one attempt at position p ends with an intent for p + 1, completed, or failed for good |
| Stages.Package.BeginPrepare | src/handler.c:1139-1170 | a version is answered as ready at once exactly if it is stored for this campaign and the stage is prepared; otherwise it is being prepared |
| Stages.Package.EndPrepare | src/handler.c:1230-1236 | success stores version and campaign and resets the retry count; failure restores the stage |
| Stages.Package.BeginUpdate | src/handler.c:1255-1257 | a ready-update forgets the stored version |
| Stages.Package.EndUpdate | src/handler.c:1302-1314 | a confirm-update that came in the meantime is carried out, once |
| Stages.Package.Confirm | src/handler.c:1368-1467 | a confirm-update cleans up exactly when no job is under way and an update has ended, or nothing has happened, since the last clean-up, preparation or update; when it is remembered and when dropped |
| Stages.Run | src/handler.c:1123-1467 | over every interleaving: answers without preparation are backed by one in the same campaign and round, between two clean-ups an update has ended, and the exact condition on the messages for the null pointer |
| Stages.CleanupsEarned | src/handler.c:1368-1380 | so there is at most one clean-up for each finished update, and one before the first |
| Stages.NullPointerReached | src/component.c:130-138 | the comparison with a campaign that was never stored is reachable |
| Stages.NullPointerLeftBehind | src/updater.c:647-654 | so is the one with a campaign that a ready-update that could not be parsed has left behind |
| Base64.TableIsRfc | src/base64.c:16 | the alphabet string is table 1 of RFC 4648 |
| Base64.NumStrchr | src/base64.c:52-60 | the first index of the character, or -1 |
| Base64.EncodeIsRfc | src/base64.c:78-94 | the shifts and masks compute the digits to base 64 of the number of 24 bits that three bytes are, padded as section 4 of RFC 4648 says |
| Base64.EncodeV | src/base64.c:62-101 | the loop computes that encoding of the bytes before the first NUL |
| Base64.Base64Decode | src/base64.c:103-133 | the loop decodes every text of whole groups |
| Base64.UnknownIsSlash | src/base64.c:103-133 | a character outside the alphabet other than the padding is decoded as the last one of the alphabet |
| Base64.EncodedLength | src/base64.c:62-101 | the encoding has length 4 * ceil(n / 3) |
| Base64.DecodedFits | src/base64.c:103-138 | decoding yields at most base64_decode_size bytes |
| Base64.RoundTrip | src/base64.c:62-133 | decoding undoes encoding, for every byte string |
| Base64.SourceRoundTrip | src/base64.c:62-133 | through the source's functions exactly the NUL-free strings come back |
| Base64.EncodesIffWellFormed | src/base64.c:62-133 | a text is the encoding of what it decodes to exactly if it is in the alphabet, padded only at its end and has no unused bits set |
| Templates.SubstrCnt | src/misc.h:32-40 | counts the markers, whatever the case of their letters |
| Templates.SizeIsExact | src/delta.c:597-600 | the counting pass gives exactly the length of the expansion |
| Templates.ExpandToolArgs | src/delta.c:592-615 | the buffer is exactly filled with the expansion and its terminator |
| Templates.ExpandSubstitutes | src/delta.c:602-611 | the expansion is the simultaneous substitution: every spelling of the marker of a given name, nothing else, no rescanning |
| Templates.MarkersFound | src/delta.h:89-91 | the markers are {o}, {n} and {p} in either case of their letter, and nothing else |
| Templates.ReadingExists | src/delta.c:602-611 | every template can be read as markers and letters in that way |
| Delta.Reconstruct | src/delta.c:264-375 | success exactly if every entry can be made from files no earlier entry has removed and the manifest is left; then the package is what the entries make |
| Delta.YieldsTarget | src/delta.c:264-375 | a reconstruction that succeeds is the target the entries describe, whatever the patch tools did |
| Delta.ReconstructsMade | src/delta.c:264-375 | a package of differences made by the inverse of the patch is always reconstructed, if no two entries use the same file up |
| Delta.OldVerified | src/delta.c:334-341 | an old file is used only with the recorded hash, also where it is patched |
| Delta.SharedSourceFails | src/delta.c:344-347 | entries that share an old file cannot both be made when the later one needs it |

## Left out

- HASH_SRT and DL_SORT: the agent never calls them; the sort it calls is LL_SORT.
- HASH_BLOOM, the NO_DECLTYPE variants, HASH_SELECT, the hash functions and the wrap-around of num_buckets at 2^32: the hash is an arbitrary function.
- utarray's capacity: arrays of runners are sequences; finding and sorting them, by the C library, is taken as finding and inserting in order.
- UpdateRun.Component.ProcessReadyUpdate: does not model callbacks that answer other than completed or failed (ready or failed for prepare).
- UpdateRun.Component.FailToParse: what the JSON library makes of a report without a type, name or version, and how long the memory of a name lasts that a message has left behind, is not modelled.
- Stages.Run: is about one package of one component; the campaign under way is in fact shared by all components, and a resumption after a reboot restores a stage. The files that preparing, confirming and backing up touch are not modelled.
- UpdateRuns.Run: is about one package of a component; the retry count and update_pkg are in fact shared by all packages of a component, and the rollback type belongs to the package. It does not model a reboot in the middle of an installation; what is reported after one is `UpdateRun.Component.ResumeFromReboot`.
- Pipeline.Run: does not model the resumption after a reboot, which sets the worker flag from another thread, nor a runner that is being stopped.
- Storage.Files.SaveRecord: does not model a save that fails while the power lasts, which the receive callback ignores; a record is written whole or not at all; the cut of the file before it is a step of its own.
- Delta.MakeEntry and UpdateRun.Component.SendInstallStatus are steps of `Delta.Reconstruct` and `UpdateRun.Component.ProcessReadyUpdate` and have no row of their own.
- The e_tag of a record, progress percentages, diagnostics, trust information and the decrypted copy of the package beyond the order of events.
- DownloadSteps.StepVerify: takes any number of CA files; the agent is built with one.
- Failures of libzip to open or close an archive, and of the base64 conversion of a digest.
- Delta.Reconstruct: does not model nested squashfs images, directories, or failures to create or zip them.
- join_path, JSON and XML parsing, the bus client, logging and memory allocation.
