# refmon, modelled and proved

This project models the parts of the `refmon` Linux kernel module that carry its guarantees and proves them with Dafny 4.11:

* **the log file** (`io/refmonfs`): appends that never split a record over two 4096-byte blocks, reads of at most one block, whole runs of both, their interleavings under `refmonfs_mutex`, and the records that denied accesses leave there;
* **the system call table** (`lib/scth`, `syscalls/syscalls.c`): finding the free entries, installing the four handlers, restoring the table, and the way from a user command through the printed codes to its handler;
* **the monitor** (`syscalls`, `model`, `misc/fsutils.c`, `probing`): states, guards, the registry as the kernel's circular list, the probes and the handlers that deny accesses;
* **bounded loops** (`io/procio.c`, `misc/misc.c`, `test/api/testapi.c`): the registry listing, digests as text, hashing a file in chunks, counting occurrences.

Run `dafny verify dfyconfig.toml` to check it.

## How it is built

| file | content |
|---|---|
| `LogFile.dfy` | placement arithmetic, the class `LogDevice` with mkfs, append and read over a byte array |
| `LogRuns.dfy` | runs of appends: text and extents; reads between appends |
| `LogSpace.dfy` | what each block holds, when an append fails, how many records are sure to fit |
| `LogConcurrency.dfy`, `LogConcurrentText.dfy` | one statement per step under the mutex, linearizability, progress, the resulting text |
| `LogRecords.dfy`, `LogReader.dfy` | the deferred log record, what the log says, and a reader that takes records apart |
| `SyscallSearch.dfy`, `SyscallTable.dfy`, `Dispatch.dfy` | `get_entries`, install and restore, codes from kernel to user tool |
| `Wrappers.dfy`, `Sequences.dfy`, `Errno.dfy` | optional values, facts about sequences, error numbers |
| `Decimal.dfy`, `CStrings.dfy`, `ProcFile.dfy` | `%d`, `%lu` and `fscanf`; `snprintf` and `strlen`; the one-shot read of a proc file |
| `Paths.dfy`, `Registry.dfy` | subpath order, path resolution, registry search, eligibility |
| `KernelList.dfy` | the circular doubly linked list |
| `Monitor.dfy`, `MonitorResults.dfy`, `MonitorRuns.dfy`, `Hooks.dfy` | the monitor, what its operations answer, its runs, the probe handlers |
| `RegistryRace.dfy` | a handler's walk against a deletion, link by link |
| `RegistryListing.dfy`, `ListingReader.dfy`, `Digests.dfy`, `Occurrences.dfy` | the bounded loops, and a reader of the listing |

Code that changes state in the source is a class or a method with loops here, proved against a function of the old state; the theorems are about that function and about runs of it. A C `char` is a Dafny `char`; a C string is a `string` without its terminator, so `strncmp` over the length of the first argument is the prefix test, and `MATCH_STRING` is equality. Only `hexconv` depends on the width of a byte, and there it is explicit. What the kernel answers about the file system (`kern_path`, `d_path`, inode numbers, `is_dir`) is a parameter of each call, fixed for the duration of that call; the digest function is a parameter of the monitor.

## What turned out not to hold as one might expect

* A path that is added as an absolute link, or through a linked directory, protects its own path and the inode number it has at that time, not the file it leads to, since the absolute path is kept. `Hooks.AbsoluteLinkUnprotected` is a run that shows it; in `Hooks.ReplacedFileUnprotected` the file is protected until it is replaced by a new one of the same name. `Hooks.NamedFileDenied` and `Hooks.BelowDenied` say for every run exactly when the file that an added path led to, or what lies below it, is protected, whatever its inode number is by then.
* A path that ends in a slash, in particular the root directory, does not cover what lies below it. `Hooks.RootUnprotected` is a run that shows it; `Paths.ChildCovered` gives the exact condition for a directory, `Paths.BaseCoversChildren` for any base, and `Hooks.WholeDirectoryCovered` for an entry.
* Opening with `O_CREAT`, `O_TRUNC` or `O_APPEND` alone is not a write access for the handler, although its comparisons name these flags: `Hooks.WriteAccessIsMode`.
* A log record is one line exactly when its visible path has no newline before its end and the line was not cut at 515 characters, or was cut just after a newline of the path: `LogRecords.LineExact`, with `LogRecords.CutRecordExample` and `LogRecords.NewlinePathExample` as inputs that fail.
* A program path with a newline can make one record read like two (`LogRecords.OneRecordLikeTwo`). Records can be told apart exactly without such newlines (`LogRecords.RecordExact`), and then the log determines the records it stores, even where they were cut (`LogRecords.LogDeterminesRecords`).
* A reader gets dataset and hash back from an uncut record exactly when the program path has no tab (`LogReader.ReadBackExact`); the four ids can be read from every record (`LogReader.FieldsBack`).
* The registry listing can be taken apart again exactly when no path has a newline and no arrow begins in the first path of an entry (`ListingReader.ListingReadBack`); otherwise two different entries can have the same line (`ListingReader.TwoEntriesOneLine`).
* Deleting a link is denied when the file it leads to is covered, although that file would stay (`Hooks.LinkDeletionDenied`), while mkdir and rmdir with an absolute path are decided by that path even when it leads elsewhere (`Hooks.DirectoryAccessExact`).
* A handler that walks the registry while an entry is deleted reads a poisoned link exactly when it stands on that entry at the third write of `list_del` and goes past it: `RegistryRace.FaultExact`, with the schedule of `RegistryRace.FaultExample`.

The current directory of a caller is taken to have an absolute path, as `d_path` gives it (`MonitorRuns.AbsoluteRun`). `MonitorRuns.SecondAddRefused`, `MonitorRuns.RemoveUndoesAdd` and `MonitorRuns.DuplicateWithRelativeCwd` show what rests on that.

## Model

| member | source | states |
|---|---|---|
| LogFile.Placement | io/refmonfs/file.c:103-120 | an append goes to the first offset where it stays in one block with a byte to spare (a full block to the next block boundary), and grows the file by n to 2n bytes |
| LogFile.AppendedContent | io/refmonfs/file.c:94-134 | an append adds NULs up to its start and then the record, or nothing without room; blocks 0 and 1 and the NULs past the end stay |
| LogFile.LogDevice.Mkfs | io/refmonfs/singlefilemakefs.c:41-92 | on a zeroed device: the two metadata blocks and the header line as content |
| LogFile.LogDevice.Append | io/refmonfs/file.c:79-141 | device and size change exactly as the placement says; -EIO exactly when the target block is not on the device, and then nothing changes |
| LogFile.LogDevice.Read | io/refmonfs/file.c:21-72 | a read never fails on a valid device and gives as much as it can: a byte is delivered exactly when it, shifted by the copy fault, is asked for and lies in the file and in the block; without a fault it stops only at the length asked for, the end of the file or the end of a block |
| LogFile.LogDevice.ReadToEof | io/refmonfs/file.c:43-71 | reading with any positive buffer sizes ends and gives the whole file; with buffers of at least a block it takes one call per block and one more |
| LogRuns.RunText | io/refmonfs/file.c:94-134 | over any run of appends the text without NULs is the old text and then exactly the accepted records in order |
| LogRuns.RunKeepsMeta | io/refmonfs/file.c:103-133 | no run of appends touches the superblock and inode blocks |
| LogRuns.WriteThenRead | io/refmonfs/file.c:21-141 | round trip on the device: make the image, append any records, read in any chunks, drop NULs: the header and the accepted records |
| LogRuns.AppendLaysOut | io/refmonfs/file.c:100-134 | an append adds one extent inside one block after all others, keeps the bytes of the others, and leaves NUL everywhere else |
| LogRuns.RunLaysOut | io/refmonfs/file.c:100-134 | over every run the extents are increasing, disjoint, inside their blocks, keep their bytes and carry the accepted records |
| LogRuns.ImageLaidOut | io/refmonfs/singlefilemakefs.c:85-92 | an image whose content lies in one block, as the header does, is that one extent |
| LogSpace.ImageRunLaidOut | io/refmonfs/file.c:100-134 | from the image on, every run leaves its extents ordered, disjoint, inside one block each and with their text in place |
| LogSpace.RunDensity | io/refmonfs/file.c:103-120 | with records of at most 4096 - c bytes, each single block left behind holds at least c bytes of text in its extents, and the current one is full up to the end of the file |
| LogSpace.FailsOnlyWhenFull | io/refmonfs/file.c:108-128 | such an append finds no room only when header and accepted records amount to c bytes per data block |
| LogSpace.FailsOnlyAfterSevenPerBlock | io/refmonfs/file.c:108-128 | an append of at most 515 bytes finds no room only after seven accepted records per data block |
| LogSpace.FirstRecordsAlwaysFit | io/refmonfs/Makefile:39-41 | on the 100-block image the first 686 records of at most 515 bytes are all stored |
| LogSpace.Record687Fails | io/refmonfs/Makefile:39-41 | that is exact: after 686 records of 515 bytes the next one finds no room |
| LogRuns.ReadsAreContiguous | io/refmonfs/file.c:43-71 | a reader that passes its offset on gets a slice of the final content, for any lengths and copy faults and with appends between its reads |
| LogConcurrency.WriterAdvances | io/refmonfs/file.c:94-140 | each statement of a writer moves it one step closer to the effect of the whole call run alone |
| LogConcurrency.ReaderAdvances | io/refmonfs/file.c:36-71 | the same for a reader |
| LogConcurrency.EveryRunIsLinearized | io/refmonfs/file.c:36-71 | for any calls and schedule: disk and results are those of the completed calls run serially in lock order, plus at most the lock holder's partial step |
| LogConcurrency.ReleaseKeeps | io/refmonfs/file.c:139-140 | leaving a call, with any result, frees the lock and keeps the invariant |
| LogConcurrency.NoDeadlock | io/refmonfs/file.c:94-140 | while a call has not returned, some call can move |
| LogConcurrency.RunsEnd | io/refmonfs/file.c:94-140 | a schedule of possible steps is no longer than the calls have statements |
| LogConcurrency.FinalStateIsSerial | io/refmonfs/file.c:94-140 | when nothing can move, every call has taken effect once, in lock order, with its serial result, and the lock is free |
| LogConcurrentText.ConcurrentText | io/refmonfs/file.c:94-140 | in any interleaving, whenever the lock is free, the log holds whole records in lock order |
| LogRecords.Defer | io/logio.c:21-49 | without a hash or an open log file nothing is written, otherwise the formatted line cut to 515 characters is appended |
| LogRecords.DigestTextLacks | misc/misc.c:14-21 | the hash field that hexconv makes has no NUL and no newline, which the next rows take from it |
| LogRecords.LineExact | io/logio.c:28-31 | a record is one line exactly when the visible path has no newline before its end and the line was not cut, or was cut just after a newline of the path |
| LogRecords.UncutLineExact | io/logio.c:28-31 | an uncut record is one line exactly when the path has no newline |
| LogRecords.RecordExact | io/logio.c:28-31 | a record is a line, or 515 characters without a newline, exactly when the visible path has no newline before its end |
| LogRecords.NewlinePathExample | io/logio.c:28-31 | a path with a newline gives a short record that is not one line |
| LogRecords.OneRecordLikeTwo | io/logio.c:28-47 | for any two short enough datasets a third one, with a newline in its path, has a record with the text of both records |
| LogRecords.CutRecordExample | io/logio.c:28-31 | a program path of 600 characters gives a record that is not a line |
| LogRecords.TextDeterminesRecords | io/logio.c:28-47 | among lists of records that are lines or 515 characters without a newline, the text determines the list |
| LogRecords.LogDeterminesRecords | io/logio.c:28-47 | if two runs of deferred records, with no newline in the visible paths before their ends, leave the same text in the log, they stored the same records |
| LogReader.FieldsBack | io/logio.c:28-31 | in every record, cut or not, a reader finds tgid, tid, uid and euid, and then path, tab, hash and newline as far as the buffer goes |
| LogReader.ReadBackExact | io/logio.c:28-31 | a reader gets dataset and hash back from an uncut record exactly when the path has no tab |
| LogReader.LogDeterminesDatasets | io/logio.c:28-47 | up to 686 denied accesses, uncut and without tab or newline in their paths, are determined by the text of the log |
| LogRecords.LogTellsAll | io/logio.c:28-47 | after any deferred records the log is the header and the stored ones; the first 686 are all there |
| SyscallSearch.PositionsExact | lib/scth/scth.c:121-137 | the listed indices are exactly the occurrences of the value, strictly increasing |
| SyscallSearch.Collect | lib/scth/scth.c:112-142 | the five slots are filled with the first occurrences of the repeated value, never past the request |
| SyscallSearch.GetEntries | lib/scth/scth.c:91-157 | succeeds exactly when the count is in 1..5 and the first repeated value occurs often enough; returns its first occurrences and the value; failure leaves the outputs |
| SyscallTable.Syscalls.InitSyscalls | syscalls/syscalls.c:62-108 | on success four distinct free entries hold the handlers, all others are as before and the codes are the indices; on failure nothing changes |
| SyscallTable.Syscalls.FlushSyscalls | syscalls/syscalls.c:110-124 | after a successful init it gives back the original table |
| SyscallTable.Syscalls.InitThenFlush | syscalls/syscalls.c:62-124 | a successful load followed by the unload is the identity on the whole table; a failed load changes nothing |
| Decimal.PrintNatPlaces | io/logio.c:28-31 | the characters of a printed number are its decimal digits, the last place at the end |
| Decimal.NoLeadingZero | io/logio.c:28-31 | a printed number other than 0 does not begin with a zero |
| Decimal.ScanPrintInt | user/user-utils.c:16-23 | scanning what %d printed gives the number back, for every int |
| Dispatch.CodeListingFits | io/procio.c:68-80 | the four codes always fit the page buffer |
| Dispatch.ScanPrinted | user/user-utils.c:16-23 | the parser gives back all printed codes |
| Dispatch.GetSyscallIndex | user/user-utils.c:8-26 | the code at the index, -EINVAL when fewer than four numbers are there, -1 when the file cannot be opened |
| Dispatch.Reach | user/user.h:11-15 | for each command the number read by the tool is a table index at which the address of that command's system call sits |
| ProcFile.ReadProcToEof | io/procio.c:96-106 | a reader gets the whole text once, or nothing when its buffer is too small |
| KernelList.List.AddTail | syscalls/syscalls-handlers.c:109 | appends the entry; next and prev stay inverse, the others keep their order |
| KernelList.List.Delete | syscalls/syscalls-handlers.c:215 | removes exactly that node; next and prev stay inverse, the others keep their order |
| KernelList.List.DeleteAll | syscalls/syscalls-handlers.c:246-251 | the deletion-safe loop ends, visits every node once in order and leaves a self-linked head |
| KernelList.List.EmptyWhenSelfLinked | misc/misc.c:204-207 | check_list_init and list_empty hold exactly for the empty list |
| KernelList.List.Find | misc/fsutils.c:62-76 | the first matching node, or null when none matches |
| Paths.SubpathIsComponentPrefix | misc/fsutils.c:10-15 | is_subpath holds exactly when the components of base are the first components of sub |
| Paths.SubpathIsPartialOrder | misc/fsutils.c:10-15 | is_subpath is reflexive, antisymmetric and transitive |
| Paths.BasesAreComparable | misc/fsutils.c:10-15 | two bases of one path are comparable |
| Paths.ChildCovered | misc/fsutils.c:10-15 | what lies below a directory is a subpath of it exactly when its path does not end in a slash |
| Paths.BaseCoversChildren | misc/fsutils.c:10-15 | a base covers everything below a directory exactly when it covers the directory and is not that directory ending in a slash |
| Paths.ResolveRelative | misc/fsutils.c:106-161 | an absolute path stays; a relative one gets the components of the current directory before its own, if the result fits 4096 bytes |
| Paths.ResolveFixpoint | misc/fsutils.c:86-166 | resolving again is the identity exactly on absolute paths |
| Registry.EligibleIffCovered | misc/fsutils.c:36-79 | a path is eligible exactly when it is not empty and some entry covers it |
| Registry.EligibleOrderIndependent | misc/fsutils.c:168-176 | the order of entries does not matter |
| Registry.AddingWidens | misc/fsutils.c:168-176 | adding an entry adds exactly what it covers |
| Registry.RemovingShadowed | misc/fsutils.c:62-76 | removing an entry below another one changes the answer exactly for its inode number where nothing else covers |
| Registry.MarkerDecidedByPath | misc/fsutils.c:70-71 | a query with the "no inode" marker is decided by the paths |
| Monitor.StateNamesRoundTrip | model/state.c:7-43 | names and states correspond one to one, and exactly the four names are valid |
| Monitor.StateNamesSay | model/instance.c:6-19 | a state is on when its name ends in ON, and reconfigurable when its name begins with REC- |
| Monitor.SafetyExact | syscalls/safety.c:69-130 | for any requested checks, the exact condition of each result |
| Monitor.NewEntryOfAbsolute | syscalls/syscalls-handlers.c:42-90 | adding an absolute path registers it on both sides with its own inode number |
| Monitor.NewEntryOfRelative | syscalls/syscalls-handlers.c:42-90 | adding a relative path registers the path below the current directory with the inode number of the path as given, and the path it leads to with the inode number there |
| Monitor.AllChecksPass | syscalls/safety.c:69-130 | all checks pass exactly for root, in a REC state, with a password of the same digest |
| Monitor.RefMonitor.constructor | refmon.c:12-38 | initial state OFF, empty registry, probes disabled, default password |
| Monitor.RefMonitor.SafetyChecks | syscalls/safety.c:69-130 | the first failing check decides the result |
| Monitor.RefMonitor.Search | misc/fsutils.c:36-79 | the node of the first matching entry, with the empty list and empty path cases |
| Monitor.RefMonitor.ProbingUpdate | probing/probing.c:8-48 | all five probes take the requested setting |
| Monitor.RefMonitor.DoSetState | syscalls/syscalls-handlers.c:115-140 | result and new state of set_state |
| Monitor.RefMonitor.AddFile | syscalls/syscalls-handlers.c:27-113 | result of adding a file, and the entry appended on success |
| Monitor.RefMonitor.DoReconfAdd | syscalls/syscalls-handlers.c:142-178 | result and new state of add |
| Monitor.RefMonitor.DoReconfRm | syscalls/syscalls-handlers.c:180-223 | result and new state of rm |
| Monitor.RefMonitor.DoFlushRegistry | syscalls/syscalls-handlers.c:226-258 | result and new state of flush; the list head is self-linked after success |
| MonitorResults.SetStateResults | syscalls/syscalls-handlers.c:115-140 | -EACCES exactly for callers other than root, -EINVAL exactly for another name, else the named state and its probes |
| MonitorResults.OnlyRootSwitches | syscalls/syscalls-handlers.c:11-25 | what changes the state or a probe is a successful set_state by root |
| MonitorResults.StateIsLastName | syscalls/syscalls-handlers.c:115-140 | after any run, state and probes are those of the name that root asked for last, or of OFF, whatever else was called |
| MonitorResults.RefusedResults | syscalls/safety.c:79-118 | which code a caller gets who is not root in a REC state with the right password; nothing changes |
| MonitorResults.SearchedExact | misc/fsutils.c:220-235 | the registry is searched for an absolute path itself, and for a relative one below the current directory |
| MonitorResults.AddResults | syscalls/syscalls-handlers.c:160-172 | the exact condition of each result of an authorized add, and what it registers |
| MonitorResults.RmResults | syscalls/syscalls-handlers.c:198-215 | the exact condition of each result of an authorized rm, which takes out the first entry with that path |
| MonitorResults.FlushResults | syscalls/syscalls-handlers.c:240-254 | an authorized flush succeeds and empties the registry |
| MonitorResults.FailuresLeaveNoTrace | syscalls/syscalls-handlers.c:115-258 | leaving the failed operations out of a run gives the same state, and the others succeed as before |
| MonitorRuns.RunAll | syscalls/syscalls-handlers.c:115-258 | the monitor object performs exactly the runs that the theorems are about |
| MonitorRuns.ProbesFollowState | syscalls/syscalls-handlers.c:11-25 | in every run all five probes are enabled exactly in ON and REC-ON |
| MonitorRuns.RegistryGuarded | syscalls/syscalls-handlers.c:142-258 | the registry changes only by root, in a REC state, with the password's digest, and with result 0 |
| MonitorRuns.FrozenOutsideRec | syscalls/safety.c:92-100 | between leaving and re-entering REC states the registry is constant |
| MonitorRuns.RegistryWellFormed | syscalls/syscalls-handlers.c:42-57 | registered paths are non-empty, absolute and pairwise distinct |
| MonitorRuns.RegisteredPathsAreFixed | misc/fsutils.c:220-243 | re-resolving a registered path gives it back, for any caller |
| MonitorRuns.NoMarkerStored | syscalls/syscalls-handlers.c:76-90 | no reachable registry stores the "no inode" marker |
| MonitorRuns.RegistryIsSurvivingAdds | syscalls/syscalls-handlers.c:27-113 | the registry is exactly the successful adds, in order, that were not later removed or flushed |
| MonitorRuns.SecondAddRefused | syscalls/syscalls-handlers.c:52-57 | adding a path again gives -EEXIST exactly when it is registered as absolute, or doubly resolved it is another registered path |
| MonitorRuns.DuplicateWithRelativeCwd | misc/fsutils.c:145-160 | distinctness rests on absolute current directories: without them a run could register a path twice |
| MonitorRuns.RemoveUndoesAdd | syscalls/syscalls-handlers.c:205-215 | rm right after add restores the state exactly when the registered path is absolute, and then a second rm gives -ENOENT |
| Hooks.WriteAccessIsMode | probing/probing-handlers.c:38-50 | an open is for writing exactly when the two lowest bits of its flags are 01 or 10, whatever the others are |
| Hooks.FileTarget | probing/probing-handlers.c:52-137 | what an open or a deletion is checked for: the file that the path leads to, links followed, only for writing, and for a deletion only with an inode number |
| Hooks.DirectoryTarget | probing/probing-handlers.c:139-179 | what mkdir and rmdir are checked for: the path itself when it is absolute, without an inode number |
| Hooks.FileAccessExact | probing/probing-handlers.c:52-137 | after any run, through any path that leads to a file: opening for reading goes ahead, opening for writing and deleting are denied exactly when root switched the monitor on and an add that stands covers the file |
| Hooks.DirectoryAccessExact | probing/probing-handlers.c:139-179 | after any run, mkdir and rmdir with an absolute path are denied exactly when root switched the monitor on and an add that stands covers that path |
| Hooks.DeniedIffCovered | probing/probing-handlers.c:52-179 | in every reachable state an access is denied exactly when the monitor is on and an entry covers its target |
| Hooks.DirectoriesDecidedByPath | probing/probing-handlers.c:161-176 | mkdir and rmdir are decided by the paths alone |
| Hooks.ProtectionExact | probing/probing-handlers.c:52-179 | an access is denied exactly when the monitor is on and a surviving add covers its target |
| Hooks.NamedFileDenied | misc/fsutils.c:104-144 | a write to the file that an added path led to, at any inode number, is denied exactly when the path was relative, leads to itself, had that inode number when added or is a directory above the file, or another surviving add covers it |
| Hooks.BelowDenied | misc/fsutils.c:62-76 | the same for what lies below the directory that an added path leads to, with the trailing slash as the exception |
| Hooks.WholeDirectoryCovered | misc/fsutils.c:62-76 | an entry covers everything below a directory exactly when its path passes is_dir and is the directory or one above it, but not the directory ending in a slash |
| Hooks.AbsoluteLinkUnprotected | misc/fsutils.c:106-110 | a run in which an absolute link is added with success and a write to the file it leads to goes ahead |
| Hooks.LinkDeletionDenied | probing/probing-handlers.c:113-132 | a run in which a file is added, and deleting a link to it is denied |
| Hooks.RootUnprotected | misc/fsutils.c:10-15 | a run in which the root directory is added with success and a write to a file in it goes ahead |
| Hooks.ReplacedFileUnprotected | misc/fsutils.c:178-189 | a run in which a file is added through a linked directory, and is covered until it is replaced; then a write to it goes ahead |
| RegistryRace.RaceKeeps | misc/fsutils.c:62-76 | in any interleaving of a walk with list_del the links stay as the writes so far make them, and the walk has passed over no matching entry but the deleted one |
| RegistryRace.FaultExact | misc/fsutils.c:62-76 | a finished walk has read a poisoned link exactly when, at the third write of list_del, it stood on the deleted entry and was to go past it |
| RegistryRace.NoFaultBefore | syscalls/syscalls-handlers.c:215 | before that write no walk reads a poisoned link |
| RegistryRace.WalkEnds | misc/fsutils.c:62-76 | every walk ends after a bounded number of its own steps, whatever the deletion does |
| RegistryRace.AnswerIsBeforeOrAfter | misc/fsutils.c:168-176 | any other walk answers as on the registry before the deletion or, once the entry is unlinked, as on the one after it |
| RegistryRace.FaultExample | misc/fsutils.c:62-76 | a schedule in which the walk reads a poisoned link |
| RegistryListing.LongestIsLongest | io/procio.c:58-66 | exactly the prefixes of the listed entries fit the page |
| RegistryListing.Render | io/procio.c:36-67 | the buffer holds the longest prefix of whole lines of total length below PAGE_SIZE |
| RegistryListing.ShowRegistry | io/procio.c:96-106 | reading to the end gives that prefix, or nothing when the reader's buffer is too small |
| ListingReader.LineReadBack | io/procio.c:44-49 | a reader gets both paths and both inode numbers back from a line exactly when no arrow begins in the first path |
| ListingReader.TwoEntriesOneLine | io/procio.c:44-49 | otherwise two different entries can have the same line |
| ListingReader.ListingReadBack | io/procio.c:42-66 | a reader gets all listed entries back exactly when also no path has a newline |
| ListingReader.ReadRegistry | io/procio.c:36-107 | reading the proc file with a page-sized buffer gives back the entries that fit the page |
| Digests.HexReadBack | misc/misc.c:14-21 | byte i is written as two hexadecimal digits in lower case, the high one first |
| Digests.HexInjective | misc/misc.c:14-21 | two digests have the same text exactly when they are equal |
| Digests.HexConv | misc/misc.c:14-21 | a buffer of 2n+1 characters is enough and holds the text and its terminator |
| Digests.HashFile | misc/misc.c:146-202 | the chunked loop ends and gives the digest text of the whole content for any short reads; NULL exactly when opening, reading or hashing reports an error |
| Digests.ReadsFineExact | misc/misc.c:164-177 | the loop succeeds exactly when some number of reads give bytes that the hash takes and the next one finds the end of the file |
| Occurrences.StaysAhead | test/api/testapi.c:83-86 | the greedy scan is never behind any packing of occurrences |
| Occurrences.CountOccurrences | test/api/testapi.c:75-88 | the count is the maximum number of non-overlapping occurrences, and 0 for an empty needle |

## Left out

- LogFile.LogDevice.Append: does not model the 32-bit width of `block_to_write`, which would matter only beyond 2^31 blocks, nor records longer than one block, whose copy would leave the block buffer (`defer` writes at most 515 bytes).
- LogFile.LogDevice.Read: does not model a length so close to 2^64 that `*off + len` wraps; the kernel caps the length of a read long before.
- LogFile.LogDevice.Mkfs: superblock and inode are opaque blocks; their field layout and the error exits after short writes are not modelled.
- The return value of `onefilefs_write_async` (never assigned in the source) and remounting, which forgets the grown size.
- LogConcurrency.EveryRunIsLinearized: `copy_to_user` is one step; `memcpy` is one step per byte.
- LogRecords.Defer: an error from the write is reported as a status, without the message.
- SyscallTable.Syscalls.FlushSyscalls: requires a successful init; the source also calls it when init has failed, with indices of -1.
- CR0 write protection around the table writes, and kernel messages.
- Monitor.RefMonitor.AddFile: file system answers do not change during one call, and memory allocation does not fail (`-ENOMEM`); the buffers of `d_path` and `dentry_path_raw` are not modelled.
- Monitor.RefMonitor.Search: a NULL path is not modelled; no caller passes one.
- Monitor.RefMonitor.SafetyChecks: the negative user id branch cannot be taken, since user ids are unsigned, nor the one for no checks, whose flag is 0; NULL arguments are not modelled.
- The spin lock around the operations: each operation is one atomic step of a run.
- Monitor.RefMonitor.ProbingUpdate: enabling and disabling a probe succeeds; the source ignores what these calls return.
- MonitorRuns.ProbesFollowState: rests on the same assumption.
- ProcFile.ReadProcToEof: copying to the user succeeds; the source returns `-EFAULT` otherwise, without moving the position.
- Hooks.ProtectionExact: each handler looks at the registry at one instant. The handlers in the source walk it without `spinlock_inst`; `RegistryRace` says what one deletion under such a walk does, several deletions and additions under it are not modelled.
- RegistryRace.FaultExact: memory is sequentially consistent, and the check for an empty list before the walk is not part of it.
- Hooks.DeniedIffCovered: an open through `filp_open` is given the same arguments as one through `vfs_open`, although the first argument of `filp_open` is a file name and the handler reads a `struct path` there. Also, the change of the return register to `-EACCES` in `krp_hook_tail` and the scheduling of the log work are not modelled; a denied access is one that reaches the tail handler.
- SHA-256, and errors while setting up a hash: the digest is any function of the bytes.
- Digests.HashFile: allocating the hash state and the buffers succeeds.
- The state proc file and the directory and superblock code of the log file system: easy members only.
- `user/user.c`, the tests, the scripts and the Makefiles, apart from the constants and the counting function used here.
