# Verification of WiiCompiled's hard cores

This project models the parts of WiiCompiled where a mistake loses a user's files, freezes a frame or runs the
wrong code, and proves that they do what they are for. Each part is a small group of modules:

| part | modules |
|---|---|
| Crash-safe install transaction | `FileTree`, `Paths`, `InstallJournal`, `InstallRecovery`, `InstallMachine`, `InstallTransaction`, `InstallRuns`, `InstallSizes` |
| Frame worker, presenter and presentation schedule | `FrameWorker`, `Presenter`, `Schedule` |
| Guest memory fast paths | `ByteOrder`, `GuestMemory`, `SingleStore`, `FlatMemory` |
| Dispatch tables and register guards | `DispatchTable`, `Dispatch`, `DispatchRuns`, `FprGuard` |
| Line-preserving configuration editor | `TomlText`, `TomlGrammar`, `LineEdits`, `PortablePaths`, `ConfigEditor` |
| Write generations of the GX caches | `GuestWrites` |
| Product inspection and reconciliation | `Inspection`, `Reconciliation`, `ProductFacts`, `Convergence`, `RepairService`, `Publication` |
| Directory tree identity | `TreeWalk`, `TreeIdentity` |
| First-run NAND files | `Crc`, `SysconfLayout`, `Sysconf` |
| Shared | `Basics`, `Arithmetic`, `Ordinal` |

`dafny verify dfyconfig.toml` checks everything.

How the parts are modelled:

- The install transaction works on a file system of directories and files. A script of faults decides, at each
  file-system operation, whether it succeeds, throws, or is the last one before the power goes; a tree deletion
  cut short leaves any part of the tree, a creation of directories the topmost of them, a write perhaps its
  temporary. Renames and journal writes are atomic. `InstallRuns` runs any sequence of calls, catching any of their
  failures, and any number of recoveries under any such scripts; `Publication` does so with the plan of a
  reconciliation.
- The frame worker is a state machine with program counters for worker and producer. A section under a mutex is
  one step; what the surface, the renderer and interpolation decide is an input of the step.
- Guest memory keeps the encoded-bias tables as they are commented in the source, builds them as the source does,
  and compares every access with the page table. Framing is stated on host bytes, which several guest addresses may share.
- A dispatch call is a sequence of single accesses, and `DispatchRuns` interleaves the accesses of any number of
  threads, each with its own memos, with registrations and publication.
- The configuration editor's loops are proved against a specification of lines; what a line says is separated
  from how it is spelled, so that the laws of editing hold for any way of reading lines.
- Recorded hashes are texts compared with or without regard to case; a build emits usable executables, local
  provenance of what it was given, and copies of the workspace's support files.
- A definition that an operation shares with its laws is tied to one that is read off the records, constants or
  windows themselves: `Dispatch.Rank`, `GuestWrites.WINDOWS`, `DispatchTable.InItsPage`, `ProductFacts` for what inspection
  and reconciliation say, `TomlGrammar` for what a line says.
- Machine words of the CRC are their bits; bytes of SYSCONF and of guest memory are numbers below 256.

What the proofs found out about the code:

- `Begin` accepts more than 64 entries, `ValidateJournal` does not: such a transaction, interrupted, can never be
  recovered (`InstallRuns.OversizedTransactionIsStuck`). The caller modelled here stays far below the limit
  (`Publication.PlanMeetsTheTransaction`).
- The overlap test does not see that a drive root contains everything (`Paths.DriveRootContainsNothing`), so
  accepted entries are disjoint exactly when none of them is such a root.
- A commit after a publication that threw, and whose rollback threw too, passes the guard. It is sound exactly if
  every destination still holds what was prepared for it (`InstallRuns.Session`).
- A group without a schedule resets the presentation cursor, after which deadlines can go back
  (`Schedule.ResetLosesTheOrder`); they do not exactly if every group after a reset catches up
  (`Schedule.ResetsInOrderExactly`), and with intervals that change, exactly if each group follows the one before
  it (`Schedule.RunInOrderExactly`).
- The flat 16-, 32- and 64-bit stores look at their first byte only and can reach a few bytes into the MMIO window
  (`FlatMemory.UndivertedStoreTouchesMmio`).
- The write-generation sums can recur after 2^32 writes, although the comment says never
  (`GuestWrites.WrappedCounterIsTrusted`); `GuestWrites.TrustedExactly` says when.
- A section name whose header contains a comment sign is written but never found again, and a path with a line
  break does not survive the file (`ConfigEditor.SetThenGet`, `ConfigEditor.SetPathThenGetPath`).
- A rebuild does not check for the disc's `fst.bin`, which inspection demands, nor for a recorded runtime-asset
  identity: without them every reconciliation rebuilds again or refuses (`Convergence.SecondRunIsNoOp`). A wrong
  recorded payload length is invisible to reconciliation but not to a fresh inspection
  (`Convergence.FreshInspectionAgrees`).
- SYSCONF's header counts the items of the list even when some were left out (`SysconfLayout.CountIsOfTheList`).

## Model

| member | source | states |
|---|---|---|
| `InstallRuns.AllOrNothing` | Launcher/WiiCompiled.Setup.Windows/InstallTransaction.cs:50-219 | Crash atomicity over every run: whatever calls were made and whichever of their failures were caught, wherever any of them and any number of recoveries threw or lost power, a completed recovery leaves every destination with its prepared contents and the configuration as the last completed write of it left it if the journal had reached Committed, and otherwise every destination and the configuration exactly as before; nothing else on the disk has changed but for directories on the way and temporaries of unfinished writes of the journal or the configuration, and no work directory is left once a call was made. A last start without faults does complete; and an update in order, on a disk without faults and with no file in the way, is committed, installed products or not. The caller commits nothing after a publication whose failure it has caught. |
| `InstallRuns.Session` | Launcher/WiiCompiled.Setup.Windows/InstallTransaction.cs:50-144 | Any sequence of transaction calls, any of their failures caught, cut short anywhere: recovery can finish if and only if no destination was committed that did not hold what was prepared for it, and so always for a caller that does not commit after a caught failure to publish; ended normally, it is then all new or all old. Committed without a caught failure to publish, the configuration holds what was last written to it, or what it held if nothing was. Without faults and with no file in the way, publishing, recording, writing and committing in that order ends committed and cleaned up. |
| `InstallRuns.PerformAll` | Launcher/WiiCompiled.Setup.Windows/InstallTransaction.cs:81-138 | The same of the calls alone: the transaction stays recoverable through every caught failure, except by committing what a failed publication left; and without faults calls in order all go through. |
| `InstallRuns.Perform` | Launcher/WiiCompiled.Setup.Windows/InstallTransaction.cs:81-138 | One call keeps a transaction recoverable, a published one with every entry replaced, and a recorded preimage recorded; a commit does so exactly if every destination holds what was prepared for it; in its turn and without faults, it goes through. |
| `InstallRuns.WriteConfiguration` | Launcher/WiiCompiled.Setup.Windows/InstallTransaction.cs:118-125 | Writing the configuration after it was recorded keeps the transaction recoverable and touches no entry; without faults and with its way open it goes through. |
| `InstallRuns.Restarts` | Launcher/WiiCompiled.Setup.Windows/InstallTransaction.cs:147-194 | Recovery interrupted and started again any number of times never un-restores anything, never changes whether the transaction counts as committed, and completes on a faultless start; over 64 entries it throws each time and changes nothing. |
| `InstallRuns.OversizedTransactionIsStuck` | Launcher/WiiCompiled.Setup.Windows/InstallTransaction.cs:50-78 | `Begin` accepts any number of entries, validation at most 64: cut short anywhere while it publishes, or after it has, a transaction can be recovered if and only if it has at most 64 entries, however faultless the recovery; published, its entries then stay in place. |
| `InstallSizes.AnySizeCanBegin` | Launcher/WiiCompiled.Setup.Windows/InstallTransaction.cs:50-78 | Any number of entries, 65 and more among them, can meet what `Begin` asks for, with no file in the way. |
| `InstallTransactions.InstallTransaction.Begin` | Launcher/WiiCompiled.Setup.Windows/InstallTransaction.cs:50-78 | Throws and changes nothing exactly for no entries, an unfinished transaction or unacceptable entries; otherwise the journal is written, or nothing is recorded, at every crash point; if no path is in another's way, every entry is then untouched and the transaction recoverable. |
| `InstallTransactions.InstallTransaction.OpenJournal` | Launcher/WiiCompiled.Setup.Windows/InstallTransaction.cs:75-76 | Work directory and first journal: a cut anywhere leaves the old contents and no journal. |
| `InstallTransactions.PlanIsSensible` | Launcher/WiiCompiled.Setup.Windows/InstallTransaction.cs:221-262 | Entries that `Begin` accepts give a plan whose prepared, destination and backup paths are apart and whose backups start empty. |
| `InstallTransactions.InstallTransaction.Publish` | Launcher/WiiCompiled.Setup.Windows/InstallTransaction.cs:81-111 | Throws in the wrong state without touching anything; done, every destination holds its prepared contents and the journal says Published; thrown otherwise, everything has been rolled back or can be. On a disk without faults, with the entries as they were and no file in the way to a destination or a backup, it is done. |
| `InstallTransactions.InstallTransaction.MoveAllIntoPlace` | Launcher/WiiCompiled.Setup.Windows/InstallTransaction.cs:86-91 | Every old destination is moved aside and every prepared entry into place, each rename leaving a recoverable state; without faults and with all ways open, to the end. |
| `InstallTransactions.PublishEntries` | Launcher/WiiCompiled.Setup.Windows/InstallTransaction.cs:86-91 | So the loop over the entries: without faults and with all ways open none of the renames fails, and the ways stay open. |
| `InstallTransactions.PublishEntryAt` | Launcher/WiiCompiled.Setup.Windows/InstallTransaction.cs:88-90 | One entry's two renames: its view goes from untouched to replaced, whether or not something was there before, stays recoverable in between, and no other entry's view changes; without faults and with the ways open, it does. |
| `InstallTransactions.InstallTransaction.RecordRuntimeConfigurationMutation` | Launcher/WiiCompiled.Setup.Windows/InstallTransaction.cs:118-125 | Whatever snapshot is given is in the journal before the configuration may change, and the transaction stays recoverable if it is the configuration as it was; wrong states throw, and nothing else does without a fault. |
| `InstallTransactions.InstallTransaction.Commit` | Launcher/WiiCompiled.Setup.Windows/InstallTransaction.cs:131-138 | Passes its guard exactly from Published; the transaction can still be recovered afterwards if and only if it was not committed or every destination held what was prepared for it, which it then keeps; without faults it is committed and leaves neither journal nor work directory. |
| `InstallTransactions.InstallTransaction.WriteJournal` | Launcher/WiiCompiled.Setup.Common/JsonState.cs:25-32 | The journal on disk is the old one or the new one; an unfinished write may leave a temporary, which disturbs no entry, nor the configuration, nor recovery. |
| `InstallTransactions.InstallTransaction.CleanAfterCommit` | Launcher/WiiCompiled.Setup.Windows/InstallTransaction.cs:136-137 | Cleaning up after the commit keeps the new contents whatever fails, and the journal goes only after the work directory. |
| `InstallTransactions.TryCleanCommitted` | Launcher/WiiCompiled.Setup.Windows/InstallTransaction.cs:345-359 | Deletes backups, work directory and journal of a committed transaction; interrupted anywhere, no destination changes, and no work directory outlives its journal. |
| `InstallTransactions.InstallTransaction.Dispose` | Launcher/WiiCompiled.Setup.Windows/InstallTransaction.cs:140-144 | A transaction that was not committed is rolled back when it is disposed of. |
| `InstallTransactions.InstallTransaction.RollBack` | Launcher/WiiCompiled.Setup.Windows/InstallTransaction.cs:171-194 | Entries restored, configuration restored, journal RolledBack, then cleaned up; interrupted anywhere it can be run again. |
| `InstallTransactions.RollBackEntries` | Launcher/WiiCompiled.Setup.Windows/InstallTransaction.cs:176-177 | Every entry ends restored, and an entry once restored stays so. |
| `InstallTransactions.RollBackOne` | Launcher/WiiCompiled.Setup.Windows/InstallTransaction.cs:176-177 | Rolling one entry back restores it and leaves every other entry's view as it was. |
| `InstallTransactions.RollBackEntry` | Launcher/WiiCompiled.Setup.Windows/InstallTransaction.cs:196-219 | From every state a crash can leave, one entry is put back: neither the missing-backup nor the ambiguous-recovery failure can be reached. |
| `InstallTransactions.InstallTransaction.RestoreConfig` | Launcher/WiiCompiled.Setup.Windows/InstallTransaction.cs:179-187 | The configuration is again what the preimage recorded, or its absence. |
| `InstallTransactions.InstallTransaction.FinishRollBack` | Launcher/WiiCompiled.Setup.Windows/InstallTransaction.cs:189-193 | The rolled-back journal and the cleanup after it keep everything restored. |
| `InstallTransactions.Recover` | Launcher/WiiCompiled.Setup.Windows/InstallTransaction.cs:147-169 | Validates the journal, cleans up a committed transaction and rolls any other back; on success no journal is left and contents are all new or all old. |
| `InstallTransactions.StepStaysSafe` | Launcher/WiiCompiled.Setup.Windows/InstallTransaction.cs:81-111 | A step confined to one entry and the work directory keeps the crash invariant. |
| `InstallTransactions.CleaningStaysSafe` | Launcher/WiiCompiled.Setup.Windows/InstallTransaction.cs:345-359 | A step of the cleanup keeps the crash invariant. |
| `InstallTransactions.WorkDirectoryKeepsOriginal` | Launcher/WiiCompiled.Setup.Windows/InstallTransaction.cs:75-76 | Creating the work directory changes nothing but directories above it. |
| `InstallTransactions.OpeningKeepsWays` | Launcher/WiiCompiled.Setup.Windows/InstallTransaction.cs:75-76 | The work directory blocks nothing, and all backups find room in it. |
| `InstallJournal.NormalizeEntries` | Launcher/WiiCompiled.Setup.Windows/InstallTransaction.cs:221-262 | Accepts exactly the requests that are in scope, present and of their kind, and of which no two paths overlap, and gives each its backup path. |
| `InstallJournal.CheckEntry` | Launcher/WiiCompiled.Setup.Windows/InstallTransaction.cs:228-255 | Finds nothing wrong with an entry exactly if it is acceptable by itself and clear of all earlier ones, and otherwise names the first thing that is wrong. |
| `InstallJournal.AcceptedPathsAreDisjoint` | Launcher/WiiCompiled.Setup.Windows/InstallTransaction.cs:221-262 | All prepared and destination paths of accepted entries are pairwise disjoint, if and only if no drive root among them holds another. |
| `InstallJournal.ValidateJournal` | Launcher/WiiCompiled.Setup.Windows/InstallTransaction.cs:264-293 | Accepts exactly the journals of this installation with 1 to 64 entries in scope and with the expected backups, and otherwise names what is wrong. |
| `InstallJournal.D4IsInjective` | Launcher/WiiCompiled.Setup.Windows/InstallTransaction.cs:221-262 | Backup directories of different entries have different names. |
| `InstallRecovery.OtherViewsKept` | Launcher/WiiCompiled.Setup.Windows/InstallTransaction.cs:171-219 | A step confined to one entry leaves every other entry's three slots as they were. |
| `InstallRecovery.RestStaysKept` | Launcher/WiiCompiled.Setup.Windows/InstallTransaction.cs:171-219 | A confined step changes nothing outside the transaction's paths. |
| `InstallRecovery.ConfinedKeepsWays` | Launcher/WiiCompiled.Setup.Windows/InstallTransaction.cs:86-91 | Nor does publishing one entry put anything in the way of another, or of the configuration. |
| `InstallRecovery.WayToOriginalIsOpen` | Launcher/WiiCompiled.Setup.Windows/InstallTransaction.cs:196-219 | A rename back to a destination is never blocked by a file on the way. |
| `InstallRecovery.WayToConfigIsOpen` | Launcher/WiiCompiled.Setup.Windows/InstallTransaction.cs:181-187 | Nor is the way to the configuration. |
| `InstallMachine.Machine.Move` | Launcher/WiiCompiled.Setup.Windows/InstallTransaction.cs:314-333 | A rename happens as a whole or not at all, under throws and power loss. |
| `InstallMachine.Machine.DeleteDirectory` | Launcher/WiiCompiled.Setup.Common/FileSystemUtilities.cs:81-92 | Deleting a tree may stop with any part of it left, and touches nothing else. |
| `InstallMachine.Machine.WriteFile` | Launcher/WiiCompiled.Setup.Common/FileSystemUtilities.cs:184-197 | An atomic write leaves the old or the new contents, and if it is interrupted, perhaps its temporary beside the file, and nothing else. |
| `InstallMachine.Machine.CreateParents` | Launcher/WiiCompiled.Setup.Windows/InstallTransaction.cs:314-333 | Creates just the missing ancestors of a path, from the top down; cut short, any number of the topmost of them. |
| `InstallMachine.Machine.DeleteFile` | Launcher/WiiCompiled.Setup.Windows/InstallTransaction.cs:339-343 | Deleting a file takes it away or leaves it. |
| `Paths.SpellingDecidesContainment` | Launcher/WiiCompiled.Setup.Common/FileSystemUtilities.cs:99-119 | The prefix test on spelled paths is containment of components, except below a drive root. |
| `Paths.DriveRootContainsNothing` | Launcher/WiiCompiled.Setup.Common/FileSystemUtilities.cs:99-119 | A drive root contains nothing but itself according to the test. |
| `FrameWorker.DrainOwnsTheRenderer` | aurora-main/lib/aurora.cpp:1602-1665 | In every interleaving the producer's drain never meets the worker's seal or preparation, at most one frame is in flight, and READY implies SEALED at every mutex release. |
| `FrameWorker.EveryFrameSealedOnceInOrder` | aurora-main/lib/aurora.cpp:1766-1796 | Every frame handed over is sealed exactly once and in order; only a stop leaves the last one unsealed. |
| `FrameWorker.SlotsUseTheirOwnImGuiFrame` | aurora-main/lib/aurora.cpp:1646-1655 | No slot of a frame is encoded after ImGui's next frame has started, in the overlapped and the other mode. |
| `FrameWorker.ReadyMeansDone` | aurora-main/lib/aurora.cpp:1636-1661 | READY means that the last frame is sealed, and that of every frame just as many slots have been encoded as interpolation gave it, plus its own. |
| `FrameWorker.EverySlotIsEncodedOnce` | aurora-main/lib/aurora.cpp:1404-1481 | In every run a sealed frame is encoded once for each of its slots and never more often, as often as soon as a later one is sealed, and an unsealed frame not at all; the slots are read off what interpolation decided at each seal. |
| `FrameWorker.OnlyInterpolatedFramesOverlap` | aurora-main/lib/aurora.cpp:1608-1650 | A frame without inserted slots is encoded under the renderer mutex, any other outside of it, between SEALED and READY. |
| `FrameWorker.EveryFrameHasItsImGuiFrame` | aurora-main/lib/aurora.cpp:1318-1338 | ImGui has started exactly one frame for each that was prepared, but for the one an overlapped cycle owes it until READY. |
| `FrameWorker.BeginFrameAnswersTheRenderer` | aurora-main/lib/aurora.cpp:1701-1764 | `begin_frame` answers true only for a frame the renderer has begun, unless it returns early for a worker that is not done, which it never does while the surface is changing; and false only for one it has not. |
| `FrameWorker.RunAccounted` | aurora-main/lib/aurora.cpp:1602-1665 | All this from one account of a run: what the surroundings decided at each seal and each beginning, against what the two threads have done with it. |
| `FrameWorker.PermissionIsForThisCycle` | aurora-main/lib/aurora.cpp:1620-1627 | A permission granted for one frame is consumed by that frame's cycle and no other. |
| `FrameWorker.EndDrainNeverBlocks` | aurora-main/lib/aurora.cpp:1782-1786 | The drain inside `end_frame` never waits while it holds the renderer mutex. |
| `FrameWorker.WorkerNearsReady` | aurora-main/lib/aurora.cpp:296-335 | A producer that waits inside a frame, or for the worker to stop, always has a worker step that lowers a measure. |
| `FrameWorker.WaitEnds` | aurora-main/lib/aurora.cpp:362-400 | So every such wait ends, whatever the surroundings decide. |
| `FrameWorker.EndFrameHandsOver` | aurora-main/lib/aurora.cpp:1766-1796 | Every `end_frame` hands its frame over, after a wait that ends. |
| `FrameWorker.StopReleasesBothPhases` | aurora-main/lib/aurora.cpp:402-419 | A stop at any worker position ends with the worker gone and both phases released. |
| `FrameWorker.WaitingOutsideAFrameNeverEnds` | runtime/include/aurora_events.h:109-114 | The circular wait: outside a frame, a worker that is not done can take any number of steps without ever becoming done. |
| `FrameWorker.EndFrameLeavesTheCircularWait` | runtime/include/aurora_events.h:109-114 | Every `end_frame` leaves the producer just there: waiting for DONE before the next `begin_frame` is never satisfied. |
| `FrameWorker.RunKeepsInv` | aurora-main/lib/aurora.cpp:237-251 | Everything above rests on one invariant, kept by every section of both threads and so in every run. |
| `FrameWorker.WorkerStep` | aurora-main/lib/aurora.cpp:296-335 | The worker's next section keeps the invariant, leaves the producer alone and lowers the measure. |
| `FrameWorker.ProducerStep` | aurora-main/lib/aurora.cpp:1701-1796 | So does each section of `begin_frame`, `end_frame`, the drains, the waits and the stop. |
| `FrameWorker.Seal` | aurora-main/lib/aurora.cpp:1608-1615 | Sealing records the frame on its ImGui frame; only an interpolated frame leaves the renderer mutex to be encoded. |
| `FrameWorker.PrepareFrame` | aurora-main/lib/aurora.cpp:1318-1338 | The next ImGui frame starts at once, or is owed until the overlapped encode is over. |
| `FrameWorker.PublishSealed` | aurora-main/lib/aurora.cpp:1636-1643 | SEALED is published with the preparation's result, READY with it unless the encode is still to come. |
| `FrameWorker.AllowPreparation` | aurora-main/lib/aurora.cpp:1726-1741 | `begin_frame` while the worker is busy grants the permission and, unless the surface is changing, takes the frame as begun. |
| `FrameWorker.PostJob` | aurora-main/lib/aurora.cpp:1787-1794 | `end_frame` takes both phases back and hands the frame over. |
| `FrameWorker.RequestStop` | aurora-main/lib/aurora.cpp:402-410 | A stop grants the permission too, so that no wait outlives it. |
| `Presenter.RunPresenter` | aurora-main/lib/aurora.cpp:1056-1174 | Over every interleaving: accepted jobs are, in order, those popped, dropped and queued; the queue keeps its bound; no image is in two live jobs. Each operation does to the jobs just what it is for. |
| `Presenter.PresenterState.EnqueuePresentations` | aurora-main/lib/aurora.cpp:1119-1153 | A group is taken whole unless the presenter stops; the older jobs stay if all together are 8 at most or the older ones no more than twice the group, and otherwise all of them go and only they; the queue stays within that bound. |
| `Presenter.PresenterState.PopJob` | aurora-main/lib/aurora.cpp:1069-1100 | The oldest job is popped. |
| `Presenter.PresenterState.AcquirePresentationImage` | aurora-main/lib/aurora.cpp:850-876 | An image of the wanted size that no live job holds; a new one only once no idle image is left in the pool. |
| `Presenter.ScanPool` | aurora-main/lib/aurora.cpp:850-876 | The scan drops idle images of other sizes only, keeps every held one, and finds an idle fitting one if there is one. |
| `Presenter.UnheldIsDistinct` | aurora-main/lib/aurora.cpp:828-876 | An image no live job holds differs from all that live jobs hold. |
| `Presenter.PresenterState.EncodeSlot` | aurora-main/lib/aurora.cpp:1439-1476 | Encoding a slot adds one job with its own image of the requested size. |
| `Schedule.AnchorLimits` | aurora-main/lib/aurora.cpp:1487-1520 | A group's anchor is never before now or its base, strictly after now if the base is late, and strictly after the previous anchor, and no further than an interval past the later of them. |
| `Schedule.SlideIsRoundedUp` | aurora-main/lib/aurora.cpp:1487-1520 | A slide is counted in whole periods, a part of one as one, and reported in 32 bits. |
| `Schedule.AnchorIsLeast` | aurora-main/lib/aurora.cpp:1487-1520 | On one grid it is the least grid point meeting those limits, and the slide is a whole number of intervals - the number the jobs report if and only if that fits 32 bits. |
| `Schedule.DeadlinesNeverGoBack` | aurora-main/lib/aurora.cpp:1404-1520 | Over all groups of a run that stays scheduled on one grid the slot deadlines are nondecreasing. |
| `Schedule.RunInOrderExactly` | aurora-main/lib/aurora.cpp:1404-1520 | For any groups whatever, with and without schedules, on any grids, with changing intervals: the deadlines of all slots are nondecreasing if and only if each group, as its branch decides it from its base, the clock and the cursor, follows the one before it. |
| `Schedule.FollowsExactly` | aurora-main/lib/aurora.cpp:1404-1520 | That condition, branch by branch: a group without a schedule is due at once or at its native offset, one behind the cursor an interval after it, any other at its base or at the first slide that reaches far enough. |
| `Schedule.ResetsInOrderExactly` | aurora-main/lib/aurora.cpp:1487-1520 | On one grid with groups without a schedule in between: the scheduled slots are presented in order if and only if each group that finds the cursor reset is due after the last anchor or late by as much. |
| `Schedule.ResetLosesTheOrder` | aurora-main/lib/aurora.cpp:1487-1520 | A concrete run that fails this condition, and whose deadlines therefore go back after a reset. |
| `Schedule.GroupStaysInItsInterval` | aurora-main/lib/aurora.cpp:1404-1419 | A group's slots lie in order within one interval from its anchor. |
| `Schedule.SlotOffsetsGrowWithinOneInterval` | aurora-main/lib/aurora.cpp:1404-1419 | Slot offsets start at zero, grow, and stay below the interval. |
| `Schedule.SlotsDivideTheInterval` | aurora-main/lib/aurora.cpp:1404-1419 | The slots divide the interval evenly: slot k lies at k of as many parts as there are slots, rounded down. |
| `Schedule.NativeFrameFollowsTheBoundary` | aurora-main/lib/aurora.cpp:1404-1416 | Without interpolation a frame is due 6.5 ms after the boundary before its base, and at once if there is no schedule. |
| `Schedule.PresentationSchedule.ScheduleGroup` | aurora-main/lib/aurora.cpp:1487-1520 | The group's timings and the new cursor, from the base, the clock and the old cursor. |
| `Schedule.SlideGroup` | aurora-main/lib/aurora.cpp:1508-1520 | The group slides as a whole. |
| `GuestMemory.Memory.TryWriteGuestScalar` | runtime/include/memory_access.h:373-399 | Succeeds on exactly the writable accesses within a page and is then the simple store: the big-endian bytes at the host bytes the page table gives, no other host byte changed, no executable page touched; failing, it writes nothing. |
| `GuestMemory.Memory.TryGetWritablePointerFast` | runtime/include/memory_access.h:167-224 | Answers on exactly the accesses its tables let through, with the host pointer the page table gives, and never behind an executable guard. |
| `GuestMemory.Memory.TryGetPointerFast` | runtime/include/memory_access.h:143-160 | Answers on exactly the accesses of pages in the coarse table and those within their page entry, with the host pointer at which the page table puts every byte of the access. |
| `GuestMemory.Memory.TryReadGuestScalar` | runtime/include/memory_access.h:357-370 | A read gives the big-endian value of the reference bytes. |
| `GuestMemory.Memory.ReadResolvedPair` | runtime/include/memory_access.h:277-307 | A pair load through a resolved host pointer equals two scalar loads, at whatever guest addresses the pointer was resolved from. |
| `GuestMemory.Memory.StoreThenLoad` | runtime/include/memory_access.h:357-399 | Same-width read-back returns the value stored. |
| `GuestMemory.Memory.BiasResolves` | runtime/include/memory_access.h:46-71 | An encoded bias that satisfies the table comments resolves every byte of a short access, across a page boundary too. |
| `GuestMemory.Memory.EndpointsDecideGuards` | runtime/include/memory_access.h:191-222 | Checking the guard of both ends of a short access checks all of it. |
| `GuestMemory.Memory.Store` | runtime/include/memory_access.h:389-397 | Exactly the addressed host bytes change. |
| `GuestMemory.Memory.RebuildFastPaths` | runtime/src/memory.cpp:252-316 | The tables, built from any page entries, executable guards and deferred reads, are what their comments promise, so that everything above holds of them; and they are just those of the page entries, with the two lemmas that follow on which accesses they let through. |
| `GuestMemory.Memory.WritableWhenBuilt` | runtime/include/memory_access.h:162-213 | On built tables a short write goes through if and only if it touches no executable page and the page entry holds it or the page's bias serves it, which it does not where the coarse guards mark a page for nothing. |
| `GuestMemory.Memory.ReadableWhenBuilt` | runtime/include/memory_access.h:143-160 | A short read goes through if and only if the page's bias serves it or the page entry holds it. |
| `GuestMemory.Memory.ContiguousExactly` | runtime/src/memory.cpp:258-276 | A page is given a bias only if, and is contiguous if and only if, one host base serves every short access that starts in it. |
| `GuestMemory.Memory.HasBiasExactly` | runtime/src/memory.cpp:258-276 | A contiguous page has a bias, unless its host base is the byte before its guest address, which is encoded as none. |
| `GuestMemory.Memory.BuildSparse` | runtime/src/memory.cpp:285-305 | A page gets a sparse table exactly if it mixes executable and data pages, with a bias for the data pages only. |
| `GuestMemory.Memory.ClearDeferred` | runtime/src/memory.cpp:306-316 | Exactly the pages under a deferred read lose their readable bias. |
| `ByteOrder.SwappedIsBigEndian` | runtime/include/memory_access.h:250-275 | A swapped scalar lies in memory most significant byte first. |
| `ByteOrder.LoadUndoesStore` | runtime/include/memory_access.h:250-275 | Loading swaps back what storing swapped. |
| `ByteOrder.PairLoadIsTwoLoads` | runtime/include/memory_access.h:296-307 | Splitting a packed big-endian load by shifting gives both halves. |
| `SingleStore.ConvertUndoesWiden` | runtime/include/memory_access.h:113-135 | For every 32-bit single pattern widened bit-exactly to double, the conversion returns the pattern. |
| `SingleStore.ConvertIsSingle` | runtime/include/memory_access.h:113-135 | Wherever SINGLE of section 4.6.3 of Power ISA v2.07 Book I defines the result, the conversion gives it, its shift replacing the denormalising loop. |
| `SingleStore.OtherPatternsKeepTheirBits` | runtime/include/memory_access.h:113-135 | Every pattern outside the subnormal arm keeps its top two bits and bits 29 to 58, also where the architecture leaves the result undefined. |
| `SingleStore.SubnormalArmRange` | runtime/include/memory_access.h:113-135 | The subnormal arm fires for exactly exponents 874 to 896, and its shift stays within 9 to 31. |
| `FlatMemory.RangeResolvesExactly` | runtime/include/memory_access.h:226-246 | A range resolves exactly when it is within a page, does not wrap, may be accessed directly, and keeps every byte out of the MMIO window if written. |
| `FlatMemory.MaskDecidesWindow` | runtime/include/memory_access.h:106-108 | The mask test is membership of the window. |
| `FlatMemory.EndpointsDecide` | runtime/include/memory_access.h:226-246 | Both ends outside the window means all of a range of at most a page is. |
| `FlatMemory.UndivertedStoreTouchesMmio` | runtime/include/memory_access.h:582-614 | The flat stores look at their first byte only: one that is not diverted still reaches the window exactly when it starts less than its size below it. |
| `FprGuard.RunTestFindsRuns` | runtime/include/abi_bridge.h:164-171 | The add-lowest-bit test holds for exactly the contiguous masks, and the computed slot range is the set bits. |
| `FprGuard.NegationIsolatesLowest` | runtime/include/abi_bridge.h:164 | Anding with the two's complement leaves the lowest set bit. |
| `FprGuard.AndPredecessor` | runtime/include/abi_bridge.h:166 | Anding with the predecessor is zero for powers of two only. |
| `FprGuard.RunTestIsPower` | runtime/include/abi_bridge.h:164-166 | The unsigned 32-bit test, wrap-around included, is the power-of-two test of mask plus lowest bit. |
| `FprGuard.PpcNonvolatileFprGuard.constructor` | runtime/include/abi_bridge.h:154-183 | Saves the value of every masked register, by block or one by one. |
| `FprGuard.PpcNonvolatileFprGuard.Release` | runtime/include/abi_bridge.h:185-203 | Restores exactly the masked registers and leaves the others to the callee. |
| `FprGuard.Call` | runtime/include/abi_bridge.h:148-219 | Around any callee, nested guards included, the result is read off the masks alone, whichever way each guard copies. |
| `DispatchTable.FindStaticIndirectDispatchEntry` | runtime/include/abi_bridge.h:98-136 | The stepwise search of segments, pages and entries computes the specified lookup. |
| `DispatchTable.TableIsLinearSearch` | runtime/include/abi_bridge.h:98-136 | A table that finds its own entries answers every address as a linear search would. |
| `DispatchTable.GeneratedTablesFindTheirEntries` | runtime/include/abi_bridge.h:66-136 | For sorted entries that is so if and only if each entry lies in the page of its address: the 4 KiB page that the segment of its 16 MiB lists. |
| `DispatchTable.SearchIsLowerBound` | runtime/include/abi_bridge.h:115-133 | The binary search ends at the lower bound. |
| `DispatchTable.LowerBound` | runtime/include/abi_bridge.h:115-133 | The search loop computes it. |
| `Dispatch.WinnerBeatsAll` | runtime/src/abi_bridge.cpp:126-147 | The winner of an address beats every other registration of it. |
| `Dispatch.WinnerRanksHighest` | runtime/src/abi_bridge.cpp:97-147 | The winner of an address is a registration of it that no other exceeds in priority, 0 read as 0, 100 or 10000 by kind, then in kind, native over mod over base, then in module; there is one exactly if the address is registered. |
| `Dispatch.OverridesWin` | runtime/src/abi_bridge.cpp:97-147 | Where priorities are left to the kinds, a native registration replaces translated ones, and a mod's the base's. |
| `Dispatch.BetterIsHigherRank` | runtime/src/abi_bridge.cpp:109-147 | The comparison of two candidates is the order of their ranks, and two registrations are the same exactly if address and rank agree. |
| `Dispatch.WinnerIsOrderFree` | runtime/src/abi_bridge.cpp:126-147 | So the winner does not depend on registration order. |
| `Dispatch.LookupAnswersTheWinner` | runtime/include/abi_bridge.h:356-388 | Generated table, binary searches and dynamic list together answer what the winners say. |
| `Dispatch.PublishedAnswerCallsTheWinner` | runtime/src/abi_bridge.cpp:180-200 | An address is published exactly if its winner can be called and stays dynamic or is in the generated table; what is published calls it, guards just the nonvolatile floating-point registers it writes, and keeps the general ones around native functions but the one that loads a context. |
| `Dispatch.ListDynamicWinners` | runtime/src/abi_bridge.cpp:149-200 | The dynamic list holds exactly the winners the table does not, sorted. |
| `Dispatch.ValidateTable` | runtime/src/abi_bridge.cpp:202-253 | A table passes if and only if it is there, its targets are aligned, it finds its own entries, they are the translated winners, and no translated winner is left out. |
| `Dispatch.ValidateEntries` | runtime/src/abi_bridge.cpp:211-240 | Valid exactly if every entry is sorted, found and backed by a translated winner. |
| `Dispatch.ValidateCoverage` | runtime/src/abi_bridge.cpp:242-252 | Valid exactly if every translated winner is in the table. |
| `Dispatch.Registry.RegisterTable` | runtime/src/abi_bridge.cpp:256-275 | One table, before publication only. |
| `Dispatch.Registry.Register` | runtime/src/abi_bridge.cpp:296-338 | Adds the registration with its priority resolved, ignores it exactly if one of the same address and rank is there, refuses after publication; the index keeps naming the winners. |
| `Dispatch.Registry.Finalize` | runtime/src/abi_bridge.cpp:340-370 | Publishes once and for all, if and only if there is no generated table or it passes. |
| `Dispatch.Memos.FindByAddress` | runtime/include/abi_bridge.h:336-354 | Always the winner; remembered after publication, and only then. |
| `Dispatch.Memos.FindRawByAddress` | runtime/include/abi_bridge.h:356-372 | With hash collisions in the memo, the published answer after publication and nothing before; no miss before publication is remembered. |
| `Dispatch.Registry.ResolveRaw` | runtime/include/abi_bridge.h:374-388 | The memo miss gives the published answer. |
| `Dispatch.Registry.FindByAddressSlow` | runtime/src/abi_bridge.cpp:372-389 | The index lookup gives the winner. |
| `DispatchRuns.Process.Run` | runtime/include/abi_bridge.h:336-559 | Over every run of registrations, publication, lookups through the memos and calls, of any number of threads interleaved access by access: what is remembered and latched is always the published answer and nothing from before publication, every lookup answers the winner of that moment, and every call the winner of a moment during it. The registry itself is, from event to event, what the registrations and the publication make of it. |
| `DispatchRuns.Apply` | runtime/src/abi_bridge.cpp:256-372 | A registration adds its function unless it is there already, a table is taken if there is none, publication goes through without a table or with a valid one; and nothing changes once it has. |
| `DispatchRuns.AnswersAreFinal` | runtime/include/abi_bridge.h:516-559 | Every lookup and every call begun after publication answers what the registry says at the end of the run. |
| `DispatchRuns.Process.Proceed` | runtime/include/abi_bridge.h:516-559 | Each access of a call brings it nearer its reply, which fits; a call ends within four accesses. |
| `DispatchRuns.CallSite.Step` | runtime/include/abi_bridge.h:516-559 | One access of a call: the latch, the publication flag, the resolution, the store; what is latched is right whatever has happened between. |
| `DispatchRuns.CallSite.ResolveCached` | runtime/include/abi_bridge.h:516-535 | Whatever is registered and published between its reads, the target is the winner, and what is latched the published one. |
| `DispatchRuns.CallSite.IsBaseTranslatedActive` | runtime/include/abi_bridge.h:543-559 | Likewise for the verdict, which is positive exactly if the winner is base translation; before publication nothing is latched. |
| `DispatchRuns.ActiveUntilOverridden` | runtime/include/abi_bridge.h:543-559 | Where priorities are left to the kinds, base translation is active exactly as long as neither a mod nor the runtime has registered the address. |
| `ConfigEditor.SetThenGet` | Launcher/WiiCompiled.Setup.Common/RuntimeConfiguration.cs:100-105 | After a set, raw value plus unquoting returns exactly the value, whatever quotes, backslashes or `#` it holds and whatever the lines, if and only if the section's header reads back as written. |
| `ConfigEditor.SetThenGetOther` | Launcher/WiiCompiled.Setup.Common/RuntimeConfiguration.cs:182-223 | Every other key of every section reads as before. |
| `ConfigEditor.SetTwice` | Launcher/WiiCompiled.Setup.Common/RuntimeConfiguration.cs:182-223 | The last set wins; a set is idempotent. |
| `ConfigEditor.ForgetUndoesSet` | Launcher/WiiCompiled.Setup.Common/RuntimeConfiguration.cs:124-153 | Removing the owned key just set restores the lines, if and only if the first section of that name was there without the key. |
| `ConfigEditor.SetPathThenGetPath` | Launcher/WiiCompiled.Setup.Common/RuntimeConfiguration.cs:100-105 | Through the file: a path set is read back exactly, if and only if it holds no line break. |
| `ConfigEditor.PathSurvivesTheFile` | Launcher/WiiCompiled.Setup.Common/RuntimeConfiguration.cs:82-122 | Through the file, in a portable root and outside: the path set is the one the runtime resolves and the one that counts as owned. |
| `PortablePaths.StoredPathResolves` | Launcher/WiiCompiled.Setup.Common/RuntimeConfiguration.cs:97-122 | What is stored for a path, relative or absolute, resolves to that path. |
| `PortablePaths.MovedRootKeepsWorking` | Launcher/WiiCompiled.Setup.Common/RuntimeConfiguration.cs:107-122 | Wherever a portable root is moved, a path stored inside it is found where it was moved to. |
| `PortablePaths.StoredInsideMoves` | Launcher/WiiCompiled.Setup.Common/RuntimeConfiguration.cs:107-122 | A path inside the nearest marked root, at most four levels up, is stored so that it is found wherever that root is moved to. |
| `PortablePaths.StoredOutsideStays` | Launcher/WiiCompiled.Setup.Common/RuntimeConfiguration.cs:107-122 | Any other is stored so that it is the same from any directory. |
| `PortablePaths.RelativeRoundTrip` | Launcher/WiiCompiled.Setup.Common/RuntimeConfiguration.cs:117-121 | The relative way to a path leads to it. |
| `PortablePaths.AbsoluteRoundTrip` | Launcher/WiiCompiled.Setup.Common/RuntimeConfiguration.cs:112-116 | So does its full spelling, from any directory. |
| `PortablePaths.WalkStaysOnItsDrive` | Launcher/WiiCompiled.Setup.Common/RuntimeConfiguration.cs:97-98 | No stored text leads up from a drive. |
| `ConfigEditor.WrittenLinesReadBack` | Launcher/WiiCompiled.Setup.Common/RuntimeConfiguration.cs:225-230 | Lines written are the lines read, if and only if there are any and none holds a line break. |
| `ConfigEditor.LinesEndAtBreaks` | Launcher/WiiCompiled.Setup.Common/RuntimeConfiguration.cs:225-230 | A text is read line by line, each ended by a line feed, a carriage return or both. |
| `ConfigEditor.UnreadableHeaderIsNeverFound` | Launcher/WiiCompiled.Setup.Common/RuntimeConfiguration.cs:156-178 | A section name whose header does not survive comment stripping and trimming is never found. |
| `ConfigEditor.SetLinesReadBack` | Launcher/WiiCompiled.Setup.Common/RuntimeConfiguration.cs:225-230 | The file left by a set reads back as the edited lines. |
| `ConfigEditor.LineList.SetSectionValue` | Launcher/WiiCompiled.Setup.Common/RuntimeConfiguration.cs:182-223 | The two scans and the backward walk over blank lines compute the specified edit. |
| `ConfigEditor.LineList.FindSection` | Launcher/WiiCompiled.Setup.Common/RuntimeConfiguration.cs:185-198 | The first section of that name, and its end. |
| `ConfigEditor.FindValue` | Launcher/WiiCompiled.Setup.Common/RuntimeConfiguration.cs:156-178 | The reading loop finds the first match, over all sections of that name. |
| `ConfigEditor.ConfigFile.SetPath` | Launcher/WiiCompiled.Setup.Common/RuntimeConfiguration.cs:100-122 | Reads the file or its default, sets the key to the path as it is stored inside or outside a portable root, writes all lines. |
| `ConfigEditor.ConfigFile.GetPath` | Launcher/WiiCompiled.Setup.Common/RuntimeConfiguration.cs:79-80 | The unquoted value of the first match, or nothing. |
| `ConfigEditor.ConfigFile.GetResolvedPath` | Launcher/WiiCompiled.Setup.Common/RuntimeConfiguration.cs:87-91 | What is stored for the key, resolved against the directory of the file; nothing for a blank text. |
| `ConfigEditor.ConfigFile.SetRetroRewindRoot` | Launcher/WiiCompiled.Setup.Common/RuntimeConfiguration.cs:65-70 | Writes the file with that key set; the root set is the one found from now on, whether it is stored relative or absolute, if its text has no line break. |
| `ConfigEditor.ConfigFile.RemovePathIfOwned` | Launcher/WiiCompiled.Setup.Common/RuntimeConfiguration.cs:124-153 | Removes the first match if it is a string that resolves to the expected path, and otherwise leaves the file alone. |
| `LineEdits.SetIsFound` | Launcher/WiiCompiled.Setup.Common/RuntimeConfiguration.cs:182-223 | The entry set is the first of its key in its section, duplicate sections included. |
| `LineEdits.SetKeepsOthers` | Launcher/WiiCompiled.Setup.Common/RuntimeConfiguration.cs:182-223 | A set is invisible to every other section and key. |
| `LineEdits.SetKeepsOtherLines` | Launcher/WiiCompiled.Setup.Common/RuntimeConfiguration.cs:182-223 | All other lines survive in order: at most one line is replaced, and it set the key; or the entry is put at the end of its section, before the blank lines there; or, exactly if no line is the header, a section with the entry is appended after a blank line. The entry is always the first of its key in its section. |
| `LineEdits.LastSetWins` | Launcher/WiiCompiled.Setup.Common/RuntimeConfiguration.cs:182-223 | A second set finds the entry of the first and replaces it. |
| `LineEdits.RemoveUndoesSet` | Launcher/WiiCompiled.Setup.Common/RuntimeConfiguration.cs:124-153 | A removal takes out the entry just set; the lines are the old ones exactly if it had been inserted. |
| `LineEdits.RemoveKeepsOthers` | Launcher/WiiCompiled.Setup.Common/RuntimeConfiguration.cs:124-153 | A removal is invisible to every other section and key. |
| `LineEdits.InsideOneName` | Launcher/WiiCompiled.Setup.Common/RuntimeConfiguration.cs:156-178 | A place in the file is inside sections of one name only. |
| `TomlText.UnquoteUndoesQuote` | Launcher/WiiCompiled.Setup.Common/RuntimeConfiguration.cs:268-297 | Unquoting undoes quoting for every string. |
| `TomlText.TwoPassesAreOne` | Launcher/WiiCompiled.Setup.Common/RuntimeConfiguration.cs:268-269 | Doubling backslashes and then escaping quotes is one pass over the characters. |
| `TomlText.QuotedHasNoComment` | Launcher/WiiCompiled.Setup.Common/RuntimeConfiguration.cs:247-266 | Nothing in a quoted value starts a comment. |
| `TomlText.WrittenEntryReadsBack` | Launcher/WiiCompiled.Setup.Common/RuntimeConfiguration.cs:239-269 | The line written for an entry is read back as that entry. |
| `TomlText.StrippedTwice` | Launcher/WiiCompiled.Setup.Common/RuntimeConfiguration.cs:247-266 | Stripping comment and white space is idempotent. |
| `TomlText.RemoveComment` | Launcher/WiiCompiled.Setup.Common/RuntimeConfiguration.cs:247-266 | The loop cuts the line at the comment the quote state machine finds. |
| `TomlGrammar.CommentExactly` | Launcher/WiiCompiled.Setup.Common/RuntimeConfiguration.cs:247-266 | Just the comment is cut off: a `#` starts one outside of quotes only, a backslash hides a quote between double quotes only, and in a quote that is never closed nothing is a comment. |
| `TomlGrammar.EveryLineIsSpelled` | Launcher/WiiCompiled.Setup.Common/RuntimeConfiguration.cs:247-266 | And every line is of that form: plain characters, quoted strings, and an ending. |
| `TomlGrammar.EntryReads` | Launcher/WiiCompiled.Setup.Common/RuntimeConfiguration.cs:163-172 | An entry is read as its key and value with any white space around them and any comment after it. |
| `TomlGrammar.HeaderReads` | Launcher/WiiCompiled.Setup.Common/RuntimeConfiguration.cs:163-166 | So is a header. |
| `TomlGrammar.TrimTakesWhite` | Launcher/WiiCompiled.Setup.Common/RuntimeConfiguration.cs:163-172 | Trimming takes off white space at both ends, all of it and nothing else. |
| `TomlText.TryUnquoteToml` | Launcher/WiiCompiled.Setup.Common/RuntimeConfiguration.cs:271-297 | The loop computes the unescaped text of a quoted literal, and fails on anything else. |
| `TomlGrammar.UnquotedExactly` | Launcher/WiiCompiled.Setup.Common/RuntimeConfiguration.cs:271-297 | A literal string is taken as it stands; in a basic one a backslash stands for the character after it, and a last one for itself. |
| `TomlGrammar.BodyIsSpelled` | Launcher/WiiCompiled.Setup.Common/RuntimeConfiguration.cs:271-297 | And every text between double quotes is of that form. |
| `TomlGrammar.OnlyQuotedIsUnquoted` | Launcher/WiiCompiled.Setup.Common/RuntimeConfiguration.cs:271-297 | Nothing but a text between two equal quotes can be unquoted. |
| `GuestWrites.SkipMeansUntouched` | runtime/include/gx_guest_write.h:58-106 | While no counter of the range has wrapped, a digest is trusted exactly when the range is tracked and no notification has bumped any of its granules since. |
| `GuestWrites.SkippingIsSound` | runtime/include/gx_guest_write.h:19-106 | Then no notified write has hit the range: no byte written shows, under any cached, uncached or physical alias, a byte of the range. |
| `GuestWrites.AliasesShareTheirAddress` | runtime/include/gx_guest_write.h:19-39 | Two addresses of RAM have one canonical address if and only if they show the same byte of the same memory, read off the six windows. |
| `GuestWrites.OutsideWindowsNothingMoves` | runtime/include/gx_guest_write.h:19-39 | An address that shows no RAM is its own canonical address. |
| `GuestWrites.WritesElsewhereKeepTheDigest` | runtime/include/gx_guest_write.h:58-106 | And the digest of a range of RAM stays trusted as long as no write shares a 64 KiB block of its memory with it. |
| `GuestWrites.GenerationIsNotTheSentinel` | runtime/include/gx_guest_write.h:58-80 | The folded sum is the untracked sentinel exactly for untracked ranges. |
| `GuestWrites.TrustedExactly` | runtime/include/gx_guest_write.h:58-106 | Without that bound, for every range: a digest is trusted if and only if the range is tracked and the bumps of its granules come to exactly 2^32 times the wraps of their counters. |
| `GuestWrites.OneGranuleExactly` | runtime/include/gx_guest_write.h:58-106 | Of a range within one granule: exactly when the writes since come to a multiple of 2^32. |
| `GuestWrites.WrappedCounterIsTrusted` | runtime/include/gx_guest_write.h:58-80 | A concrete run of 2^32 writes after which the digest of overwritten bytes is trusted, against the comment that a sum never recurs. |
| `GuestWrites.FoldGrows` | runtime/include/gx_guest_write.h:55-80 | The fold only grows, and exactly when something was bumped. |
| `GuestWrites.HitsAreBumps` | runtime/include/gx_guest_write.h:19-99 | A write of which a byte shows a byte of a range, through any window, bumps one of its granules. |
| `GuestWrites.WindowsAreLinear` | runtime/include/gx_guest_write.h:19-39 | Within one RAM window canonical addresses run on byte by byte. |
| `GuestWrites.Tracker.NotifyWrite` | runtime/include/gx_guest_write.h:82-99 | Every covered granule is bumped once, both ends included, and no other. |
| `GuestWrites.Tracker.GenerationForRange` | runtime/include/gx_guest_write.h:58-80 | The loop computes the fold of the covered counters; the adjustment away from the sentinel never happens. |
| `Convergence.SecondRunIsNoOp` | Launcher/WiiCompiled.Setup.Windows/ProductRepairService.cs:122-205 | After a publication the same reconciliation takes the no-op exit, if and only if whatever was rebuilt was rebuilt with the disc's file table in place and from support files the toolkit's record names. |
| `Convergence.PublishedIsCurrent` | Launcher/WiiCompiled.Setup.Windows/ProductRepairService.cs:285-310 | Every sound publication leaves both products Current under the inspection, whatever state they were found in. |
| `Convergence.NothingToDoMeansCurrent` | Launcher/WiiCompiled.Setup.Windows/ProductRepairService.cs:199-205 | The no-op exit is taken only when inspection finds both products Current. |
| `Convergence.FreshInspectionAgrees` | Launcher/WiiCompiled.Setup.Windows/Installation.cs:383-412 | An inspection that hashes the payload cache itself agrees, if and only if the recorded payload length is right. |
| `ProductFacts.BaseIsCurrentExactly` | Launcher/WiiCompiled.Setup.Windows/Installation.cs:260-293 | The base game is Current if and only if a usable executable is there that this toolkit built from the installed game - every record of the three hashes is that of the file in place - and its support files are the toolkit's. |
| `ProductFacts.RetroIsCurrentExactly` | Launcher/WiiCompiled.Setup.Windows/Installation.cs:300-412 | Retro Rewind is Current if and only if the same holds of it, its records agree on the payload, the compile inputs on record are those there are now, and a downloaded payload is on record and in place; PayloadChanged if only the last fails; Absent if it is neither there nor on record. |
| `ProductFacts.BaseStatusNamesTheReason` | Launcher/WiiCompiled.Setup.Windows/Installation.cs:272-293 | Any other status of the base game names its reason. |
| `ProductFacts.RetroStatusNamesTheReason` | Launcher/WiiCompiled.Setup.Windows/Installation.cs:312-376 | So does any other status of Retro Rewind. |
| `Convergence.BaseSettles` | Launcher/WiiCompiled.Setup.Windows/Installation.cs:272-293 | The base product, rebuilt or kept, is Current afterwards, with valid support files and no drift of inputs. |
| `Convergence.RebuiltRetroSettles` | Launcher/WiiCompiled.Setup.Windows/Installation.cs:312-376 | A rebuilt Retro Rewind is Current afterwards, in either payload mode. |
| `Convergence.KeptRetroSettles` | Launcher/WiiCompiled.Setup.Windows/Installation.cs:312-376 | So is one that was kept, its payload cache or support files published as needed. |
| `Convergence.UntouchedRetroSettles` | Launcher/WiiCompiled.Setup.Windows/ProductRepairService.cs:152-162 | A base-only operation leaves Retro Rewind current, or not installed. |
| `Convergence.BuildMatchesInputs` | Launcher/WiiCompiled.Setup.Windows/ProductRepairService.cs:619-660 | The hashes a build records match the installed game, the new state and the release. |
| `Convergence.StateKeepsInputs` | Launcher/WiiCompiled.Setup.Windows/ProductRepairService.cs:555-602 | The rewritten state still matches a product that was kept. |
| `Publication.PublishProducts` | Launcher/WiiCompiled.Setup.Windows/ProductRepairService.cs:416-471 | A publication is all or nothing: wherever it and any number of recoveries are interrupted, a completed recovery leaves the products that were rebuilt as their own builds put them out, the support files that were copied, the payload as it was staged or empty if it is skipped, and the new state, everything else about them as it was, and the configuration as it was written; or all of them and the configuration as they were. The rest of the disk is untouched. A faultless start completes, and on a disk without faults and with no file in the way it is published. |
| `Publication.PublicationSettles` | Launcher/WiiCompiled.Setup.Windows/ProductRepairService.cs:416-456 | After a commit `Base` is the old `base-output` exactly if it was rebuilt, `RetroRewind` the old `retro-output`, each support file its own copy, the payload the staged one or empty, the state the new one; and whatever the decision does not name is unchanged. |
| `Publication.PublicationStarts` | Launcher/WiiCompiled.Setup.Windows/ProductRepairService.cs:416-471 | The transaction accepts the plan, with nothing in its way if no file stands where the installation has directories. |
| `Publication.CollectEntries` | Launcher/WiiCompiled.Setup.Windows/ProductRepairService.cs:416-456 | The list of entries, put together step by step, is the specified one. |
| `Publication.PlanMeetsTheTransaction` | Launcher/WiiCompiled.Setup.Windows/ProductRepairService.cs:416-471 | The plan is always one the transaction accepts and recovers: between 1 and 8 entries, all paths disjoint, apart from the configuration and the journal. |
| `Publication.PlanIsPublishable` | Launcher/WiiCompiled.Setup.Windows/ProductRepairService.cs:416-456 | A plan that is published has between 1 and 8 entries, whose destinations never overlap. |
| `Publication.PreparedApart` | Launcher/WiiCompiled.Setup.Windows/ProductRepairService.cs:416-456 | Nor do the prepared paths, all of which lie in the scratch space. |
| `Reconciliation.PayloadIsStaged` | Launcher/WiiCompiled.Setup.Windows/ProductRepairService.cs:428-434 | The throw for a payload that was not staged is never reached. |
| `RepairService.ProductRepairService.Plan` | Launcher/WiiCompiled.Setup.Windows/ProductRepairService.cs:76-205 | The step-by-step decision, with its refusals, is the specified one. |
| `ProductFacts.RefusedExactly` | Launcher/WiiCompiled.Setup.Windows/ProductRepairService.cs:76-162 | A request for both products is refused before anything is built only for what it lacks, one for the base game also if Retro Rewind is there, or on record, and not current. |
| `ProductFacts.DecidedExactly` | Launcher/WiiCompiled.Setup.Windows/ProductRepairService.cs:122-205 | A product is rebuilt if and only if it is not what its records say or the release, the compile inputs, the payload or its mode ask for another; otherwise just its support files are put right; the payload is published if and only if the request is online and the payload not in the cache or built in, the root if it is not on record. |
| `ProductFacts.PublishableExactly` | Launcher/WiiCompiled.Setup.Windows/ProductRepairService.cs:619-660 | A decision can be carried out if and only if builds find the toolkit of its record and the game they are for installed, and copies of the support files a workspace with those on record. |
| `ProductFacts.PublishedExactly` | Launcher/WiiCompiled.Setup.Windows/ProductRepairService.cs:285-310 | A publication puts in each rebuilt product its own build, replaces support files where decided, leaves the payload that was asked for and the root in place, and touches nothing else. |
| `ProductFacts.StateExactly` | Launcher/WiiCompiled.Setup.Windows/ProductRepairService.cs:555-602 | The state it writes records this root, the release's game inputs, the compile inputs and root that were asked for, and the payload of the product now installed; anything else stays. |
| `ProductFacts.RebuiltRecordsExactly` | Launcher/WiiCompiled.Setup.Windows/ProductRepairService.cs:619-660 | What is recorded beside a rebuilt product: the toolkit, the hashes of its executable and of the game it was translated from, the compile inputs and the payload that were asked for. |
| `RepairService.ProductRepairService.Reconcile` | Launcher/WiiCompiled.Setup.Windows/ProductRepairService.cs:76-310 | Changes nothing unless it publishes; finds nothing to do exactly if inspection finds both products Current and every record agrees with the request; what it has published is in that state if and only if whatever was rebuilt was rebuilt with the disc's file table in place and from authentic support files. |
| `RepairService.ProductRepairService.ReconcileTwice` | Launcher/WiiCompiled.Setup.Windows/ProductRepairService.cs:76-310 | The second run with the same request finds nothing to do exactly if the first found nothing or published so; a refusal is repeated. |
| `TreeIdentity.IdentityIsFaithful` | Launcher/WiiCompiled.Setup.Windows/ToolkitFingerprint.cs:136-180 | For names without `/`, bars and line breaks and a digest without collisions, two sets of runtime assets have the same identity exactly when their trees have the same files with the same hashes and the same directories, and their two single files have the same hashes. |
| `TreeIdentity.ProductRuntimeAssetsMatch` | Launcher/WiiCompiled.Setup.Windows/ToolkitFingerprint.cs:163-180 | The copies beside a product match the identity of their sources exactly when both are complete and the same. |
| `TreeIdentity.ComputeRuntimeAssets` | Launcher/WiiCompiled.Setup.Windows/ToolkitFingerprint.cs:136-147 | Refuses exactly a missing or empty tree and a missing file; otherwise the identity is that of a dictionary that describes the tree and the two files. |
| `TreeIdentity.DictionaryIsFaithful` | Launcher/WiiCompiled.Setup.Windows/ToolkitFingerprint.cs:243-261 | The dictionary and the tree below the root determine each other, empty directories included. |
| `TreeIdentity.TextIsFaithful` | Launcher/WiiCompiled.Setup.Windows/ToolkitFingerprint.cs:272-279 | Two clean dictionaries have the same text exactly when they are equal. |
| `TreeIdentity.BuildIdentity` | Launcher/WiiCompiled.Setup.Windows/ToolkitFingerprint.cs:272-279 | The digest of the version and the entries in ordinal key order, which the loop appends. |
| `Ordinal.LessEqExactly` | Launcher/WiiCompiled.Setup.Windows/ToolkitFingerprint.cs:140-147 | Keys are ordered by the first character in which they differ, and a prefix comes first. |
| `TreeIdentity.AddMappedDirectory` | Launcher/WiiCompiled.Setup.Windows/ToolkitFingerprint.cs:243-261 | Refuses a missing or empty directory; otherwise the dictionary holds exactly the files and the childless directories. |
| `TreeIdentity.LinesAreInjective` | Launcher/WiiCompiled.Setup.Windows/ToolkitFingerprint.cs:272-279 | The lines determine the entries. |
| `TreeIdentity.KeysAreInjective` | Launcher/WiiCompiled.Setup.Windows/ToolkitFingerprint.cs:253-260 | A key names one entry of one kind. |
| `TreeIdentity.HasLeaf` | Launcher/WiiCompiled.Setup.Windows/ToolkitFingerprint.cs:253-260 | Every directory holds, at some depth, something that has a key. |
| `TreeWalk.EnumerateRegularTree` | Launcher/WiiCompiled.Setup.Common/FileSystemUtilities.cs:34-78 | The worklist walk ends and lists every entry below the root exactly once, sorted by relative path, with directories and childless directories flagged as they are. |
| `TreeWalk.VisitKeepsInv` | Launcher/WiiCompiled.Setup.Common/FileSystemUtilities.cs:44-73 | Visiting one waiting directory keeps the walk's invariant and meets nothing twice. |
| `TreeWalk.SeeAll` | Launcher/WiiCompiled.Setup.Common/FileSystemUtilities.cs:50-68 | The entries of a directory are listed or stacked, in whatever order they come. |
| `TreeWalk.AllVisited` | Launcher/WiiCompiled.Setup.Common/FileSystemUtilities.cs:44-73 | When nothing waits, every directory has been visited. |
| `Crc.BurstIsDetected` | runtime/include/nand_first_run.h:33-45 | Any error burst of at most 16 bits changes the CRC. |
| `Crc.PolynomialGoesUnseen` | runtime/include/nand_first_run.h:33-45 | Sixteen is the most: the polynomial itself, 17 bits, changes the CRC of no message. |
| `Crc.CrcOfOneIsThePolynomial` | runtime/include/nand_first_run.h:33-45 | The law that names the polynomial: the CRC of the byte 1 is 0x1021. |
| `Crc.CrcIsLinear` | runtime/include/nand_first_run.h:33-45 | The CRC is linear under exclusive or of equal-length strings. |
| `Crc.AppendedCrcIsZero` | runtime/include/nand_first_run.h:33-59 | A string followed by two bytes has CRC zero exactly when they are its CRC, high byte first. |
| `Crc.Crc16Ccitt` | runtime/include/nand_first_run.h:34-45 | The nested loops compute bit-serial polynomial division. |
| `Crc.MakeEmptyMiiDatabase` | runtime/include/nand_first_run.h:47-59 | Both magics in place, everything else zero, and the CRC of the whole file zero. |
| `Crc.ByteOfIsBinary` | runtime/include/nand_first_run.h:47-59 | A byte of the database stands for its number, most significant bit first. |
| `Sysconf.RoundTrip` | runtime/include/nand_first_run.h:127-174 | For any well-formed items a reader of the stated layout recovers those placed, and the whole list exactly when it fits. |
| `Sysconf.PlacesAllItCan` | runtime/include/nand_first_run.h:141-150 | The items placed are the longest run from the start that ends by 0x3FAE. |
| `Sysconf.MakeSysconf` | runtime/include/nand_first_run.h:127-174 | The moving-cursor writer computes the specified image. |
| `Sysconf.WriteItem` | runtime/include/nand_first_run.h:150-168 | One item's bytes, and nothing else, are written at the cursor. |
| `Sysconf.DecodesWritten` | runtime/include/nand_first_run.h:150-168 | An item is read back where it was written. |
| `Sysconf.EncodedAs` | runtime/include/nand_first_run.h:150-168 | The bytes of an item: type and length of the name in one, the name, for an array its length less one in two or one, and the value. |
| `SysconfLayout.TailIsFooter` | runtime/include/nand_first_run.h:147-173 | Even when the list does not fit, nothing but the footer, at 0x3FFC, stands from 0x3FAE on. |
| `SysconfLayout.HeadIsMagicAndCount` | runtime/include/nand_first_run.h:131-139 | The file starts with its magic and the count, high byte first; the first item follows the table. |
| `SysconfLayout.ChunksDoNotOverlap` | runtime/include/nand_first_run.h:138-168 | Offsets strictly increase, items do not overlap, and none crosses 0x3FAE. |
| `SysconfLayout.CountIsOfTheList` | runtime/include/nand_first_run.h:134-135 | The header's count is that of the list, placed or not: it is the table's exactly when the list fits. |
| `SysconfLayout.ImageIsFound` | runtime/include/nand_first_run.h:137-168 | Each slot of the table holds, high byte first, the offset at which its item's bytes stand. |
| `SysconfLayout.FillKeeps` | runtime/include/nand_first_run.h:141-168 | Writing the rest of the list disturbs nothing written before. |

## Left out

- InstallTransactions.InstallTransaction.Begin: promises recovery only for entry paths of which none is in another's way, for a configuration and a journal apart from them, and for random identifiers and names of temporaries that are not taken; the source checks the first except for drive roots, and neither of the others.
- InstallTransactions.InstallTransaction.RecordRuntimeConfigurationMutation: promises recovery only for the configuration as it was at `Begin`; any other snapshot is what a rollback would restore.
- InstallRuns.AllOrNothing: the caller does not commit after a publication whose failure it has caught; `InstallRuns.Session` says what such a commit takes to be sound.
- InstallRuns.Session: calls after a commit that went through are not run; all but a write of the configuration would be refused.
- InstallMachine.Machine.Move: does not model the retries against antivirus scanners, nor file attributes and links.
- FrameWorker.AllowPreparation: the early return for a busy worker is optimistic, so nothing is claimed about a prepared frame; `FrameWorker.BeginFrameAnswersTheRenderer` says what the other answers of `begin_frame` mean.
- FrameWorker.ProducerStep: does not model the threaded GX decode worker, the wait callbacks that pump guest timing, and the wait for an idle presenter while the surface changes.
- Presenter.PresenterState.PopJob: does not model the sleep until a deadline, nor the presentation itself.
- Schedule.PresentationSchedule.ScheduleGroup: times and intervals do not wrap around in 64 bits.
- GuestMemory.Memory.RebuildFastPaths: starts from any page entries; the regions they are made from, and the moment between the registration of an executable range and the rebuild, are left out.
- GuestMemory.Memory.TryWriteGuestScalar: does not model what happens after a failed fast path; the checked slow path is not part of this model.
- Dispatch.Memos.FindRawByAddress: the memo slot is a function of the address; weak memory ordering is not modelled, each atomic access is one step.
- FprGuard.Call: the general-purpose register guard, which has no bit trick, is left out.
- ConfigEditor.SetThenGet: keys are free of quotes, `#`, `=` and outer white space, as all keys the editor is used with are.
- ConfigEditor.ConfigFile.SetPath: which directories carry the portable-root marker is a parameter; paths are sequences of case-folded components, and network paths are left out.
- GuestWrites.SkippingIsSound: writes and ranges lie inside one RAM window each; a range across the end of a window has no single canonical run.
- RepairService.ProductRepairService.Reconcile: downloading or recovering the payload snapshot, the running-product guard, disk space and cancellation are left out, and a workspace input refreshed before a refusal is not recorded.
- RepairService.ProductRepairService.Plan: a build that fails or emits other provenance is left out; the local provenance of the base product is taken to match.
- Publication.PublishProducts: the scratch space, the staged files, the empty directory for a skipped payload and the copied configuration are taken to be in place as the steps before it left them.
- Convergence.SecondRunIsNoOp: the second run is given the same request, including the same payload snapshot.
- TreeWalk.EnumerateRegularTree: reparse points, which the walk rejects, are left out.
- TreeIdentity.IdentityIsFaithful: SHA-256 is a digest without collisions.
- Sysconf.RoundTrip: the reader is written from the layout comment, since the repository has none of its own.
- The translator, rendering, input, windows, logging and the database helpers: their hard parts lie in libraries and generated code.
- Downloads, process launching, shortcuts, registry entries, command lines and progress reports: plumbing with easy single-function facts.
- The Linux installer's flow: it shares the configuration editor and the file-system helpers modelled here.
