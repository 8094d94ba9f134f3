# PolarOS: verified model of the kernel's algorithms and state machines

PolarOS is a small x86_64 kernel. This project models the parts of it that decide something and proves
what they are for:

- **RAM file system and its image.** The directory tree edited in place by path is proved to behave as one
  flat, prefix-closed map from paths to files and directories. The recursive image encoder and the
  bounds-checked decoder are proved to be inverse exactly on the trees whose sizes fit the format, to notice
  every truncation, and to normalise every input that loads at all.
- **Disk image.** `save` and `load` cut the image into sectors behind an 8-byte header; the sectors go
  through four LBA registers and a 16-bit data port. From any earlier disk contents, saving and loading
  restores the tree exactly when it fits the format; failed accesses are accounted for one by one.
- **Scheduler and context switch.** The task table implements a FIFO queue with quanta; its invariant holds
  over every run, waiting is bounded by an exact number of ticks, the dead never run. Below it, the pushes
  and pops of `switch_context`, of the timer handler and of `Task::new` give every task its registers and
  stack back, whatever the others did. `Kernel` couples both: every switch the scheduler decides on can be
  carried out, and a task interrupted by the timer gets back every register and its stack within a bounded
  number of ticks, whatever the others do.
- **Raster algorithms.** `draw_line` paints a connected line of nearest points between both ends in exact
  16-bit arithmetic; `fill_polygon` paints the even-odd interior.
- **Resources, console, parsing.** The frame allocator enumerates usable frames, descriptors deliver file
  prefixes, the VGA console shows a window onto a wrapped log, `pwd` output parses back, and the two
  redirection parsers read back what is written for them and are compared with each other.

Code that works in place is modelled in place (classes with `modifies`, arrays, loops with invariants), and
each method is proved against a specification function or predicate; the laws are lemmas about those
specifications. What such a function computes is in turn fixed without it: by what changes and what stays, by
coordinates and bytes, or by numbers from the start state of the kernel. File names and directories are byte
strings of well-formed UTF-8 (sections 3 and 4 of RFC 3629).
Each Dafny file holds one module of the same name.

Where the properties one would hope for do not hold of the code, the code is kept as it is and the exact
boundary is proved:

- killing keeps the task table sound if and only if the victim is not the running task (`KillIsSafeIff`), and
  a state with a running task other than the kernel is reachable (`SelfKillIsReachable`); the comment at
  src/kernel/task/scheduler.rs:240 says the current task is never removed, the code removes it. In this
  repository `cmd_kill` is called from the terminals of the event loop only, which task 0 runs
  (src/main.rs:45, src/gui/mod.rs:69-110), so there the victim is never the running task;
- a memory map loses usable frames for good if and only if some region stands before, in the map, a frame
  that lies below it in memory and that no earlier region has (`ServesAllIff`); where usable regions do not
  overlap, if and only if they are out of order (`DisjointMapServesAllIff`); the exact set is `Served`;
- column 0 of a polygon row is wrong in exactly described rows (`ColumnZeroBreaksIff`), and rows with more
  than 64 crossings lose the rest of them, which shows at exactly described pixels (`CrowdedRowBreaksIff`);
- 32-bit polygon arithmetic is exact on all polygons within a bound on their coordinates if and only if the
  bound is safe for the height of the screen (`SafeLimitIsExact`);
- 16-bit line arithmetic is exact on a line if and only if its two distances satisfy a condition in their
  greatest common divisor (`LineFitsIff`), and on all lines up to 10923 pixels and no greater bound
  (`SafeDistanceIsExact`);
- the two redirection parsers agree on exactly the described lines (`ParsersAgreeIff`);
- names longer than 255 bytes, directories of 65536 entries and files of 2^32 bytes spoil an image
  (`RoundTripIff`), and an image of 2^32 bytes or more is cut short on disk (`ReadWritten`, `SaveLoadIff`),
  or loses its header once its sector numbers wrap (`ReadWritten`);
- deleting a character undoes writing it except across a wrapped line (`DeleteUndoesIff`);
- with several terminals open, each with its own working directory (src/gui/mod.rs:113-127), all of them stay
  in existing directories if and only if none runs `rm` on an empty directory another is in, or loads a tree
  without it (`ShellsStayLiveIff`);
- the comment at src/kernel/syscall/handlers.rs:22 calls the descriptor table per-task; the code has one
  table for everyone, and so has the model.

## Model

| member | source | states |
|---|---|---|
| Names.AscendingUnique | src/fs/ramfs.rs:8-10 | two ascending enumerations of the same names are equal, so `BTreeMap` order determines a listing |
| Names.KeysInOrder | src/fs/ramfs.rs:60-63 | keys come out in the one ascending order, whatever order they were inserted in |
| Utf8.LessAtFirstDifference | src/fs/ramfs.rs:8-10 | one name comes before another if and only if it is smaller at the first byte where they differ, or ends there |
| Utf8.NamesAreEncodings | src/fs/ramfs.rs:100 | a byte string is accepted as a name if and only if it is the encoding of some Unicode scalar values, by the bit table of section 3 of RFC 3629 |
| RamFsCodec.SerializeDir | src/fs/ramfs.rs:56-79 | the loop appends exactly the encoding of the directory to what the buffer already held |
| RamFsCodec.SerializeEntry | src/fs/ramfs.rs:60-78 | one entry: type byte, truncated name length, name, then 32-bit length and contents or the subdirectory |
| RamFsCodec.DeserializeDir | src/fs/ramfs.rs:87-123 | on every input the loop with its cursor returns what the specification parses from there, stops at the first unread byte, and terminates |
| RamFsCodec.DeserializeEntry | src/fs/ramfs.rs:95-119 | one entry, with every bounds check and the UTF-8 check failing exactly where the specification fails |
| RamFsCodec.DeserializeContents | src/fs/ramfs.rs:103-110 | a length-prefixed file body is accepted exactly when all of it is there |
| Bytes.LittleEndian | src/fs/ramfs.rs:58-70 | the bytes of a count or length, weighted from the low one up, give the number |
| Bytes.ReadsLittleEndian | src/fs/ramfs.rs:90-105 | and are read with the same weights |
| ImageFormat.FileLayout | src/fs/ramfs.rs:60-71 | where type, name length, name, four bytes of length and contents of a file lie in the image |
| ImageFormat.LongNameLayout | src/fs/ramfs.rs:64-67 | a longer name is stored by its first 255 bytes |
| ImageFormat.ImageInNumbers | src/fs/ramfs.rs:50-79 | the image of a directory with two entries, byte by byte |
| ImageFormat.FileDecodesIff | src/fs/ramfs.rs:95-110 | a file is decoded if and only if the bytes begin with its own encoding |
| ImageFormat.SubdirDecodesIff | src/fs/ramfs.rs:95-116 | a subdirectory is decoded if and only if type byte, name length and name stand before bytes that decode to its entries |
| ImageFormat.DirDecodesIff | src/fs/ramfs.rs:87-123 | a directory is decoded if and only if a low-byte-first count and exactly that many entries are there; of entries with one name the last stays |
| ImageFormat.LoadsIff | src/fs/ramfs.rs:81-85 | an image loads if and only if it begins with a directory, whatever is behind it |
| RamFsCodecLaws.ParseEncodedDir | src/fs/ramfs.rs:56-123 | for every well-sized tree and any following bytes, decoding the image gives the tree and leaves exactly the following bytes |
| RamFsCodecLaws.DecodeFramed | src/fs/ramfs.rs:56-123 | the same for the cursor: started at the first byte of an embedded image it stops right behind its last |
| RamFsCodecLaws.LoadSerialized | src/fs/ramfs.rs:50-85 | loading a saved well-sized tree gives it back |
| RamFsCodecLaws.RoundTripIff | src/fs/ramfs.rs:50-123 | a tree survives saving and loading if and only if names, entry counts and file sizes fit their 8, 16 and 32 bits at every level |
| RamFsCodecLaws.ParsedDirIsWellSized | src/fs/ramfs.rs:87-123 | whatever any input decodes to respects the sizes of the format |
| RamFsCodecLaws.ParseDirOfPrefix | src/fs/ramfs.rs:87-123 | the decoder depends on exactly the bytes it consumes: cutting into them makes it fail, cutting behind them changes nothing |
| RamFsCodecLaws.TruncationIsDetected | src/fs/ramfs.rs:81-123 | every strict prefix of an image is refused |
| RamFsCodecLaws.EncodeEntriesPermuted | src/fs/ramfs.rs:60-78 | the length of a directory's image does not depend on the order of its entries |
| RamFsCodecLaws.InsertionLengthens | src/fs/ramfs.rs:119-121 | inserting an entry, also over an old one, lengthens the image by at most that entry |
| RamFsCodecLaws.ParsedDirCoversImage | src/fs/ramfs.rs:87-123 | the canonical image of what was decoded is no longer than the bytes consumed, duplicate and unsorted names included |
| RamFsCodecLaws.LoadedInputNormalises | src/fs/ramfs.rs:50-123 | any input that loads gives a well-sized tree that reloads to itself from its own, no longer image |
| FlatFs.FlatOpsKeepClosed | src/fs/ramfs.rs:147-195 | no operation ever leaves a live path whose parent is not a directory |
| FlatFs.FlatWriteWrites | src/fs/ramfs.rs:147-157 | by what changes: a write succeeds exactly in a directory under a name that is none, and then this one path holds the data and no other path changes |
| FlatFs.FlatCreateMakes | src/fs/ramfs.rs:159-169 | a create succeeds exactly in a directory under a name that is not there, and then adds this one empty file |
| FlatFs.FlatMkdirMakes | src/fs/ramfs.rs:185-195 | the same for an empty directory |
| FlatFs.FlatRemoveRemoves | src/fs/ramfs.rs:171-183 | a removal takes one path away exactly if it is there and nothing is below it, and tells which of the two is missing |
| FlatFs.FlatReadReads | src/fs/ramfs.rs:139-145 | a read gives the data of the file under the name, and nothing if there is none |
| FlatFs.FlatRunDoes | src/fs/ramfs.rs:147-195 | each command of a run does what its kind may do, and nothing else, to the state before it |
| RamFs.NodeAtGraft | src/fs/ramfs.rs:34-44 | a change through the reference `get_dir_mut` returns is seen below that directory and nowhere else |
| RamFs.InsertIsOneKey | src/fs/ramfs.rs:34-44 | inserting a file or empty directory below a path sets exactly one key of the flat map |
| RamFs.RemoveIsOneKey | src/fs/ramfs.rs:171-183 | removing a leaf erases exactly one key |
| RamFs.ViewIsPrefixClosed | src/fs/ramfs.rs:12-21 | every proper prefix of a live path is a directory, in every tree |
| RamFs.ViewIsInjective | src/fs/ramfs.rs:12-21 | the flat map forgets nothing: equal maps come from equal trees |
| RamFs.RamFs.GetDir | src/fs/ramfs.rs:23-32 | the walk finds the directory at a path, or nothing if some component is missing or a file |
| RamFs.RamFs.Save | src/fs/ramfs.rs:50-54 | the image of the whole tree |
| RamFs.RamFs.Load | src/fs/ramfs.rs:81-85 | decodes the root and ignores bytes behind it |
| RamFs.RamFs.Write | src/fs/ramfs.rs:147-157 | sets one key to a file if and only if the parent is a directory and no directory is in the way; every other key keeps its node, and a failing call changes nothing |
| RamFs.RamFs.Create | src/fs/ramfs.rs:159-169 | succeeds if and only if the parent is a directory and the key is absent; then the one new key is an empty file and every other key keeps its node, else nothing changes |
| RamFs.RamFs.Mkdir | src/fs/ramfs.rs:185-195 | the same for a directory |
| RamFs.RamFs.Remove | src/fs/ramfs.rs:171-183 | erases one key if and only if it exists and nothing is below it; every other key keeps its node; tells missing names from occupied directories |
| RamFs.RamFs.Read | src/fs/ramfs.rs:139-145 | gives data if and only if they are the contents of a file at the key; nothing for directories and missing keys |
| RamFs.RamFs.Exists | src/fs/ramfs.rs:197-202 | true exactly for live keys below a directory |
| RamFs.RamFs.IsDir | src/fs/ramfs.rs:204-209 | true exactly for directory keys below a directory |
| RamFs.RamFs.Names | src/fs/ramfs.rs:211-216 | the ascending enumeration of the names directly below a path |
| RamFs.RamFs.List | src/fs/ramfs.rs:127-137 | fails exactly for non-directories; otherwise ascending, complete, with right kinds and sizes |
| RamFs.RamFs.Run | src/fs/ramfs.rs:147-195 | any sequence of changes, failing ones included, gives the replies and the map of the flat specification |
| Ata.PackRoundTrip | src/drivers/ata.rs:98-126 | no byte is lost or swapped on its way through the 16-bit port |
| Ata.PackInNumbers | src/drivers/ata.rs:121-123 | each word holds the even byte low and the odd byte high |
| Ata.RegistersSelect | src/drivers/ata.rs:88-95 | the four registers select exactly the sector number modulo 2^28 |
| Ata.RegistersInNumbers | src/drivers/ata.rs:88-93 | which register takes which bits, in numbers |
| Ata.StoreIsOneSector | src/drivers/ata.rs:118-126 | the 256 words replace one sector and no other |
| Ata.Drive.ReadSector | src/drivers/ata.rs:84-105 | the bytes of the selected sector; false exactly if there is no drive or the command fails |
| Ata.Drive.WriteSector | src/drivers/ata.rs:107-130 | the selected sector becomes the buffer and every other stays; nothing changes on failure |
| DiskImage.WrittenSectors | src/shell/commands.rs:474-487 | exactly the addresses of the image's sectors change, each to the last sector that goes there, numbers that wrap at 2^28 included |
| DiskImage.SavedLayout | src/shell/commands.rs:464-487 | where everything lies after a save: from sector 2048 on the four magic bytes, the length low byte first, 504 bytes of the image, and 512 in each sector behind, zeros behind the end |
| DiskImage.ReadLayout | src/shell/commands.rs:504-527 | what a load reads, by the same places: an image is found if and only if the magic bytes are there |
| DiskImage.LoadTreeIff | src/shell/commands.rs:511-538 | a disk gives a tree if and only if the image read from it begins with that tree |
| DiskImage.ReadWritten | src/shell/commands.rs:452-527 | over any earlier contents, what is read back is the saved image up to the length a 32-bit field can tell; with more than 2^28 sectors the header has been written over |
| DiskImage.SaveLoadIff | src/shell/commands.rs:452-538 | for every tree and every earlier disk: saving and loading restores the tree if and only if it fits the format and its image is shorter than 2^32 bytes |
| DiskImage.LoadedTreeIsShort | src/shell/commands.rs:511-538 | no disk whatever yields a tree whose image is 2^32 bytes or longer |
| DiskImage.CmdSave | src/shell/commands.rs:452-491 | which answer is given for which first failing access, which sectors are then written, and that success uses exactly 1 + ceil((n - 504) / 512) sectors |
| DiskImage.StoreRest | src/shell/commands.rs:474-490 | the loop behind the header: every sector up to the first failing one holds its part of the image |
| DiskImage.CmdLoad | src/shell/commands.rs:493-538 | the answer is the one that medium and faults decide; the tree and the working directory change only on success, the disk never |
| DiskImage.LoadHasOneAnswer | src/shell/commands.rs:493-538 | on every medium and for every fault pattern exactly one answer fits |
| DiskImage.LoadAnswers | src/shell/commands.rs:493-538 | when each answer of `load` is given, from the bytes of sector 2048 and the first access that fails |
| DiskImage.SaveAnswers | src/shell/commands.rs:452-491 | when each answer of `save` is given, and how many sectors are written by then |
| DiskImage.FetchImage | src/shell/commands.rs:500-527 | reading stops at the first failed sector and otherwise collects exactly the stored bytes |
| DiskImage.SaveThenLoad | src/shell/commands.rs:452-538 | both commands in a row on a working drive: the same tree comes back exactly when it fits |
| Scheduler.Scheduler.Spawn | src/kernel/task/scheduler.rs:136-141 | a Ready task with the next unused id and a full quantum at the end of the table |
| Scheduler.Scheduler.SchedulePreempt | src/kernel/task/scheduler.rs:146-160 | one tick, as the specification says: nothing for a lone task, else count down, and switch when the quantum is used up; `TickIsFifo` and `FirstSwitch` say what that amounts to |
| Scheduler.Scheduler.ScheduleYield | src/kernel/task/scheduler.rs:163-168 | a yield searches at once unless the task is alone |
| Scheduler.Scheduler.FindAndSwitch | src/kernel/task/scheduler.rs:171-209 | the cyclic search terminates and hands over to the next runnable task or resets the quantum |
| Scheduler.Scheduler.ExitCurrentTask | src/kernel/task/scheduler.rs:281-297 | marks the running task dead and searches as a yield does |
| Scheduler.Scheduler.KillTask | src/kernel/task/scheduler.rs:225-233 | terminates the first live task of that id, or reports that there is none |
| Scheduler.Scheduler.CleanupTerminated | src/kernel/task/scheduler.rs:239-251 | drops the dead except task 0, and looks up the running task's new place |
| Scheduler.Scheduler.Kill | src/shell/commands.rs:621-637 | the command: nothing for id 0 or an unknown id, else kill and cleanup |
| SchedulerLaws.SelectionIsExact | src/kernel/task/scheduler.rs:171-197 | the search picks the nearest runnable task going round, and gives up exactly when no other is runnable |
| SchedulerLaws.SwitchIsFifo | src/kernel/task/scheduler.rs:171-209 | a switch takes the head of the queue of waiting tasks; the task it leaves joins the tail if it can run |
| SchedulerLaws.HandedOverSlots | src/kernel/task/scheduler.rs:196-206 | a switch changes only the states of the two tasks involved and the quantum of the one it goes to |
| SchedulerLaws.TickIsFifo | src/kernel/task/scheduler.rs:146-160 | a tick counts the quantum down by one, or at its end rotates the queue, or starts the quantum again if nobody waits; alone in the table, a task keeps its quantum |
| SchedulerLaws.YieldIsFifo | src/kernel/task/scheduler.rs:163-168 | a yield rotates the queue; with nobody waiting it starts the quantum again, and alone in the table it changes nothing |
| SchedulerLaws.ExitIsFifo | src/kernel/task/scheduler.rs:281-297 | an exiting task always finds a successor and leaves the queue for good, so the trailing loop is unreachable |
| SchedulerLaws.SpawnIsFifo | src/kernel/task/scheduler.rs:136-141 | a new task joins the queue once, and nobody else moves |
| SchedulerLaws.KillIsFifo | src/shell/commands.rs:621-637 | killing another task takes it out of the queue and keeps everyone's order, through the renumbering of the cleanup |
| SchedulerLaws.CleanedHasNoDead | src/kernel/task/scheduler.rs:239-243 | after a cleanup no task but 0 is dead in the table |
| SchedulerLaws.KilledHasNoDead | src/shell/commands.rs:621-637 | after a kill of another task nobody is dead, and table and queue have the same tasks |
| SchedulerLaws.StepKeepsInv | src/kernel/task/scheduler.rs:125-251 | every step keeps: `current` in range, the task there the only Running one with a quantum of 1 to 10, ids ascending from task 0, which never dies |
| SchedulerLaws.StepIsFifo | src/kernel/task/scheduler.rs:125-251 | the table refines the FIFO queue step by step |
| SchedulerLaws.ReachableIsSafe | src/kernel/task/scheduler.rs:125-251 | the invariant holds after every run from boot |
| SchedulerLaws.KillIsSafeIff | src/kernel/task/scheduler.rs:239-251 | a kill keeps the invariant if and only if the victim is not the running task |
| SchedulerLaws.SelfKillIsReachable | src/kernel/task/scheduler.rs:239-251 | after one spawn and one yield task 1 runs, and killing it then would break the table |
| SchedulerLaws.TheDeadNeverRun | src/kernel/task/scheduler.rs:171-251 | an id that was handed out and died is never current again, in any run |
| SchedulerLaws.StepShortensWait | src/kernel/task/scheduler.rs:136-251 | a tick brings a waiting task a tick closer; yields, exits and other deaths never put it off, a spawn by at most 10 ticks |
| SchedulerLaws.BoundedWaiting | src/kernel/task/scheduler.rs:146-209 | a waiting task runs within the rest of the current quantum plus 10 ticks for each task before it and for each task spawned meanwhile, whatever else happens |
| SchedulerLaws.PatienceIsExact | src/kernel/task/scheduler.rs:146-209 | with nothing but ticks it runs at exactly that tick and at none before |
| SchedulerLaws.LoneTicks | src/kernel/task/scheduler.rs:146-147 | from boot, any number of ticks leaves the lone kernel task with its full quantum |
| SchedulerLaws.FirstSwitch | src/kernel/task/scheduler.rs:92-160 | from boot, after any number of lone ticks and a spawn, the whole table after each of ten ticks: the kernel runs through the ninth, the new task runs after the tenth, with literal quanta |
| SchedulerLaws.TickInNumbers | src/kernel/task/scheduler.rs:146-209 | and the switch from slot 0 to slot 1 is asked for by the tenth of these ticks and by none before |
| Machine.PushAllStores | src/kernel/task/context.rs:27-33 | pushed words lie below the old top in reverse order; all other memory is as before |
| Machine.SwitchFrame | src/kernel/task/context.rs:27-33 | at which distance below the stack pointer each register lies after the pushes of a switch |
| Machine.NewTaskFrame | src/kernel/task/scheduler.rs:45-79 | and in the frame of a new task |
| Machine.InterruptFrame | src/kernel/timer.rs:60-80 | and after interrupt delivery, which aligns the stack to 16 bytes, and the handler's fifteen pushes |
| Machine.ResumeFindsFrame | src/kernel/task/context.rs:38-49 | pops and return restore the registers, stack pointer and address the frame was made from |
| Machine.HandlerRoundTrip | src/kernel/timer.rs:60-108 | with its frame intact the handler gives back all fifteen registers, flags, stack and instruction pointer |
| Machine.Processor.SwitchContext | src/kernel/task/context.rs:25-52 | the instructions in order do what the specification of a switch says, context cells included |
| Machine.Processor.EnterHandler | src/kernel/timer.rs:60-80 | interrupt delivery and fifteen pushes |
| Machine.Processor.LeaveHandler | src/kernel/timer.rs:88-107 | fifteen pops and `iretq` |
| Machine.Processor.NewTask | src/kernel/task/scheduler.rs:45-79 | the seven words written through a decreasing pointer form a switch frame |
| TaskSwitching.SwitchLands | src/kernel/task/context.rs:25-52 | a switch lands exactly where its target left, freezes the task it leaves, and touches no other stack |
| TaskSwitching.StepKeepsInv | src/kernel/task/context.rs:25-52 | computing, switching, creating and freeing tasks keeps every suspended frame intact on disjoint stacks |
| TaskSwitching.LandsAsLeft | src/kernel/task/context.rs:25-52 | the same after any run that leaves the task alone |
| TaskSwitching.SwitchReturns | src/kernel/task/context.rs:25-52 | a call of `switch_context` returns to its caller with callee-saved registers, stack pointer and live stack, however long the others ran |
| TaskSwitching.NewTaskStarts | src/kernel/task/scheduler.rs:45-79 | a new task enters the trampoline with its entry function in r12 and its whole stack free |
| TaskSwitching.PreemptionIsInvisible | src/kernel/timer.rs:60-108 | a task preempted anywhere gets everything back, though other tasks ran inside its timer handler |
| TaskSwitching.ImmediateReturnIsInvisible | src/kernel/timer.rs:60-152 | its shortest instance, from plain conditions on stacks: both switches can be carried out and the interrupted task cannot tell |
| Kernel.DecisionIsSound | src/kernel/timer.rs:138-152 | whatever tick, yield or exit decides, the context switch it asks for can be carried out and table and processor agree afterwards |
| Kernel.SpawnIsSound | src/kernel/task/scheduler.rs:38-89 | a task spawned on a fresh stack is suspended with a proper frame under an unused id |
| Kernel.KillIsSound | src/kernel/task/scheduler.rs:239-251 | freeing the stacks of exactly the tasks that left the table harms nobody |
| Kernel.After | src/kernel/task/scheduler.rs:260-297 | no event gets stuck, and scheduler and processor agree after it |
| Kernel.AfterRun | src/kernel/task/scheduler.rs:260-297 | over every run of events no one gets stuck, and scheduler and processor agree at its end |
| Kernel.RunIsSchedulerRun | src/kernel/timer.rs:138-152 | every run of the coupled system is an allowed run of the scheduler and ends in its table |
| Kernel.TableFollows | src/kernel/timer.rs:138-152 | each event makes exactly the scheduler's step |
| Kernel.EventKeepsOrResumes | src/kernel/task/context.rs:25-52 | any event leaves a suspended task as it is or hands it the processor as it left it |
| Kernel.WaitingTaskResumes | src/kernel/timer.rs:60-152 | within its bounded wait a waiting task is resumed with the registers, stack pointer and stack it left with, however the others compute, spawn, tick, yield, exit and die |
| Kernel.LastTickResumesNext | src/kernel/timer.rs:138-152 | its shortest instance: the tick that ends the quantum resumes the head of the queue exactly as it left |
| Kernel.TickSuspends | src/kernel/timer.rs:138-152 | a tick leaves the running task and the processor alone, or suspends the task as it is at the tail of the queue |
| Kernel.PreemptedTaskRecovers | src/kernel/timer.rs:60-152 | a task the timer interrupts anywhere gets back all fifteen registers, flags, both pointers and its live stack within ten ticks per task that waited and per task spawned meanwhile, whatever the scheduler and the others do |
| Kernel.TickAloneRecovers | src/kernel/timer.rs:60-152 | its shortest instance: alone in the system, a task recovers at once from any tick |
| Kernel.BootIsCoupled | src/kernel/task/scheduler.rs:92-134 | the state the kernel starts in |
| LineWalk.WalkOnLine | src/gui/primitives.rs:30-54 | after k turns the error term measures the distance from the line, and the point is the nearest one |
| LineWalk.WalkIsNearest | src/gui/primitives.rs:42-52 | which point the k-th one is, without the error term: k steps along the longer distance and the nearest step across, halves up |
| LineWalk.WalkArrives | src/gui/primitives.rs:38-53 | the loop ends after as many turns as the longer distance, and not before |
| LineWalk.WalkIsClose | src/gui/primitives.rs:43-52 | every point lies within half a pixel of the ideal line |
| LineWalk.WalkStepsToNeighbour | src/gui/primitives.rs:43-52 | consecutive points are different neighbours |
| LineWalk.TurnFitsWithin | src/gui/primitives.rs:42-52 | up to 10923 pixels the doubled error and both updates stay in 16 bits |
| LineWalk.TooLongOverflows | src/gui/primitives.rs:42-52 | the line (0, 0)-(10924, 1) overflows half way |
| LineWalk.SafeDistanceIsExact | src/gui/primitives.rs:30-54 | a distance bound makes all lines safe if and only if it is at most 10923 |
| LineRange.Bezout | src/gui/primitives.rs:42-52 | the greatest common divisor of the distances divides both and is a combination of them |
| LineRange.PointBounds | src/gui/primitives.rs:42-52 | how far a point of the line can be from it on either side |
| LineRange.PlaceIsReached | src/gui/primitives.rs:42-52 | every distance a point may have occurs before the line ends |
| LineRange.LineFitsIff | src/gui/primitives.rs:30-54 | for any two distances: every number computed on the line fits into 16 bits if and only if the condition on them holds |
| LineRange.StraightLines | src/gui/primitives.rs:30-54 | the exact longest diagonal, level and plumb lines |
| Line.Framebuffer.SetPixel | src/gui/framebuffer.rs:130-134 | one byte of the buffer changes, at 320 * y + x, if the pixel is on the screen, otherwise none |
| Line.Framebuffer.DrawLine | src/gui/primitives.rs:30-54 | for every line whose arithmetic fits, exactly its points that are on the screen take the colour |
| Line.LineReachesBothEnds | src/gui/primitives.rs:30-54 | the line starts at one end and reaches the other at its last point only |
| Line.LineIsConnected | src/gui/primitives.rs:43-52 | in all eight octants, each point is a neighbour of the one before |
| Line.LineIsClose | src/gui/primitives.rs:43-52 | in all eight octants, each point is within half a pixel |
| Line.ShortLines | src/gui/primitives.rs:30-54 | two lines that pass exactly between two pixels, point by point |
| Scanline.CrossingBetween | src/gui/wallpaper.rs:194-197 | the truncated intersection lies between the edge's ends, so narrowing to 16 bits is exact |
| Scanline.CrossingIsExact | src/gui/wallpaper.rs:190-197 | an edge crosses a row at x if and only if the row lies between its ends, the upper one included, and x is where the exact line meets the row, cut off to a pixel towards the edge's first vertex |
| Scanline.CrossingsAreEven | src/gui/wallpaper.rs:188-203 | every closed polygon crosses every row an even number of times |
| Scanline.PairsAreEvenOdd | src/gui/wallpaper.rs:217-225 | right of column 0, filling between pairs of sorted crossings is the even-odd rule |
| Scanline.EvenOddPermuted | src/gui/wallpaper.rs:206-214 | the even-odd rule does not depend on the order of the crossings |
| Scanline.ColumnZeroWrongIff | src/gui/wallpaper.rs:219-220 | when clamping to column 0 breaks the rule there |
| Polygon.SafeLimitIsExact | src/gui/wallpaper.rs:193-198 | a bound on the coordinates makes the arithmetic exact for every polygon on every row of a screen of given height if and only if it is safe |
| Polygon.ModestIsRepresentable | src/gui/wallpaper.rs:193-198 | within 23170 pixels of the origin no product leaves 32 bits on any screen |
| Polygon.Intersect | src/gui/wallpaper.rs:194-198 | one crossing in the source's types, 32-bit products, division and 16-bit narrowing, is where the exact edge meets the row, cut off to a pixel towards the edge's first vertex |
| Polygon.CollectCrossings | src/gui/wallpaper.rs:185-203 | a row's buffer holds its crossings in edge order, the first 64 of them |
| Polygon.SortCrossings | src/gui/wallpaper.rs:206-214 | the insertion sort leaves a sorted permutation |
| Polygon.Insert | src/gui/wallpaper.rs:207-213 | one key moves to its place, the entries behind stay |
| Polygon.FillRow | src/gui/wallpaper.rs:217-225 | exactly the pixels between pairs change, in this row only |
| Polygon.CoveredIsPainted | src/gui/wallpaper.rs:188-225 | sorting and pair filling together paint the even-odd set of the recorded crossings |
| Polygon.EdgeIsExact | src/gui/wallpaper.rs:185-198 | every edge, the one back to the first vertex included, is recorded exactly where it meets the row |
| Polygon.SlopedEdge | src/gui/wallpaper.rs:176-227 | of the triangle (0, 0), (8, 8), (0, 8), row 2 is painted in columns 0 to 2 |
| Polygon.FillPolygonRow | src/gui/wallpaper.rs:184-226 | one turn of the row loop changes exactly the painted pixels of its row |
| Polygon.FillPolygon | src/gui/wallpaper.rs:176-227 | the whole buffer afterwards: painted pixels have the colour, all others are unchanged |
| Polygon.CrowdedRowBreaksIff | src/gui/wallpaper.rs:199-202 | right of column 0, the exact pixels painted against the even-odd rule because a row has more than 64 crossings |
| Polygon.PaintedIsEvenOdd | src/gui/wallpaper.rs:176-227 | in a row of at most 64 crossings, a pixel right of column 0 is painted if and only if an odd number of edges meet its row left of it, or one on it, all told by the edges' coordinates |
| Polygon.ColumnZeroBreaksIff | src/gui/wallpaper.rs:199-220 | the exact rows, crowded or not, in which column 0 is painted against the rule |
| Polygon.ColumnZeroBreaksPlainlyIff | src/gui/wallpaper.rs:219-220 | with at most 64 crossings: a positive even number of edges cross left of the screen and none on the column |
| Polygon.ColumnZeroCounterexample | src/gui/wallpaper.rs:219-220 | a triangle wholly left of the screen that paints a pixel |
| Frames.FrameAllocator.AllocateFrame | src/kernel/memory/frame_allocator.rs:23-42 | each call returns the least served frame from the sweep on, inside a usable region, None exactly if there is none, and the next address to try is right behind it |
| Frames.ServesAllIff | src/kernel/memory/frame_allocator.rs:23-42 | for every memory map: all usable frames are served if and only if no region overtakes a frame that no earlier region has |
| Frames.DisjointMapServesAllIff | src/kernel/memory/frame_allocator.rs:23-42 | where usable regions do not overlap, if and only if the non-empty ones ascend |
| Frames.SortedMapServesAll | src/kernel/memory/frame_allocator.rs:23-42 | if the usable, non-empty regions ascend, overlapping or not, exactly the usable frames are served |
| Frames.UnsortedMapLosesFrames | src/kernel/memory/frame_allocator.rs:23-42 | a map out of order that loses a frame, and one that loses none |
| Frames.AllocateMany | src/kernel/memory/frame_allocator.rs:23-42 | a run of calls gives the specified run of answers |
| Frames.KthCallReturnsKthFrame | src/kernel/memory/frame_allocator.rs:23-42 | the k-th call returns the k-th served frame in address order, and None if and only if there are not so many |
| Frames.AnswersAscend | src/kernel/memory/frame_allocator.rs:23-42 | over any run frames are usable, strictly ascending, hence never handed out twice; None stays None |
| Frames.NothingIsSkipped | src/kernel/memory/frame_allocator.rs:23-42 | every served frame below an answer was an earlier answer, and before None all were |
| Paths.Utf8SplitsAtAscii | src/kernel/syscall/handlers.rs:236 | cutting a string at a slash never splits a character |
| Paths.CollectComponents | src/kernel/syscall/handlers.rs:235-236 | the split gives exactly the non-empty pieces in order |
| Paths.CmdPwd | src/shell/commands.rs:293-304 | the printed path, piece by piece |
| Paths.JoinedSplits | src/kernel/syscall/handlers.rs:234-245 | components without slashes come back from the printed path |
| Paths.PwdReadsBackIff | src/shell/commands.rs:293-304 | the printed directory parses back if and only if no component is empty or holds a slash |
| Paths.PwdInBytes | src/shell/commands.rs:293-304 | the root prints as one slash, a directory below it as a slash and its name |
| Paths.SplittingLaws | src/kernel/syscall/handlers.rs:234-245 | slashes at the front are dropped and the text before a slash is a component: together these laws determine the split of any path |
| Paths.AbsolutePathParses | src/kernel/syscall/handlers.rs:234-245 | the absolute path of a file parses to its directory and name |
| Descriptors.FdTable.AllocFd | src/kernel/syscall/handlers.rs:46-55 | the least free descriptor from 3 on, None exactly if all are taken |
| Descriptors.FdTable.SysOpen | src/kernel/syscall/handlers.rs:127-159 | opens one free descriptor at offset 0 of an existing file, and otherwise changes nothing |
| Descriptors.FdTable.SysRead | src/kernel/syscall/handlers.rs:162-199 | delivers exactly the smaller of the length and what is left behind the offset, moves that offset by as much and no other; fails exactly without an open descriptor or its file |
| Descriptors.FdTable.SysClose | src/kernel/syscall/handlers.rs:202-215 | frees exactly an open, unreserved descriptor |
| Descriptors.DeliversPrefix | src/kernel/syscall/handlers.rs:162-199 | over any interleaving, what a descriptor delivered since its open is the prefix of its file as long as its offset |
| Descriptors.EmptyReadMeansEnd | src/kernel/syscall/handlers.rs:174-184 | a read for at least one byte is empty if and only if the offset is at the end |
| Descriptors.ReadingDelivers | src/kernel/syscall/handlers.rs:162-199 | a read gives the longest piece at the offset that is no longer than asked for |
| Descriptors.ClosingFrees | src/kernel/syscall/handlers.rs:202-215 | a close succeeds exactly on an open descriptor from 3 to 15 and empties that one only |
| Descriptors.OthersUntouched | src/kernel/syscall/handlers.rs:127-215 | no call changes a descriptor it was not given |
| Descriptors.OpenIsFresh | src/kernel/syscall/handlers.rs:46-159 | an open fails exactly for text that is no UTF-8, a path that is no file or a full table; else it takes the least free unreserved descriptor, at offset 0, and changes no other |
| Console.Writer.ClearRow | src/drivers/vga.rs:103-111 | one row becomes blank in the current colour, no other cell changes |
| Console.Writer.NewLine | src/drivers/vga.rs:92-101 | on the screen, cell by cell: each text row shows the row that was below it, the last is blank, the next column is 0 and the status row stays; the log gets an empty line |
| Console.Writer.WriteByte | src/drivers/vga.rs:62-81 | on the screen, cell by cell: a line break scrolls; any other byte changes the one cell at the column, after scrolling if the row is full; the byte joins the log, wrapped lazily at 80 columns, and the screen shows its last 24 lines |
| Console.Writer.WriteString | src/drivers/vga.rs:83-90 | the same for a string, unprintable bytes shown as blocks |
| Console.Writer.ClearScreen | src/drivers/vga.rs:113-118 | every cell of the text rows is blank in the current colour, the log empty; row 24 is not touched |
| Console.Writer.DeleteLastChar | src/drivers/vga.rs:120-131 | the last cell of the current line becomes blank and nothing else on the screen changes; at column 0 nothing changes at all |
| Console.Writer.Run | src/drivers/vga.rs:62-131 | after clearing and any sequence of bytes, line breaks and deletions the screen shows the last 24 lines of the log, and row 24 was never touched |
| Console.Writer.SetColor | src/drivers/vga.rs:133-135 | changes the colour of later output only |
| Console.TextWraps | src/drivers/vga.rs:62-90 | text without breaks loses nothing by wrapping: every line but the last is full, no new line is empty |
| Console.BreakSplits | src/drivers/vga.rs:62-90 | what follows a line break is written as on an empty log below what precedes it |
| Console.ShownInNumbers | src/drivers/vga.rs:83-90 | exactly the bytes 0x20 to 0x7E, the line break and the block itself are shown as they are; all others as a block |
| Console.DeleteUndoesIff | src/drivers/vga.rs:120-131 | deleting undoes writing a byte if and only if the byte did not start a new line |
| Console.DeleteKeepsLines | src/drivers/vga.rs:120-131 | a deletion takes the last byte of the current line and none of an earlier one |
| Redirection.TrimKeeps | src/shell/mod.rs:206 | trimming removes white space only, so the checks for operators may look at the trimmed name |
| Redirection.TrimBlank | src/shell/mod.rs:206 | a trimmed name is empty exactly for blank text |
| Redirection.TrimSplits | src/shell/mod.rs:206 | text is white space, its trimmed form and white space, and the trimmed form neither begins nor ends with any |
| Redirection.TrimIsUnique | src/shell/mod.rs:206 | and whatever stands so between white space is the trimmed form |
| Redirection.SpacesInNumbers | src/shell/mod.rs:206 | what white space is: twenty-five characters, by number |
| Redirection.ParsersAgreeIff | src/shell/mod.rs:190-249 | shell and terminal read a line alike if and only if the stated condition on its last operators holds |
| Redirection.ParsersAgreeWithoutPipes | src/gui/widget/terminal.rs:176-210 | they agree on every line without a pipe whose text behind the last `>` is not blank |
| Redirection.ParsersDisagree | src/gui/widget/terminal.rs:200-206 | they disagree on `a<b>c\|d` |
| Redirection.ShellReadsBack | src/shell/mod.rs:190-249 | every command line written from a pipeline, an input name and an output redirection, with any white space around the names, is taken apart into exactly these by the shell |
| Redirection.TerminalReadsBack | src/gui/widget/terminal.rs:176-210 | and by the terminal |
| Redirection.UnusableIsKept | src/shell/mod.rs:190-249 | a line without `<` and without a usable output is kept whole by both |
| Redirection.BlankInputIsKept | src/shell/mod.rs:190-249 | a `<` with nothing behind it stays in the pipeline |
| Shell.Appended | src/shell/mod.rs:156-165 | appended output follows the old contents on a line of its own, with a break added exactly when one is missing |
| Shell.Shell.CmdCd | src/shell/commands.rs:265-291 | the new working directory in every case, in a directory that exists or not |
| Shell.CdMoves | src/shell/commands.rs:265-291 | `cd` into a directory and `cd ..` end where they began; nothing or a slash leads to the root, a dot nowhere, any other name only into a directory that is there |
| Shell.Shell.CmdMv | src/shell/commands.rs:392-414 | read, write, remove amount to the flat move |
| Shell.Shell.CmdCp | src/shell/commands.rs:372-390 | the destination gets the source's contents or nothing changes |
| Shell.Shell.AppendTo | src/shell/mod.rs:156-174 | the file gets the appended contents, or is created, or nothing changes |
| Shell.StepKeepsDir | src/shell/commands.rs:210-291 | every command keeps the tree closed and its shell in an existing directory |
| Shell.Shell.Execute | src/shell/commands.rs:127-146 | the exact effect of every command on tree and working directory; `load` gives the one answer that disk and faults decide, and installs the disk's tree exactly if that is success |
| Shell.Shell.Run | src/shell/mod.rs:94-175 | with one shell every run of commands, loads included, ends in an existing directory |
| Shell.MoveMoves | src/shell/commands.rs:392-414 | a move succeeds exactly for a file and a different name that is no directory; then contents, source and all other paths are as they should |
| Shell.FlatMoveMoves | src/shell/commands.rs:392-414 | the same as a relation between the tree before and after, in any working directory |
| Shell.CommandsDo | src/shell/commands.rs:196-414 | every command but `load`, by what changes: which one path gets what, when it does, and that all others and, but for `cd`, the working directory stay |
| Shells.OtherDirVanishesIff | src/shell/commands.rs:210-414 | of all commands but `load`, exactly an `rm` of an empty directory by its name takes a directory away |
| Shells.LoadKeepsDirIff | src/shell/commands.rs:529-535 | a `load` keeps exactly the directories of the loaded tree |
| Shells.OrphanIsInert | src/shell/commands.rs:196-414 | a shell whose directory is gone changes nothing; only `cd` to the root or up gets it out |
| Shells.StepOrphansIff | src/shell/commands.rs:127-146 | one command of any shell leaves all shells in existing directories if and only if it orphans none |
| Shells.ShellsStayLiveIff | src/gui/mod.rs:57-127 | any number of shells stay in existing directories throughout a run if and only if none of its events orphans one |
| Shells.Serve | src/gui/mod.rs:57-127 | shells taking turns on one file system and drive, failing loads included, produce exactly such runs |
| Shells.Turn | src/gui/widget/terminal.rs:85-170 | one turn |

## Left out

- RamFs: the tree is a value in one field that every method replaces; nested maps are not separate heap objects, and the mutable reference of `get_dir_mut` is the function `Graft`.
- Ata.Drive.ReadSector: busy waiting and status polling are one answer per command from an arbitrary fault pattern; timing, the flush command and partially transferred sectors are not modelled.
- Scheduler.Scheduler.SchedulePreempt: ticks that are skipped because the scheduler is locked, the tick counter and the status bar are not modelled; bounds count the ticks that reach the scheduler.
- Scheduler.Scheduler.Spawn: task ids are unbounded; the 64-bit counter is a field of the scheduler and not a global.
- SchedulerLaws.StepKeepsInv: exit by the kernel task and a kill of the running task are excluded; `KillIsSafeIff` says what the second would do.
- TaskSwitching.StepKeepsInv: memory is keyed by word address, so words that overlap in part are not modelled; the context cells are a map beside memory, not part of it; addresses do not wrap.
- TaskSwitching.NewTaskStarts: stops at the entry of the trampoline; its compiler-made prologue is not modelled.
- Machine.HandlerRoundTrip: segment loading, privilege changes and SSE state are not modelled.
- Line.Framebuffer.DrawLine: lines whose 16-bit arithmetic overflows are excluded, by the condition that `LineFitsIff` proves exact.
- Polygon.FillPolygon: requires a width of at least 1, a height below 2^15, and on every row of the screen products that fit into 32 bits where an edge is crossed; what a build does on an overflow (panic or wrap) is not modelled.
- Frames: addresses are unbounded; regions are page-aligned, as the boot loader's are by type.
- Descriptors: user pointers are byte strings; error codes, which are all the same value, are one None; `sys_write`, `sys_stat`, `sys_exit` and the dispatcher are left out.
- Console.Writer.WriteByte: the status bar's contents are not modelled.
- Shell: commands arrive split into words; messages, pipes between commands, environment variables and commands that only print are left out.
- Redirection.ParsersAgreeIff: strings are sequences of Unicode characters, the source works on their UTF-8 bytes; all operators are ASCII.
- FAT reading, ELF loading, paging, the heap, SVG paths and Bezier curves, fonts, widgets, cursor, keymaps and command history are left out: hardware effects, libraries, floating point or easy members.
