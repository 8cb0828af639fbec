# Verified models of an annotated xv6 kernel and a page-replacement simulator

A Dafny model of the parts of this repository that carry its hard invariants, with proofs that
hold for all inputs, all runs or all reachable states. `dafny verify dfyconfig.toml` checks
everything.

What is modelled, file by file:

- **Page replacement** (`Paging`, `Belady`, `Recency`, `Simulator`, `Policies`, `PolicyMarks`). The seven policies as
  array loops that print frames and count faults. Each is tied to a rule for its victims. Over the
  rules: Belady's theorem against every sequence of victims, the stack property of LRU, equality of
  the two LRU implementations, the competitive bound of LRU and FIFO, and what the bits of the
  second-chance policies say about the references served.
- **Processes and the weighted-priority scheduler** (`ProcSpec`, `ProcInv`, `ProcSleep`, `ProcShare`,
  `ProcTable`). A
  one-CPU machine whose steps are the regions under the table lock; a class whose methods are the
  functions of `proc.c`, each proved to be a step. Over all runs from boot: the minimum is exact when
  the scheduler scans, no exit is lost or reported twice, a sleeper is woken by exactly the steps that
  should, and shares are proportional to weights.
- **Write-ahead log and buffer cache** (`LogSpec`, `LogCrash`, `LogBudget`, `Bcache`, `LogImpl`). A disk
  takes one block write at a time and may stop after any of them. Crash atomicity is proved over whole
  runs of commits, crashes and interrupted recoveries, and `LogImpl` proves that commit and recovery,
  running over the buffer cache, make exactly those writes, and says exactly when the cache has
  too few buffers for them.
- **Inodes and files** (`FsSpec`, `Bits`, `FsDisk`, `FileSystem`, `WideInode`, `FsCrash`). A disk of blocks of bytes: bitmap blocks with
  their masks, inode blocks, data and indirect blocks. Over it block allocation, reading and writing as
  slice and overwrite of flat contents, truncation, the log budget of both, and filewrite as a run of
  transactions. With the log's crash theorem: after any crashes and recoveries the disk holds a file
  system in which every file has the contents of whole committed transactions, a filewrite cut off
  anywhere has written a whole number of chunks, and transactions that fit the log can be committed.
- **Allocator** (`Umalloc`). The circular, address-ordered, coalescing free list of `umalloc.c`, as a value
  and as linked headers.
- **Page tables** (`VmSpec`, `Vm`). Two-level tables stored in physical pages, with an owner for every
  page, through every failure path, and with the number of free pages that decides between them.
- **Pipe** (`Pipe`) and **matcher** (`Grep`). `Common` holds what several parts share.

Conventions. A panic is a result that the method reports, or a condition its caller has to rule out
where the source's callers do; what a panicking call leaves behind is not specified. Locks are not
modelled: a region under a lock is one step. Addresses handed out by `sbrk`, and whether it gives any,
are parameters; so are the reference string and the number of frames.

Five promises one might expect of the code are false of it; the model keeps the code as it is,
shows the failure and proves exactly when the promise holds:

- `malloc` rounds up in 32-bit arithmetic, so for the last seven request sizes the block is smaller than
  the request (`Umalloc.PayloadFits`, `Umalloc.WrappedRequest`).
- `malloc` passes its byte count to `sbrk` as an int, so a request of 2^31 bytes or nearly so takes a negative
  count; `sbrk` then returns the old break without having given any memory (xv6-public/sysproc.c:46-57,
  update scheduler/proc.c:167-183). A request that no free block fits is served from new memory exactly up to 2^31 - 16 bytes
  (`Umalloc.BreakFits`, `Umalloc.NegativeBreak`, `Umalloc.Heaplet.Malloc`).
- `log_write` compares with `log.size - 1`, and `mkfs` makes the log LOGSIZE blocks long, header included; logging
  a new block within an operation's budget can then panic (`LogBudget.NoPanicIffLarger`, `LogBudget.PanicRun`). In
  a larger log only a block logged before can, and only when the log is full (`LogBudget.PanicsIffFull`,
  `LogBudget.RewritePanics`). But NBUF equals LOGSIZE, so in a larger log a full transaction pins every buffer and its
  commit panics, while in the log that `mkfs` makes commit always has its buffer (`LogImpl.NoSizeFits`,
  `LogImpl.SmallLogCommits`).
- An operation is to write at most MAXOPBLOCKS blocks, but `itrunc` logs a bitmap block for every one that covers a
  block of the file. It keeps to the budget exactly if these are fewer than MAXOPBLOCKS, as on every disk of up to
  36864 blocks (`FileSystem.DropBudget`, `FileSystem.SmallDisk`, `WideInode.DropOverruns`); FSSIZE is 1000.
- `pipewrite` returns without a wakeup when a killed writer finds the pipe full, so a reader can sleep on a
  full pipe (`PipeSpec.ReadersStep`, `PipeSpec.ReaderSleepsOn`).

## Model

| member | source | states |
|---|---|---|
| Paging.AtValid | page replacement/main.c:562-573 | After every prefix of a run, whatever the victims, the frames hold at most `n` pages, all different and all referenced before. |
| Simulator.CheckHit | page replacement/main.c:663-676 | The first frame among the occupied ones, and one more, that holds the page; -1 exactly when none does. |
| Simulator.FirstUse | page replacement/main.c:617-622 | The first later reference to a page, or the end of the string. |
| Simulator.FindFarthestAftIdx | page replacement/main.c:610-627 | A frame whose page is used again no sooner than any other resident page, including pages never used again. |
| Simulator.Optimal | page replacement/main.c:579-607 | The printed frames and the fault count are those of a run that always evicts the page used farthest in the future; no sequence of victims has fewer faults. |
| Belady.Exchange | page replacement/main.c:610-627 | The exchange step: holding the page that is used sooner is at least as good for every future. |
| Belady.BestVictim | page replacement/main.c:597-598 | Evicting the page with the farthest next use keeps every feasible number of faults feasible. |
| Belady.BeladyOptimality | page replacement/main.c:579-627 | For every reference string, frame count and sequence of victim choices, farthest-next-use has no more faults. |
| Belady.NoRunBeatsOptimal | page replacement/main.c:255-607 | Every run, of whatever policy, has at least the faults of the optimal one. |
| Policies.NoPolicyBeatsOptimal | page replacement/main.c:255-607 | Whatever policy of the file produced the other run, the optimal run has no more faults. |
| Simulator.PrintedRun | page replacement/main.c:255-607 | The output of any run in its own terms: it starts with empty frames, a line repeats the one before on a hit, on a fault it has the page in the first empty frame, or in the victim's if none is empty, and the count is the number of references to pages not in the line before. |
| Simulator.FindFarthestIdx | page replacement/main.c:500-521 | A frame whose page was used longest ago; the scan sets every distance it compares. |
| Simulator.LruByScan | page replacement/main.c:470-497 | Prints and counts the run that always evicts the least recently used page, at most `n` times the faults of any run. |
| Simulator.MinIdx | page replacement/main.c:409-412 | The first of the smallest counters. |
| Simulator.LruByTimestamp | page replacement/main.c:427-468 | Counters are times of last use, so this run too evicts the least recently used page every time. |
| Simulator.LruImplementationsAgree | page replacement/main.c:427-521 | lru and lru2 have the same frame array after every reference and the same fault count. |
| Recency.LruUnique | page replacement/main.c:427-521 | Any two runs that follow the LRU rule agree frame by frame and fault by fault. |
| Recency.LruResident | page replacement/main.c:481-495 | The pages an LRU run keeps resident are those of a queue ordered by last use. |
| Recency.LruInclusion | page replacement/main.c:470-521 | The stack property: after every prefix, the pages resident with `n` frames are resident with more frames. |
| Recency.LruMonotone | page replacement/main.c:470-521 | More frames never give LRU more faults, after any prefix. |
| Recency.FifoResident | page replacement/main.c:562-573 | Read from the next victim on, the frames of a FIFO run are a queue in order of arrival. |
| Recency.TurnIsRemainder | page replacement/main.c:567 | Counting round the frames is the remainder that fifo computes. |
| Recency.QueueCompetitive | page replacement/main.c:470-577 | Potential argument for LRU and FIFO at once against any run with the same frames. |
| Recency.LruCompetitive | page replacement/main.c:470-521 | LRU faults at most `n` times as often as any run, so as optimal. |
| Recency.FifoCompetitive | page replacement/main.c:551-577 | FIFO faults at most `n` times as often as any run, so as optimal. |
| Policies.FifoRun | page replacement/main.c:551-577 | fifo's victims go round the frames, one step per fault; its count is within `n` times that of any run. |
| Policies.LifoRun | page replacement/main.c:523-549 | lifo replaces the last frame on every fault with full frames; its count is not below the optimal one. |
| Policies.LfuRun | page replacement/main.c:384-424 | lfu evicts a frame that was used least often, the first of those; its count is not below the optimal one. |
| PolicyMarks.UsesMean | page replacement/main.c:384-424 | The counter of a frame is the number of references that the frame has served. |
| Policies.Sweep | page replacement/main.c:368 | The hand stops at the first frame without a reference bit, having cleared the bits it passed, at most once round; the bit of the frame reached is clear. |
| Policies.Chances | page replacement/main.c:368 | How many frames the hand passes: each of them has its bit set, and the frame reached has not. |
| Policies.SecondChanceRun | page replacement/main.c:341-382 | sc evicts the frame at which the hand runs out of second chances; its count is not below the optimal one. |
| PolicyMarks.BitMeans | page replacement/main.c:341-382 | The reference bit of a frame is set exactly if the frame has served a reference since the hand last passed it. |
| PolicyMarks.HandsRun | page replacement/main.c:341-382 | Over a run of sc a hit moves the hand to the next frame, a load into an empty frame leaves it, and a replacement puts it on the victim. |
| PolicyMarks.HandAtFirst | page replacement/main.c:341-382 | So before the first replacement it has gone round the frames once for every hit. |
| PolicyMarks.HandAfter | page replacement/main.c:341-382 | And after a replacement it is on the victim and as many frames on as references have followed. |
| Policies.GetHighPriorityIdx | page replacement/main.c:323-339 | A frame of the lowest class of the two bits; the given frame wins ties, then the first one. |
| Policies.ClassOrder | page replacement/main.c:323-339 | The read bit decides between two classes, and the write bit if it is the same. |
| Policies.EscVictim | page replacement/main.c:285-290 | Victim of the lowest class, found from the oldest frame. |
| Policies.Load | page replacement/main.c:293-300 | The two bits of a page as it is loaded for reading or for writing. |
| Policies.EscServe | page replacement/main.c:276-315 | One reference of esc: frames, bits and time stamps after a hit, a cold fault or a replacement. |
| Policies.EnhancedSecondChanceRun | page replacement/main.c:255-320 | esc evicts a frame of the lowest class on every fault with full frames; its count is not below the optimal one. |
| PolicyMarks.MarksOf | page replacement/main.c:255-320 | Every reference of a run of esc is served by one frame, and changes the bits and the time stamp of that frame only. |
| PolicyMarks.StampMeans | page replacement/main.c:276-315 | The time stamp of a frame is that of the last reference it has served. |
| PolicyMarks.MarksMean | page replacement/main.c:276-315 | The read bit of a frame is set exactly if its page was loaded for reading, the write bit exactly if it was loaded for writing or has been hit since. |
| ProcTable.Ptable.constructor | update scheduler/proc.c:128-162 | The table after the first process was set up; the invariants hold. |
| ProcTable.Ptable.Wakeup1 | update scheduler/proc.c:498-507 | Exactly the entries that sleep on the channel become RUNNABLE, at the current minimum priority; every other entry is unchanged. |
| ProcTable.Ptable.Wakeup | update scheduler/proc.c:511-516 | Afterwards no entry sleeps on the channel; those that did are RUNNABLE at the minimum priority and otherwise the same, all others unchanged. A step that keeps all invariants. |
| ProcTable.Ptable.Schedule | update scheduler/proc.c:345-369 | The equality scan picks a process if and only if one is RUNNABLE; it is RUNNABLE and of least priority, becomes RUNNING, and no other entry changes. Keeps all invariants. |
| ProcTable.Ptable.MinScan | update scheduler/proc.c:376-384 | The least priority of a RUNNABLE process, if there is one. |
| ProcTable.Ptable.Resume | update scheduler/proc.c:372-386 | Back in the scheduler: the process that ran pays a stride, no other entry changes, and the minimum is the least priority of a RUNNABLE process, or as before if there is none. |
| ProcTable.Ptable.Yield | update scheduler/proc.c:426-432 | The process is RUNNABLE and a stride behind, no other entry changes; keeps all invariants. |
| ProcTable.Ptable.Sleep | update scheduler/proc.c:458-492 | The process sleeps on the given address and has paid a stride, no other entry changes; keeps all invariants. |
| ProcTable.Ptable.SleepOn | update scheduler/proc.c:458-492 | The same for any channel, as wait uses it. |
| ProcTable.Ptable.Allocproc | update scheduler/proc.c:79-99 | None exactly if no slot is UNUSED; else one that was becomes EMBRYO with the next pid, the next weight and the minimum priority, and both counters go up by one. Keeps all invariants. |
| ProcTable.Ptable.ForkFail | update scheduler/proc.c:101-205 | Without a kernel stack or memory for the child the slot is given back; a step that keeps all invariants. |
| ProcTable.Ptable.ForkParent | update scheduler/proc.c:207-209 | The child gets its parent, outside the lock; a step that keeps all invariants. |
| ProcTable.Ptable.ForkDone | update scheduler/proc.c:221-229 | The child becomes RUNNABLE and its pid is returned; keeps all invariants. |
| ProcTable.Ptable.PassChildren | update scheduler/proc.c:262-269 | Children go to init, which is woken if one of them is a zombie. |
| ProcTable.Ptable.Exit | update scheduler/proc.c:236-276 | An exit step: parent woken, children passed on, zombie; keeps all invariants. |
| ProcTable.Ptable.Wait | update scheduler/proc.c:281-320 | A zombie child is reaped and its pid returned; or no children, -1; or the caller sleeps. Keeps all invariants. |
| ProcTable.Ptable.Kill | update scheduler/proc.c:522-539 | 0 exactly if an entry has the pid, else -1 and no change; which entry changes and how is in `ProcSleep.KillEntry`. |
| ProcTable.Ptable.DoWeightset | update scheduler/proc.c:579-587 | The weight of the running process; keeps all invariants. |
| ProcInv.StepInv | update scheduler/proc.c:79-539 | Every step of every function keeps tree, pids, pending exits, single running process and exact minimum. |
| ProcInv.Reachable | update scheduler/proc.c:79-539 | All of these hold in every state of every run from boot. |
| ProcInv.ScanFinds | update scheduler/proc.c:345-354 | With an exact minimum the equality scan finds a process of least priority whenever one is RUNNABLE. |
| ProcInv.SchedulerFinds | update scheduler/proc.c:337-394 | In every reachable state without a running process the scan finds a least-priority RUNNABLE process if there is any. |
| ProcInv.NoLostExit | update scheduler/proc.c:236-320 | In every reachable state a parent is alive, and none sleeps in wait while it has a zombie child. |
| ProcInv.EachExitReportedOnce | update scheduler/proc.c:236-320 | Over every run no pid exits twice or is returned by wait twice; an exit not yet returned is a zombie with a live parent. |
| ProcSleep.KillEntry | update scheduler/proc.c:522-539 | Of all processes exactly the one of that pid is marked, and made RUNNABLE if it sleeps. |
| ProcSleep.ExitEntry | update scheduler/proc.c:236-276 | What exit does to every entry: the process is a ZOMBIE, its children are init's, a parent that waits is RUNNABLE at the minimum priority, and so is init if it waits and gets a ZOMBIE; all else is unchanged. |
| ProcSleep.WaitOutcome | update scheduler/proc.c:281-320 | A ZOMBIE child is reaped if there is one; else the caller sleeps on itself exactly if it has children and was not killed; else nothing happens. |
| ProcSleep.WakesIff | update scheduler/proc.c:236-539 | In every state in order, a step wakes a sleeper if and only if it is a wakeup on its channel, a kill of its pid or an exit that it waits for. |
| ProcSleep.SleepThenWakeup | update scheduler/proc.c:458-516 | A process that went to sleep on an address sleeps through any steps but a wakeup on it or a kill, and a wakeup then makes it RUNNABLE at the minimum priority. |
| ProcShare.RoundIsSteps | update scheduler/proc.c:337-394 | A round of the fairness theorem is a schedule step and a yield step of the machine. |
| ProcShare.ProportionalShare | update scheduler/proc.c:345-386 | With equal initial priorities and weights in 1..TIME_SLICE, run counts times TIME_SLICE / weight of two processes differ by at most one such stride, after any number of rounds. |
| ProcShare.HeavierRunsMore | update scheduler/proc.c:345-386 | After any number of rounds the process of the larger weight has had at least as many runs as the other, or one less. |
| ProcShare.ShareByWeight | update scheduler/proc.c:345-386 | The runs of two processes are as their weights, up to a run and the part that the division cuts off. |
| ProcSpec.StrideIs | update scheduler/proc.c:372 | The stride is the quotient of TIME_SLICE and the weight, truncated toward zero, for weights of either sign. |
| ProcShare.NoStarvation | update scheduler/proc.c:345-386 | The number of rounds is bounded in terms of the run count of any one process, so none starves. |
| StrideScheduling.Share | update scheduler/proc.c:372-384 | The underlying bound for any least-first choice with strides. |
| LogSpec.HeadRoundTrip | xv6-public/log.c:85-113 | read_head after write_head gives back the list of blocks. |
| LogSpec.RecoverCrashBlock | xv6-public/log.c:69-122 | What every block holds when recovery is cut off after any number of writes. |
| LogSpec.RecoveredBlock | xv6-public/log.c:115-122 | What every block holds after a completed recovery. |
| LogSpec.RecoveryIdempotent | xv6-public/log.c:115-122 | A crash anywhere inside recovery does not change what a completed recovery leaves. |
| LogCrash.CommitWritesAre | xv6-public/log.c:177-202 | commit writes log blocks, header, home blocks and cleared header, in this order. |
| LogCrash.CommitCrashHead | xv6-public/log.c:192-202 | The header block on disk after any number of the writes. |
| LogCrash.CommitCrashLogged | xv6-public/log.c:192-202 | A logged home block changes on disk only after the header was written. |
| LogCrash.CommitAtomic | xv6-public/log.c:177-202 | A crash after any write of commit and a recovery leave all home blocks old or all new. |
| LogCrash.CrashAtomicity | xv6-public/log.c:69-202 | Over every run of commits, crashes, interrupted recoveries and completed recoveries, the home blocks are those of the committed transactions, whole and in order. |
| LogImpl.Log.WriteLog | xv6-public/log.c:177-190 | The writes made and the log blocks filled; the home blocks still show what they did. It stops short only when every buffer is busy, and not if no buffer is referenced, the logged blocks are pinned and one more buffer is left. |
| LogImpl.Log.InstallTrans | xv6-public/log.c:69-82 | The writes made and the home blocks filled from the log. It stops short only when every buffer is busy, and not if no buffer is referenced and one is left, or two if the home blocks are not pinned. |
| LogImpl.Log.FillHead | xv6-public/log.c:104-110 | The count and the numbers go over the header block, the rest of it stays. |
| LogImpl.Log.WriteHead | xv6-public/log.c:101-113 | One write of the header block, cached and on disk; none only if every buffer is busy and the dirty blocks and references are at least as many as the buffers. |
| LogImpl.Log.ReadHead | xv6-public/log.c:85-97 | The in-memory header is the list in the header block; not read only if every buffer is busy and the dirty blocks and references are at least as many as the buffers. |
| LogImpl.Log.Commit | xv6-public/log.c:192-202 | The disk goes through exactly the states of the crash theorem; after all of them the log is clean and no home block reads differently. With no buffer referenced and the logged blocks pinned it goes through if and only if there are more buffers than logged blocks, or nothing is logged. |
| LogImpl.Log.RecoverFromLog | xv6-public/log.c:115-122 | The disk goes through exactly the states of the recovery theorem; after all of them disk and cache are the recovered disk. With nothing dirty or referenced it goes through if and only if there are two buffers, or one and nothing to install. |
| LogImpl.CrashInCommit | xv6-public/log.c:177-202 | Whenever the power fails while commit runs, recovery finds the old home blocks or all of them as the cache showed them. |
| LogImpl.CrashInRecovery | xv6-public/log.c:115-122 | Whenever the power fails while recovery runs, the next one ends where this one would have. |
| LogImpl.Log.BeginOp | xv6-public/log.c:125-141 | Admitted exactly if no commit runs and the logged blocks with MAXOPBLOCKS for every operation, the new one included, fit LOGSIZE; a step of the budget machine. |
| LogImpl.Log.EndOp | xv6-public/log.c:145-174 | The last operation commits, with the outcomes of commit; another one only leaves. A step of the budget machine, or two with the end of the commit. |
| LogImpl.Log.LogWrite | xv6-public/log.c:213-233 | Panics exactly if log.lh.n reaches LOGSIZE or log.size - 1, or no operation is open; else the block is absorbed or appended, the cache changes and the disk does not; a step of the budget machine. |
| LogImpl.BudgetKept | xv6-public/log.c:125-233 | The steps that begin_op, log_write and end_op take keep the reservation, so that of `LogBudget` holds between their calls. |
| LogBudget.StepInv | xv6-public/log.c:125-233 | Every step keeps: logged blocks plus unspent budgets fit LOGSIZE; open operations' blocks are logged; no operation is open during a commit. |
| LogBudget.Budget | xv6-public/log.c:125-174 | In every reachable state log.lh.n plus the unspent budgets is at most LOGSIZE, and committing implies outstanding is 0. |
| LogBudget.RefusedIsFull | xv6-public/log.c:125-141 | In every reachable state outside a commit an operation is made to wait exactly for want of that room, and then another one is open, which will wake it. |
| LogBudget.NoPanicIffLarger | xv6-public/log.c:214-221 | A write of a new block by an operation within its budget can never panic if and only if log.size exceeds LOGSIZE. |
| LogBudget.PanicRun | xv6-public/log.c:214-221 | For every log.size up to LOGSIZE, a run in which such a write panics. |
| LogBudget.PanicsIffFull | xv6-public/log.c:214-221 | In a larger log a call panics exactly when the log is full, and then every open operation has spent its budget. |
| LogBudget.RewritePanics | xv6-public/log.c:214-229 | A run in which the log is full and a block logged before cannot be logged again, although it would be absorbed. |
| LogBudget.FullCommitRun | xv6-public/log.c:125-174 | For every log.size above LOGSIZE, a run that reaches a commit of LOGSIZE blocks. |
| LogBudget.SmallCommits | xv6-public/log.c:214-229 | Over every run fewer blocks are logged than log.size, or none. |
| LogImpl.SmallLogCommits | xv6-public/log.c:192-202 | With at least log.size buffers, as for log.size == LOGSIZE == NBUF, commit has its buffer in every reachable state. |
| LogImpl.NoSizeFits | xv6-public/param.h:10-12 | With NBUF == LOGSIZE no log.size is right: up to LOGSIZE log_write can panic within a budget, above it a run reaches a commit that finds no buffer. |
| MruList.PushFront | xv6-public/bio.c:50-54 | Linking a buffer behind the head gives the list with it in front, linked both ways. |
| MruList.Unlink | xv6-public/bio.c:132-133 | Unlinking a buffer gives the list without it, linked both ways. |
| Bcache.Cache.constructor | xv6-public/bio.c:38-56 | All buffers in one doubly linked list, none holding a block; the cache shows the disk. |
| Bcache.Cache.PushNode | xv6-public/bio.c:50-54 | The four link updates behind the head. |
| Bcache.Cache.MoveToFront | xv6-public/bio.c:132-137 | The buffer becomes the most recently used, all others keep their order. |
| Bcache.Cache.Bget | xv6-public/bio.c:61-93 | The buffer that holds the block, else the least recently used one that is free and clean; a panic exactly if all are busy, and never while fewer blocks are dirty and buffers referenced than there are buffers. At most one buffer holds a block. |
| Bcache.Cache.Bread | xv6-public/bio.c:96-106 | The buffer's data is what the flat block map says; nothing else changes. The same panic as bget's. |
| Bcache.Cache.Modify | xv6-public/log.c:205-233 | The flat map changes at that block; the buffer is pinned and the disk is not touched. |
| Bcache.Cache.WriteThrough | xv6-public/bio.c:109-116 | Flat map and disk change at that block, and the write is on record. |
| Bcache.Cache.Brelse | xv6-public/bio.c:120-141 | One reference less; at zero the buffer moves to the front. Contents and list stay in order. |
| FsSpec.PutGet | xv6-public/fs.c:389-393 | A word written into an indirect block is read back, and the other entries are as before. |
| Bits.ByteBits | xv6-public/fs.c:66-68 | Or with 1 << k sets bit k of a byte and with its complement clears it; all other bits stay. |
| FsDisk.SetTest | xv6-public/fs.c:66-92 | Setting or clearing the bit of a block changes that bit of the bitmap block and no other. |
| FsDisk.BitLayout | xv6-public/fs.c:64-66 | The bit of a block is bit b % 8 of byte b / 8 of its bitmap block. |
| FsDisk.InodeRoundTrip | xv6-public/fs.c:226-306 | An inode that iupdate puts into its place in a block is what ilock reads there, and the other inodes of the block are as before. |
| FsDisk.InodeLayout | xv6-public/fs.h:28-36 | The fields of an inode stand on disk at the byte offsets of struct dinode, least significant byte first. |
| FsDisk.DataRep | xv6-public/fs.c:47-49 | A data block written and logged: free map and inodes on disk are as before, and the disk differs from that at begin_op in logged blocks only. |
| FsDisk.MarkRep | xv6-public/fs.c:64-93 | The same for a bit of the free map. |
| FsDisk.InodeRep | xv6-public/fs.c:226-234 | The same for an inode. |
| FsDisk.DiskFor | xv6-public/fs.h:8-48 | Every free map, data area and table of inodes is held by some disk, so the states that the theorems speak of exist. |
| FileSystem.FileSys.constructor | xv6-public/fs.c:287-312 | Any disk that holds a file system in order is a starting state; the inodes are read off its blocks. |
| FileSystem.FileSys.Balloc | xv6-public/fs.c:55-78 | The first block whose bit is clear, found by byte and mask in the bitmap blocks, marked and zeroed; a panic exactly if there is none. |
| FileSystem.FileSys.Bzero | xv6-public/fs.c:41-51 | The block is zero. |
| FileSystem.FileSys.Bfree | xv6-public/fs.c:80-95 | The bit of that block, which was set, is cleared in its bitmap block. |
| FsSpec.MovesOwned | xv6-public/fs.c:55-95 | Moving blocks between the map and a call keeps ownership of all others. |
| FsSpec.DirectOwned | xv6-public/fs.c:378-382 | A new direct block keeps: no block owned twice, owned bits set. |
| FsSpec.NewIndirectOwned | xv6-public/fs.c:387-388 | So does a new indirect block, and it lists nothing. |
| FsSpec.EntryOwned | xv6-public/fs.c:391-394 | So does a new entry of an indirect block. |
| FileSystem.FileSys.Bmap | xv6-public/fs.c:372-400 | The block's address; a missing block is taken from the free ones and zero, and no other block of any inode moves or changes. It fails exactly if fewer blocks are free than it has to take, the indirect block among them. |
| FileSystem.FileSys.Readi | xv6-public/fs.c:452-476 | As many bytes as asked for or as the file has from there on, and which: those of the flat contents at the offset; or the error cases. Nothing is allocated or changed. |
| FileSystem.FileSys.Fileread | xv6-public/file.c:96-114 | The same for a file, whose offset moves by what was read. |
| FileSystem.FileSys.Cat | xv6-public/cat.c:7-22 | Reading from the start in pieces of any size until a read gives nothing gives exactly the contents of the file. |
| FileSystem.FileSys.WriteBlock | xv6-public/fs.c:499-503 | One block's part of the data is written, and nothing else changes; which blocks were taken and logged, or that too few are free. |
| FileSystem.FileSys.Writei | xv6-public/fs.c:481-511 | The flat contents are overwritten and extended, every other file is unchanged, the inode on disk is the one in memory; a chunk logs at most MAXOPBLOCKS blocks. It is refused exactly if the offset is beyond the size or the end beyond the largest file, and panics else exactly if fewer blocks are free than the data and its indirect block need. |
| FileSystem.NoRoomIs | xv6-public/fs.c:372-400 | That is: fewer bits of the free map are clear than blocks of the range are missing, with one more if the indirect block is needed and missing. |
| FileSystem.WroteContents | xv6-public/fs.c:498-509 | From blocks to flat contents: overwrite and extend for this inode, equality for all others. |
| FileSystem.OverwriteIs | xv6-public/fs.c:498-509 | Byte after byte, or all at once: the start of the file, the data, and what of the file lies behind it. |
| FileSystem.ReadBack | xv6-public/fs.c:452-511 | What was written is read back, and what lies outside is read as before. |
| FileSystem.Spent | xv6-public/fs.c:482-511 | The count: data blocks, bitmap blocks, the indirect block and the inode block stay within MAXOPBLOCKS at any offset up to the size, on any disk. |
| FileSystem.FileSys.Iupdate | xv6-public/fs.c:220-236 | The bytes of the disk inode are those of the inode in memory; the rest of the disk says what it did. |
| FileSystem.FileSys.Itrunc | xv6-public/fs.c:407-435 | Exactly the blocks of the inode become free, none of them free before; every other file is unchanged. It logs exactly the bitmap blocks over the inode's blocks, the indirect block among them, and the inode's block. |
| FileSystem.BitmapBlocksAre | xv6-public/fs.c:407-435 | These bitmap blocks are those of the bits of the inode's data blocks and its indirect block, and no others. |
| FileSystem.TruncatedInv | xv6-public/fs.c:407-435 | The ownership and allocated-below-size invariants hold again, and other files have the same contents. |
| FileSystem.FileSys.Iput | xv6-public/fs.c:331-352 | Frees exactly a valid inode without links at its last reference; the file is then empty, its type 0, all else as before, and only logged blocks differ on disk. As a transaction it keeps to MAXOPBLOCKS if and only if the inode's blocks lie under fewer than MAXOPBLOCKS bitmap blocks. |
| FileSystem.DropBudget | xv6-public/fs.c:407-435 | What truncation logs is at most MAXOPBLOCKS blocks if and only if the inode's blocks lie under fewer than MAXOPBLOCKS bitmap blocks. |
| FileSystem.SmallDisk | xv6-public/fs.c:407-435 | That holds for every inode of every disk of at most nine bitmap blocks, 36864 blocks. |
| WideInode.DropOverruns | xv6-public/fs.c:407-435 | A disk of ten bitmap blocks, holding a file system in order, with an inode without links whose truncation logs eleven blocks. |
| FileSystem.FileSys.Filewrite | xv6-public/file.c:126-153 | Chunk by chunk the data is overwritten and extended at f->off; short only where writei refuses the next chunk, panicking only where the disk has no room for it. The call is a run of transactions, each of which changes logged blocks only, MAXOPBLOCKS at most, all of them on the disk and outside the log, and leaves a disk that holds the file system with that chunk written. |
| FileSystem.FileSys.Chunk | xv6-public/file.c:140-145 | One transaction: refused exactly if the offset is beyond the size or the end beyond the largest file, panicking else exactly if the disk has no room; otherwise the disk before and after holds the file system without and with the chunk, and differs in logged blocks of the disk only, MAXOPBLOCKS at most. |
| FileSystem.ChunksWritten | xv6-public/file.c:135-152 | After k transactions the file is overwritten and extended by the first k chunks, every other file unchanged. |
| FileSystem.ChunkedIs | xv6-public/file.c:133-138 | k chunks are k times the chunk size, or all of the data. |
| FsCrash.CommitRaw | xv6-public/log.c:177-202 | The blocks that some operations logged, put into the disk before the first, give the disk after the last. |
| FsCrash.CommitFor | xv6-public/log.c:125-202 | Every run of operations that fit the log together, filewrite chunks or iputs, has a commit that the log takes. |
| FsCrash.CommitPossible | xv6-public/log.c:125-202 | Whenever the machine is up, such operations can be committed, with the power failing after any of the writes. |
| FsCrash.StepGood | xv6-public/log.c:115-202 | Every commit or recovery, cut off after any write, leaves a disk from which recovery finds a file system in order. |
| FsCrash.CleanStart | xv6-public/log.c:53-66 | A disk with a clean log that holds a file system in order is where such a run can start. |
| FsCrash.FilesSurvive | xv6-public/log.c:69-202 | Over every run of commits of filewrite and iput transactions, crashes and interrupted recoveries, once the machine is up its disk holds a file system in order in which every file has the contents of the committed transactions, whole and in order; a file freed by iput is empty. |
| FsCrash.AfterChunks | xv6-public/file.c:127-152 | If of the transactions of a filewrite the first k are committed, the file has exactly the first k chunks of the data. |
| FsCrash.OthersStay | xv6-public/file.c:127-152 | Every other file is then as before. |
| FsCrash.FilewriteCut | xv6-public/file.c:126-153 | For the transactions of any filewrite and any run that commits them in order and is cut off anywhere, in a commit or a recovery: once the machine is up its disk holds a file system in which the file has a whole number of chunks of the data, and every other file is as before. |
| FsCrash.FilewriteGoesOn | xv6-public/file.c:126-153 | Such runs exist: from any of the transactions they can be committed up to any other. |
| FsCrash.DiskDecides | xv6-public/fs.c:287-312 | The home blocks of a disk decide the contents of every file. |
| FreeList.FreedSorted | xv6-public/umalloc.c:30-43 | The merged ring is in address order with gaps between its blocks: fully coalesced. |
| FreeList.FreeKeeps | xv6-public/umalloc.c:24-44 | free keeps: ordered, coalesced, disjoint from live blocks, units conserved. |
| FreeList.TakeKeeps | xv6-public/umalloc.c:82-91 | So does giving out units. |
| FreeList.GrowKeeps | xv6-public/umalloc.c:46-66 | So does a region from sbrk. |
| Umalloc.PayloadFits | xv6-public/umalloc.c:76 | About rounding only: the block holds the request if and only if rounding up does not wrap around 32 bits, and then no smaller block does. |
| Umalloc.WrappedRequest | xv6-public/umalloc.c:76 | The largest request gets a header and no bytes. |
| Umalloc.Core | xv6-public/umalloc.c:52-53 | morecore asks for the units of the request, but for no fewer than 4096. |
| Umalloc.BreakFits | xv6-public/umalloc.c:52-76 | If no free block fits, sbrk is asked for a positive number of bytes in a block that holds the request if and only if the request is at most 2^31 - 16 bytes. |
| Umalloc.NegativeBreak | xv6-public/umalloc.c:52-55 | A request of 2^31 bytes asks sbrk for a negative number of bytes. |
| Umalloc.Heaplet.constructor | xv6-public/umalloc.c:21-22 | The state before the first call. |
| Umalloc.Heaplet.Search | xv6-public/umalloc.c:30-32 | The walk ends, at the last place whose address is below the block. |
| Umalloc.Heaplet.Splice | xv6-public/umalloc.c:33-42 | The headers as free leaves them, merged with each neighbour that touches. |
| Umalloc.Heaplet.Free | xv6-public/umalloc.c:24-44 | The live block goes into the ring at its place, merged; everything else stays live and nothing is lost. |
| Umalloc.Heaplet.Morecore | xv6-public/umalloc.c:46-68 | At least 4096 units from sbrk become a free block; nothing changes if there are none. |
| Umalloc.Heaplet.Round | xv6-public/umalloc.c:81-94 | One round of the search ends, with the first fitting block and its predecessor, or with none in the ring. |
| Umalloc.Heaplet.TakeBlock | xv6-public/umalloc.c:82-91 | The block is unlinked, or its end is cut off; the rest of the heap stays. |
| Umalloc.Heaplet.Malloc | xv6-public/umalloc.c:70-97 | A new live block of just the units of the request, disjoint from all others, cut off the end of the first free block behind freep that fits; the heap grows only if none fits, and at most once. No memory exactly if none fits, the byte count for sbrk is positive and sbrk gives none; broken exactly if none fits and the byte count is not positive; the heap is then as before. |
| VmSpec.MovesInv | xv6-public/kalloc.c:59-95 | Moving pages between the free list and a call keeps one owner per page. |
| VmSpec.MapUserInv | xv6-public/vm.c:69-73 | So does entering a page of user memory. |
| VmSpec.UnmapUserInv | xv6-public/vm.c:269-276 | So does taking one back. |
| VmSpec.NewTableInv | xv6-public/vm.c:45-52 | So does a new page table, and it shows nothing new. |
| Vm.Kernel.constructor | xv6-public/kalloc.c:31-44 | Before the free list is built. |
| Vm.Kernel.Kalloc | xv6-public/kalloc.c:82-95 | The first free page, or none; keeps the invariant. |
| Vm.Kernel.Kfree | xv6-public/kalloc.c:59-77 | The page is filled with junk, put at the head of the list, and nothing else changes. |
| Vm.Kernel.Freerange | xv6-public/kalloc.c:46-53 | Exactly the pages that lie in the range as a whole become free. |
| Vm.CeilIs | xv6-public/kalloc.c:46-53 | PGROUNDUP gives the first page that begins at the address or behind it. |
| Vm.Kernel.Walk | xv6-public/vm.c:35-55 | The table of the entry, created if asked for, at the cost of one page; every address space is as before. |
| Vm.Kernel.MapPages | xv6-public/vm.c:60-80 | As many entries as reported lead to the given pages, all others are as before; all of them if and only if the free pages suffice for the tables that are missing, which are then all the pages taken. |
| Vm.Kernel.Setupkvm | xv6-public/vm.c:118-136 | Exactly the kernel's mappings, for 65 pages; it fails if and only if fewer are free, and then all pages are as before and the same ones free. |
| Vm.Kernel.Allocuvm | xv6-public/vm.c:221-249 | Zeroed writable pages for the whole growth, or the address space as before with at most page tables left behind; it succeeds if and only if the free pages suffice for the growth and the tables it needs. |
| Vm.GrowthIs | xv6-public/vm.c:221-249 | The number of free pages that a growth needs: its pages, and one for every directory entry of the range that has no table. |
| Vm.Kernel.Unmap | xv6-public/vm.c:269-276 | The page is free and its entry cleared. |
| Vm.Kernel.Deallocuvm | xv6-public/vm.c:255-279 | The skip-ahead loop does what looking at every page would: all entries in the range cleared, their pages free, nothing else. |
| Vm.Kernel.Freevm | xv6-public/vm.c:283-298 | Exactly the pages of the directory become free. |
| Vm.Kernel.Copyuvm | xv6-public/vm.c:315-345 | A child with the parent's bytes and flags below sz on pages of its own; it fails if and only if fewer pages are free than the kernel's 65, one for every page and one for every table, and then all pages are as before and the same ones free. |
| Vm.CopyIs | xv6-public/vm.c:315-345 | The number of free pages that a copy needs: the kernel's 65, its pages, and one for every directory entry of its range. |
| Vm.CopyThenFree | xv6-public/vm.c:284-345 | freevm after copyuvm restores exactly the original set of free pages. |
| Vm.ChildApart | xv6-public/vm.c:315-345 | The parent's address space is unchanged and shares no page with the child's. |
| PipeSpec.Fifo | xv6-public/pipe.c:59-121 | Over every interleaving, bytes accepted are bytes delivered and then bytes buffered, at most PIPESIZE; a writer sleeps only on a full pipe that can be read. |
| PipeSpec.EndOfFile | xv6-public/pipe.c:100-121 | Over every run, a call for bytes is done and gives none exactly on an empty pipe without a writer, and all that was ever written has then been read. |
| PipeSpec.EndIsFinal | xv6-public/pipe.c:59-121 | After that no run changes what was written or read. |
| PipeSpec.ReadersStep | xv6-public/pipe.c:79-98 | A step breaks "a sleeping reader finds the pipe empty and writable" if and only if it is a killed writer's with more than PIPESIZE bytes while a reader sleeps. |
| PipeSpec.NoLostWakeup | xv6-public/pipe.c:59-121 | Over every run without such a write, a sleeping reader finds the pipe empty and writable, and readers and writers never both sleep. |
| PipeSpec.ReaderSleepsOn | xv6-public/pipe.c:85-89 | A run with such a write after which a reader sleeps on a full pipe. |
| PipeRing.Ring.constructor | xv6-public/pipe.c:33-36 | An empty pipe, open at both ends. |
| PipeRing.Ring.Put | xv6-public/pipe.c:93 | A byte at the end of what is buffered, also where the 32-bit counter wraps. |
| PipeRing.Ring.Take | xv6-public/pipe.c:116 | The first buffered byte, also where the 32-bit counter wraps. |
| PipeRing.Ring.FullIs | xv6-public/pipe.c:85 | The comparisons of wrapped counters mean full and empty. |
| PipeRing.Ring.Write | xv6-public/pipe.c:78-98 | How many bytes go in: all, or as many as there is room for; they are put behind what is buffered. Done, failed or asleep, who sleeps then, and that the call is a step of the pipe. |
| PipeRing.Ring.ReadBytes | xv6-public/pipe.c:100-121 | How many bytes come out: as many as asked for, or all there are, from the front of what is buffered. Done, failed or asleep, who sleeps then, and that the call is a step of the pipe. |
| PipeRing.Ring.CloseSide | xv6-public/pipe.c:59-75 | That side is closed and who sleeps on it is woken; a step of the pipe. |
| Grep.Match | xv6-public/grep.c:72-82 | 1 exactly when some substring, where ^ and a final $ allow it, is in the language of the pattern whose text is the argument. |
| Grep.MatchHere | xv6-public/grep.c:85-96 | 1 exactly when a prefix of the text is in the language of the pattern whose text is the argument, the whole text with a final $. |
| Grep.MatchStar | xv6-public/grep.c:99-106 | The same for c* followed by the rest; the loop ends. |
| Grep.OneHere | xv6-public/grep.c:93-94 | A single character and then the rest of the pattern. |
| Grep.StarHere | xv6-public/grep.c:99-106 | Any number of characters and then the rest of the pattern. |
| Grep.ParseIs | xv6-public/grep.c:85-96 | The items found from the left are those of a pattern whose text is the given one, and can be told apart in it. |
| Grep.ParseShow | xv6-public/grep.c:85-96 | No other pattern that can be told apart has that text. |
| Grep.ParseAllIs | xv6-public/grep.c:72-82 | The same for a whole pattern with its ^. |
| Grep.ParseShowAll | xv6-public/grep.c:72-82 | And no other has that text. |
| Grep.WordSearch | xv6-public/grep.c:72-96 | A word without special characters but '.' is searched for as a substring, a '.' matching any character. |
| Grep.StarLine | xv6-public/grep.c:85-106 | The pattern ^c*$ asks for a text of nothing but c, or of anything if c is a '.'. |

## Left out

- Umalloc.Heaplet.Malloc: what the process does after `Broken`, when it takes the old break for new memory, is not modelled.
- FileSystem.FileSys.Readi: device inodes are only reported; the device functions are not modelled.
- FileSystem.FileSys.Fileread: readable files on inodes; pipes are in `PipeRing`.
- FileSystem.FileSys.Cat: what it writes is a sequence of bytes; write errors are not modelled.
- FileSystem.FileSys.Writei: device inodes as for readi, and the state after a panic of balloc is unspecified.
- FileSystem.FileSys.Filewrite: writable files on inodes that are no devices, and offsets that fit 32 bits with the data; begin_op and end_op appear as the reset of the set of logged blocks.
- FileSystem.FileSys.Bfree: the panic on a free block is a condition of the caller, which itrunc meets.
- FileSystem.FileSys.Iput: the in-memory reference count and valid flag are parameters, and its transaction is that of fileclose, in which nothing else is logged.
- LogImpl.Log.LogWrite: the caller's change of the data and log_write are one step.
- Vm.Kernel.Kalloc: the free list is a sequence of page numbers; the link stored in a free page is not modelled.
- Vm.Kernel.Copyuvm: requires the pages below sz to be present, as the source's panics do.
- Vm.Kernel.Allocuvm: requires the pages of the growth to be absent, as the source's remap panic does.
- ProcShare.ProportionalShare: for a fixed set of processes that stay RUNNABLE, as fairness is meant; no forks, sleeps or exits in between.
- PipeRing.Ring.Write: the copy from user memory is a sequence of bytes; a negative count is not modelled.
- The file system over the log: `FileSys` works on the blocks that the buffer cache is proved to show, and a commit takes the blocks that it has logged; the objects of the two classes are not composed. A call of commit is one step of `Log`, so readers that take no transaction, such as fileread, are not interleaved with its writes.
- Inode allocation, the inode cache, link counts, directories and path walking (fs.c, sysfile.c).
- loaduvm, inituvm, clearpteu, copyout, exec and growproc; kernel stacks and trap frames.
- grep's line buffer, all other user programs and the shell.
- Drivers, interrupts, boot code, spinlocks and memory ordering.
- Input, printing and random data of the simulator; the earlier copies of proc.c.
