# DoglinkOS-2nd: verified model of the kernel's state machines

This project models the parts of DoglinkOS-2nd that keep state by hand, and proves what they
promise, with Dafny 4.11: `dafny verify dfyconfig.toml`.

* **Memory** (`PageMan`, `PageAlloc`, `PageTree`, `PhysMem`, `TableCopy`, `TableFree`, `TreeWalk`,
  `TableMap`, `Memory`, `FrameBooks`, `ForkProof`, `PageProof`, `FaultProof`, `EagerOs`, `Views`,
  `Runs`, `Limits`, `Kernel`). The packed bitmap with its 8-bit counts, aligned first fit, the
  recursive copy and release of page tables, demand paging, copy-on-write, exec's page mapping, fork,
  exit, and the buffers of drivers. Two results carry it: each frame has exactly one role, with an
  exact count, in every state (`FrameBooks.Os.Inv`), and the lazily shared memories behave like
  memories that fork copies at once (`Runs.RunRefinesEagerCopy` over the small specification in
  `EagerOs`). Both hold over all runs within limits that are exact.
* **IPC** (`IpcState`, `Ipc`). Channels, listeners, handle tables and the name registry. Reference
  counts kept by hand equal the number of table slots and pending connections in every state; what
  refused calls leave behind; messages over whole histories; fork and exit cancel out.
* **Scheduler** (`Sched`, `SchedFair`). The credit scheduler with waitpid; no starvation by a rank
  that every scheduling call lowers; who waits runs after its target is gone, soon, and not before.
* **xHCI rings** (`Laps`, `Trb`, `EventRings`, `LinkRings`). Cycle bits over unlimited laps, for
  the event ring and for producer rings with a Link TRB (xHCI specification, sections 4.9.2 to
  4.9.4).
* **USB** (`Bot`, `Descriptors`, `MscSelection`). Bulk-Only Transport with its bounded retry
  (Bulk-Only Transport 1.0, sections 5.1 to 5.3 and 6), and the selection of endpoints from
  configuration descriptors (USB 2.0, sections 9.6.3, 9.6.5 and 9.6.6).
* **Block views and checksum** (`Partition`, `Checksum`). A partition over devices with all-or-nothing
  and with short reads; the Internet checksum (RFC 1071, section 1) and the echo reply.

Objects whose methods update fields are classes with those fields. Their contracts tie the new state
to the old through value-level snapshots (`Memory.M`, `Kernel.State`, `IpcSystem.S`, `Scheduler.S`),
and the lemmas are about those values. Machine arithmetic follows a release build, as in
`.github/workflows/rust.yml`: 8-bit counts wrap at 256 and the checksum's 32-bit sum wraps.

## What is true only within limits

* **Fork.** A frame's count is 8 bits wide, and the table copy skips tables above 4 GiB. Fork is right
  if and only if it stays within both limits (`ForkProof.ForkKeepsBooks`, `Views.ForkChild`). A process
  that maps a frame once survives 254 forks in a row (`Limits.ForkRunExact`, `FatalFork`);
  `Limits.HighTableState` is a state with a table above 4 GiB, and `HighTableLosesPage` its fork.
* **The upper half.** A break may be any number, the fault handler compares with the break only, and
  exec maps any segment. A page above the user half gets a frame that no count accounts for: exit never
  returns it, and fork shares it writable and uncounted. This happens if and only if the break is above
  0xffff_8000_0000_0000 (`Runs.UpperAllowed`), or a segment has a page there that can be mapped
  (`Kernels.Kernel.DoExec`). `Kernels.Kernel.TouchAboveThenFork` is the input, `PageProof.UpperRemapLoses`
  and `Limits.UpperPageShared` the reasons.
* **Stores above the user half.** The table copy opens the kernel's own mappings to the program
  (`Limits.ChildWritesUpper`), so that a store there reaches whatever frame they map. It shows in another
  process exactly where that process maps the frame (`Runs.UpperStoreShows`, `Views.StoreShows`), and one
  into a page table can break the books (`Limits.TableStoreBreaks`).
* **All together.** `Runs.StepLimitsExact`: a step is right if and only if it is within the limits.
  `Runs.LowRunWithinLimits` gives conditions that callers can check. Above the user half the invariant
  still holds with the lost frames named, as long as the counts fit and no page table is stored into
  (`Runs.RunStaysSound`).
* **Receive.** The result 0 means end of file, but also an empty message or an empty buffer:
  `Ipcs.ZeroMeans` is exact.
* **`EventRing`.** An entry published with bit 0 set in a lap that writes zeros blocks the ring:
  `EventRings.RecognisedIff`, `DrainsIffClean` and `BlockedForEver`.
* **Link TRBs.** At a wrap the driver rewrites the Link with the toggled cycle bit. A controller that
  has not followed the Link by then stops there for a whole lap, and for ever when one TRB is in
  flight at a time: `LinkRings.PromptOrMissed`, `GoesOnOnlyIfPrompt`, `GoesOnIffPrompt`, `MissedLink`,
  `MissedForEver`, `StallExample`. What it does execute is in order (`AlwaysInOrder`), with
  one exception. A bulk transfer that times out leaves the producer where it is, and the next one is
  written into the same slot: it is executed exactly if the first had not been (`RewriteFate`,
  `RewriteSeen`, `NextInOrder`).
* **Command ring.** Every command that times out may stay in flight (`LinkRings.InFlight`), and nothing
  keeps the driver from overwriting the oldest (`RoomExact`, `Overrun`).
* **Checksum.** The 32-bit sum is exact up to 131074 bytes and not beyond (`Checksums.NoOverflowIff`).

## Model

| member | source | states |
|---|---|---|
| `PageMans.PageMan.Set` | kernel/src/mm/bitmap.rs:22-26 | Exactly one bit of the packed bitmap changes; no count does. |
| `PageMans.PageMan.Get` | kernel/src/mm/bitmap.rs:28-32 | The bit at a position, read from word `pos / 64`, bit `pos % 64`. |
| `PageMans.PageMan.SetRange` | kernel/src/mm/bitmap.rs:34-38 | All bits of the range and no others take the value. |
| `PageMans.PageMan.Incref` | kernel/src/mm/bitmap.rs:40-42 | One count goes up by one modulo 256, everything else stays. |
| `PageMans.PageMan.Decref` | kernel/src/mm/bitmap.rs:44-46 | One count goes down by one modulo 256, everything else stays. |
| `PageAllocs.PageAlloc.FindAlignedContinuousMem` | kernel/src/mm/page_alloc.rs:95-124 | Returns the least aligned start of a free run of the wanted length and clears exactly those bits, or None exactly when the request is malformed or no such run exists, and then nothing changes. |
| `PageAllocs.PowersOfTwo` | kernel/src/mm/page_alloc.rs:95-102 | The alignment test accepts 2^k for every k and nothing else. |
| `PageAllocs.PageAlloc.DeallocContinuousMem` | kernel/src/mm/page_alloc.rs:126-141 | Sets the bits of the range that lie in the bitmap, and warns once for every page that was free already. |
| `PageAllocs.PageAlloc.AllocPhysicalPage` | kernel/src/mm/page_alloc.rs:143-152 | Takes the lowest free page, or None exactly when no page is free. |
| `PageAllocs.PageAlloc.DeallocPhysicalPage` | kernel/src/mm/page_alloc.rs:154-161 | Returns one page and warns exactly on a double free. |
| `PageAllocs.DmaBuffer.Create` | kernel/src/mm/dma.rs:72-96 | A DMA buffer owns a free run covering its length at the alignment asked for, and the bitmap lost exactly that run; which refusal, and that a refusal changes nothing. |
| `PageAllocs.DmaBuffer.Drop` | kernel/src/mm/dma.rs:123-127 | Dropping a DMA buffer gives back exactly its pages. |
| `PageAllocs.TakeThenReturn` | kernel/src/mm/page_alloc.rs:116-141 | Returning a run that was found restores the bitmap exactly. |
| `PageTree.TreeFrame` | kernel/src/task/process.rs:149-197 | A page-table tree reads the same in two memories that agree on its own table frames. |
| `TableCopy.CopiedTrees` | kernel/src/task/process.rs:149-197 | After the copying loop the source is the old source with user leaves write-protected, and the destination is a copy of it with user leaves read-only. |
| `TableCopy.CopiedSlot` | kernel/src/task/process.rs:159-196 | One entry of a copied table, flag by flag, on both sides: mappings, tables, absent entries, and tables above 4 GiB, for the boot copy and for fork. |
| `TableCopy.StepLeaf` | kernel/src/task/process.rs:163-175 | One turn of the loop at a leaf keeps the statement about the entries already copied: a user leaf is shared, counted and write-protected on both sides. |
| `TableCopy.StepSub` | kernel/src/task/process.rs:176-195 | One turn of the loop at a table keeps it: the new table and everything below it is a copy, and no table is shared. |
| `TableCopy.StepSkip` | kernel/src/task/process.rs:160-183 | Absent entries and tables above 4 GiB are skipped. |
| `TableCopy.TooHighOutright` | kernel/src/task/process.rs:176-183 | A table is skipped exactly if its frame number is above 0x10_0000, which is the address 4 GiB. |
| `Memories.Memory.RCopy` | kernel/src/task/process.rs:149-197 | The recursive table copy, in place: on success the two trees, the free list and the counts are as `Copied` says; it fails only when no frame is free. |
| `Memories.Memory.CopyEntry` | kernel/src/task/process.rs:159-196 | One turn of the copying loop. |
| `Memories.Memory.RFree` | kernel/src/task/process.rs:234-270 | The recursive table release, in place: user leaves drop one reference each, a frame is freed exactly when its last reference goes, tables that held only user entries are freed. |
| `Memories.Memory.FreeEntry` | kernel/src/task/process.rs:240-269 | One turn of the releasing loop. |
| `TableFree.LeafStep` | kernel/src/task/process.rs:245-259 | One released leaf: its reference is gone, and its frame free if it was the last. |
| `TableFree.TableStep` | kernel/src/task/process.rs:260-267 | One released table: everything below is released and the table's own frame is free. |
| `Memories.Memory.MapTo` | kernel/src/mm/page_alloc.rs:225-234 | The mapper's walk in either half: creates missing tables and opens the others to the user, refuses exactly a page that is mapped or lies in a large mapping, and otherwise changes the mapping of that page only. A refusal in the user half changes nothing. |
| `TableMap.MapAbove` | kernel/src/mm/page_alloc.rs:225-234 | A mapping made below an entry, its table new or just opened, is a mapping of the whole tree, and every new table is owned by it once. |
| `TreeWalk.MmuIsLookup` | kernel/src/mm/page_alloc.rs:263-275 | For trees the kernel builds, in the user half, the processor's level-by-level permission check grants exactly what the last-level entry allows, to the program and to the kernel. |
| `TreeWalk.StoreAtLeaf` | kernel/src/mm/page_alloc.rs:283-297 | Overwriting the last-level entry of a page, in either half, changes the mapping of that page and of no other; only in the user half it is counted. |
| `TreeWalk.GrantIsLookup` | kernel/src/mm/page_alloc.rs:209-240 | In either half, where the walk reaches a last-level entry the processor denies the access or grants the frame of that entry. |
| `TreeWalk.MmuOutright` | kernel/src/mm/page_alloc.rs:209-240 | In either half, in terms of the entries read on the way: a fault if the last is absent or any of them forbids the access, else the page that the last one maps. |
| `Views.PathIsPage` | kernel/src/mm/page_alloc.rs:225-234 | The four table indices of a page are the low 36 bits of its number, nine bits each, the highest first. |
| `FrameBooks.OneTask` | kernel/src/task/process.rs:224-232 | When only one process's tables change, all totals change by what its tree changed. |
| `ForkProof.ForkKeepsBooks` | kernel/src/task/process.rs:149-222 | Fork keeps every frame in exactly one role with an exact count if and only if no frame reaches 256 mappings. |
| `ForkProof.ForkTrees` | kernel/src/task/process.rs:149-222 | After fork the parent's tree is the old one write-protected, the child's a copy of what is reachable below 4 GiB, all others unchanged. |
| `ForkProof.CopiedEntry` | kernel/src/task/process.rs:149-197 | After the copy a page of the user half that is reached below 4 GiB is mapped to its frame on both sides, writable on neither; a page above the user half keeps its flags on the old side and is open to the user on the new one. Both entries are spelled out flag by flag. |
| `PageProof.RemapKeepsBooks` | kernel/src/mm/page_alloc.rs:209-299 | A page of the user half that gets a new frame, or its own frame back writable, leaves every frame accounted for. |
| `PageProof.UpperRemapLoses` | kernel/src/mm/page_alloc.rs:216-236 | A page above the user half that gets a new frame takes that frame out of the books: it is neither free, nor a table, nor a user page; if the page was unmapped all other frames stay accounted for. |
| `PageProof.ReleaseKeepsBooks` | kernel/src/task/process.rs:224-270 | Releasing the user half of a process, or all of it, leaves every frame accounted for. |
| `FaultProof.MapIsRemap` | kernel/src/mm/page_alloc.rs:221-236 | Taking a free frame and mapping it at an unmapped page is one such step. |
| `FaultProof.ReuseIsRemap` | kernel/src/mm/page_alloc.rs:294-298 | Making a frame writable in place, when its count is at most one, is one such step. |
| `FaultProof.CopyIsRemap` | kernel/src/mm/page_alloc.rs:274-293 | Copying a shared page, dropping the old reference and mapping the copy is one such step. |
| `Views.OnlyView` | kernel/src/mm/page_alloc.rs:274-298 | A frame with count one is seen through one page of one process only. |
| `Views.StoreWorld` | kernel/src/mm/page_alloc.rs:274-298 | A byte stored in a frame with a single mapping in the user half is the eager write of one byte for one process; `EagerOs.WriteThenRead` says byte by byte what that is. |
| `EagerOs.WriteThenRead` | kernel/src/mm/page_alloc.rs:209-240 | Reading over writing: the address written reads the new byte, every other address what it read before, and the break stays. |
| `EagerOs.TouchThenRead` | kernel/src/mm/page_alloc.rs:216-240 | A demand-paged page changes no byte that can be read: what was absent reads as zero. |
| `Views.StoreShows` | kernel/src/mm/page_alloc.rs:274-298 | A store into any frame that is no table leaves every process's memory as it was if and only if no process maps the frame or the byte was there already. |
| `Views.RemapWorld` | kernel/src/mm/page_alloc.rs:209-299 | Remapping a user page changes what that process sees there and nothing else in the world. |
| `Views.ForkChild` | kernel/src/task/process.rs:176-222 | The child sees exactly its parent's memory if and only if no page of the parent lies behind a table above 4 GiB. |
| `Runs.StepLimitsExact` | kernel/src/task/process.rs:149-270 | For every step, stores through any mapping included: all counts are right, no frame leaves the books and every process sees what eager copying gives it, if and only if the step is within the limits: counts up to 255 and tables up to 4 GiB in fork, and pages and stores of the lower half. |
| `Runs.StepSound` | kernel/src/mm/page_alloc.rs:209-299 | For every step in either half: the counts stay exact if fork's counts fit, no shared frame is copied above the user half and no store goes into a page table, and for steps that are no stores only then; a frame is lost exactly when a page is added above the user half; of what happens there only a store shows in a user half, and exactly if some process maps the frame and the byte is another. |
| `Runs.UpperStoreShows` | kernel/src/task/process.rs:163-187 | A store above the user half into a frame that a process maps changes that process's page, and the books stay right. |
| `Limits.ChildWritesUpper` | kernel/src/task/process.rs:163-187 | Whatever the parent's tables let the kernel write above the user half, large mappings included, the child may write in user mode. |
| `Limits.TableStoreBreaks` | kernel/src/task/process.rs:163-187 | A store into a root table that makes a lower entry a large mapping leaves the books wrong. |
| `Runs.RunStaysSound` | kernel/src/task/process.rs:224-270 | Over every run whose counts fit and whose stores leave page tables alone, in either half, every frame is accounted for or lost, and a lost frame is never free again. |
| `Limits.FatalFork` | kernel/src/mm/bitmap.rs:40-42 | A process that maps a frame once forks 255 times in a row: after 254 forks the count is 255 and all is accounted for, after the next it is 0. |
| `Limits.ForkRunExact` | kernel/src/task/process.rs:163-175 | Any number of forks of one process keeps the books if and only if no frame gets to 256 by its share in each of them; every fork adds the same share. |
| `Limits.HighTableLosesPage` | kernel/src/task/process.rs:176-183 | A concrete state with every frame accounted for, whose process has a page behind a table above 4 GiB: any fork of it keeps the books and loses that page. |
| `Limits.UpperPageShared` | kernel/src/task/process.rs:163-175 | Fork shares a page above the user half without counting or protecting it: both processes may write the same frame. |
| `Kernels.Kernel.TouchAboveThenFork` | kernel/src/mm/page_alloc.rs:209-240 | The input 0xffff_9000_0000_0000 below a break of 0xffff_ffff_ffff_f000: the fault is handled, the frame is lost, and after a fork that reaches it both processes write it, with a count of one. |
| `Runs.RunRefinesEagerCopy` | kernel/src/task/process.rs:149-270 | Over every run of forks, exits, faults, writes, breaks, exec mappings and driver buffers within the limits: all frames stay accounted for, none is lost, and each process sees what it would see if fork copied everything at once. |
| `Runs.LowRunWithinLimits` | kernel/src/task/syscall.rs:139-148 | A run is within the limits throughout if every fork fits, every break set is at most 0xffff_8000_0000_0000, and program segments, copied pages and stores lie in the user half. |
| `Runs.UpperAllowed` | kernel/src/mm/page_alloc.rs:216-221 | The fault handler accepts a page above the user half if and only if the break is above 0xffff_8000_0000_0000. |
| `Runs.ExitUndoesFork` | kernel/src/task/process.rs:149-270 | Fork followed by the child's exit restores all free bits and counts; the parent's translations only lost their write permission. |
| `Runs.WritableIsSole` | kernel/src/task/process.rs:163-175 | A page mapped writable lies in a frame with no other mapping. |
| `Kernels.Kernel.DoFork` | kernel/src/task/process.rs:275-287 | The child's number is new, and the state changes by one fork step; None only when no frame is free. |
| `Kernels.Kernel.FreePageTables` | kernel/src/task/process.rs:224-232 | Releases the user half, and the top table too unless only the user half is to go. |
| `Kernels.Kernel.DoExit` | kernel/src/task/process.rs:363-375 | One exit step; no page is freed twice. |
| `Kernels.Kernel.SysBrk` | kernel/src/task/syscall.rs:139-148 | Returns the old break and sets a non-zero new one. |
| `Kernels.Kernel.DemandPage` | kernel/src/mm/page_alloc.rs:216-240 | For every canonical address: a fault from 0x7fff_ff80_0000 up to 2^47, or below the break, maps a zeroed page with count one, unless the mapper refuses the page; above the user half the frame is lost to the books. |
| `Kernels.Kernel.ResolveCowFault` | kernel/src/mm/page_alloc.rs:263-299 | For every canonical address: after a write-protection fault the page is writable, as one step; the counts are exact afterwards if and only if the page is a user page or its frame is not shared. |
| `Kernels.Kernel.DoUserPageFault` | kernel/src/mm/page_alloc.rs:209-240 | The fault entry for every canonical address: exactly the two recoverable cases, each one step, and what failed when neither was taken. |
| `Kernels.Kernel.UserWrite` | kernel/src/mm/page_alloc.rs:209-240 | A user write, with whatever fault it takes: below 2^47 the address reads the new byte afterwards and every other address what it read before; above, through whatever mapping, it is one store into the frame granted, which shows exactly where that frame is mapped. |
| `Kernels.Kernel.UserRead` | kernel/src/mm/page_alloc.rs:209-240 | A user read below 2^47 returns the byte of the eager memory, 0 for untouched stack and heap; one above it returns the byte of the frame granted, large mappings included, or what the device there answers. |
| `Kernels.Kernel.KernelWrite` | kernel/src/mm/page_alloc.rs:247-253 | A kernel write through a user pointer resolves copy-on-write and never demand-pages; below 2^47 the address reads the new byte and every other address what it read before; above it is one store into the frame granted. |
| `Kernels.Kernel.ExecMapPage` | kernel/src/task/process.rs:322-342 | One page of a segment, in either half: mapped in a frame with its old bytes, or, when it is mapped or lies in a large mapping, refused, and the frame given back. |
| `Kernels.Kernel.ExecMapRange` | kernel/src/task/process.rs:318-343 | All user pages of the range exist afterwards and the others are as they were; frames are lost if and only if a page above the user half could be mapped. |
| `Kernels.Kernel.DoExec` | kernel/src/task/process.rs:299-343 | For segments with any 64-bit address and size: afterwards the process has exactly the user pages of its segments and its break is their highest end, the other processes see what they saw, and frames are lost if and only if a segment has a page above the user half that can be mapped. |
| `Kernels.LowProgram` | kernel/src/task/process.rs:318-343 | A program whose segments all lie in the user half loses no frame. |
| `Kernels.HighSegment` | kernel/src/task/process.rs:318-343 | A segment above the user half covers exactly the pages of its bytes; one that ends with the address space has the end 0. |
| `Kernels.Kernel.Boot` | kernel/src/task/process.rs:116-147 | The first process's copy of the boot tables starts the books right if and only if the lower half of the boot table is bare: no mapping there that is copied, and no table closed to writing. |
| `Kernels.Kernel.TakeDma` | kernel/src/mm/dma.rs:72-96 | A driver's buffer is one step: its frames are held, every other frame stays accounted for, and no process notices. |
| `Kernels.Kernel.DropDma` | kernel/src/mm/dma.rs:123-127 | Dropping a held buffer is one step: its frames are free, without a warning, and everything stays accounted for. |
| `Kernels.BootBooks` | kernel/src/task/process.rs:137-147 | From frames that are free or held, every frame is accounted for exactly if the boot table's lower half is bare, and then the first process sees nothing there. |
| `IpcStates.ReleaseKeeps` | kernel/src/task/ipc/mod.rs:403-413 | Letting go of a channel handle keeps all counts exact; the count was positive, so the guard never fails; the last one closes the side and empties its queue. |
| `IpcStates.CloseListenerKeeps` | kernel/src/task/ipc/mod.rs:414-429 | The last close of a listener takes it off the registry and leaves its pending connections in hand, counted. |
| `IpcStates.UnregisterRemoves` | kernel/src/task/ipc/mod.rs:451-459 | Unregistering removes the entry of that listener only, the last entry moves into its place, all others stay where they are, and names stay unique. |
| `Ipcs.IpcSystem.constructor` | kernel/src/task/process.rs:116-135 | The system starts with task 0, whose handle table is empty, and all counts exact. |
| `Ipcs.IpcSystem.CloseHandleRef` | kernel/src/task/ipc/mod.rs:403-436 | Drops exactly one reference, with what follows from the last one, and keeps the counts exact; the count was positive, so the guards never fail. |
| `Ipcs.CloseOutright` | kernel/src/task/ipc/mod.rs:403-436 | Letting go of a channel end takes one count down by one; at zero that side is closed and its queue empty; nothing else changes. |
| `Ipcs.CloseListenerOutright` | kernel/src/task/ipc/mod.rs:414-429 | Letting go of a listener takes its count down by one; the last time it also leaves the registry, and each channel side loses as many references as it had pending entries there. |
| `Ipcs.IpcSystem.ClosePending` | kernel/src/task/ipc/mod.rs:418-426 | The recursion into pending connections ends because they are channel handles. |
| `Ipcs.IpcSystem.DupHandleRef` | kernel/src/task/ipc/mod.rs:390-401 | One more reference; closing it again restores the state. |
| `Ipcs.IpcSystem.SysCreate` | kernel/src/task/ipc/mod.rs:120-141 | Both ends of a new channel in the first two free slots, or EMFILE exactly when there are not two, leaving behind only a dead channel. |
| `Ipcs.IpcSystem.SysSend` | kernel/src/task/ipc/mod.rs:143-165 | -90 above 4096 bytes, -9 without a channel handle, -32 if the other side is closed, -11 if it holds 4096 messages; otherwise the length, with the message at the end of the peer's queue and nothing else changed. |
| `Ipcs.IpcSystem.SysRecv` | kernel/src/task/ipc/mod.rs:167-188 | When a message is taken, at most `len` bytes come back, they are the beginning of the oldest message, and all of it unless the buffer is full; it leaves the queue and nothing else changes. Otherwise -9 without a channel handle, 0 if the peer is gone, -11 if it is not. |
| `Ipcs.IpcSystem.SysClose` | kernel/src/task/ipc/mod.rs:190-208 | The slot is emptied and its reference dropped; -9 exactly for a slot that holds nothing. |
| `Ipcs.IpcSystem.SysDup` | kernel/src/task/ipc/mod.rs:210-232 | The first free slot holds the handle too, and closing it undoes the call; -9 exactly for a slot that holds nothing, -24 exactly for a full table, and then nothing changes. |
| `Ipcs.IpcSystem.SysBind` | kernel/src/task/ipc/mod.rs:234-265 | -22, -17, -24 each exactly when, or the new registration; a refused bind leaves tables, names and their order as they were. |
| `Ipcs.BindOutright` | kernel/src/task/ipc/mod.rs:234-265 | After bind the slot holds a new listener with one reference, which is the last in the registry; no other slot changes. |
| `Ipcs.IpcSystem.RegisterAndInstall` | kernel/src/task/ipc/mod.rs:255-264 | The name pushed before the table turns out full is taken back exactly. |
| `Ipcs.IpcSystem.SysConnect` | kernel/src/task/ipc/mod.rs:267-302 | -22, -2, -24 each exactly when, or a new channel with its server end at the back of the listener's queue. |
| `Ipcs.ConnectOutright` | kernel/src/task/ipc/mod.rs:267-302 | After connect the slot holds side 0 of a new, empty, open channel, and side 1 is the last pending entry of the listener registered under the name. |
| `Ipcs.IpcSystem.SysAccept` | kernel/src/task/ipc/mod.rs:304-324 | -9, -11, -24 each exactly when, or the oldest pending connection installed; with a full table it goes back to the front and nothing has changed. |
| `Ipcs.AcceptOutright` | kernel/src/task/ipc/mod.rs:304-324 | After accept the slot holds the connection that had waited longest, and the others wait as before. |
| `Ipcs.IpcSystem.CloneHandleTable` | kernel/src/task/ipc/mod.rs:91-95 | A copy of the table with one more reference for each slot. |
| `Ipcs.IpcSystem.ForkHandles` | kernel/src/task/process.rs:199-222 | The child has its parent's handles, all counts are exact, and no task is forgotten. |
| `Ipcs.IpcSystem.ReleaseHandleTable` | kernel/src/task/ipc/mod.rs:97-103 | Every handle of the exiting task is let go, in slot order, and the counts are exact. |
| `Ipcs.IpcExitUndoesFork` | kernel/src/task/ipc/mod.rs:91-103 | A fork whose child exits restores all counts, queues, pending connections and the registry, its order included. |
| `Ipcs.IpcSystem.ForkThenExit` | kernel/src/task/process.rs:199-222 | A fork followed by the exit of the child leaves the state as it was, but for empty places in the task list. |
| `Ipcs.Conserved` | kernel/src/task/ipc/mod.rs:143-188 | While the receiver is open, sent is received followed by queued, in order, with at most 4096 queued; at end of file everything sent was received. |
| `Ipcs.ZeroMeans` | kernel/src/task/ipc/mod.rs:174-187 | Receive answers 0 if and only if it is the end of file, or the message or the buffer is empty. |
| `Ipcs.EofIsFinal` | kernel/src/task/ipc/mod.rs:432-436 | Over every history: after the end of file nothing more is sent or received, and every receive answers 0. |
| `Ipcs.FifoForEver` | kernel/src/task/ipc/mod.rs:143-188 | Over every history: what was sent is a prefix of what is later received and queued. |
| `Ipcs.LastCloseRefusesClients` | kernel/src/task/ipc/mod.rs:414-429 | After the last close of a listener its clients still pending get EPIPE and end of file: nothing was ever sent to them. |
| `Ipcs.ConnectThenAccept` | kernel/src/task/ipc/mod.rs:267-324 | Connections are accepted in the order they were made: after those before it, accept gives the other end of the channel that the client got. |
| `Ipcs.RegistryAgrees` | kernel/src/task/ipc/mod.rs:234-265 | A listener is registered if and only if a table slot holds it, and a name finds its only entry. |
| `Schedulers.Scheduler.WakeAndFind` | kernel/src/task/sched.rs:76-95 | Wakes exactly the tasks whose target is gone and finds the richest ready task, lowest number first. |
| `Schedulers.Scheduler.Schedule` | kernel/src/task/sched.rs:72-127 | One decision, stated outright: the task with most credit among those that may run, the lowest number first, or a recharge to 10; one unit spent; waiters of gone tasks woken; the registers saved and loaded; everything else as it was. |
| `Schedulers.Scheduler.SwitchTo` | kernel/src/task/sched.rs:25-62 | Saves the registers unless the task is gone and loads those of the next. |
| `Schedulers.Scheduler.Timer` | kernel/src/task/sched.rs:64-70 | A tick is one decision and keeps the invariant. |
| `Schedulers.Scheduler.BlockCurrent` | kernel/src/task/sched.rs:14-23 | Waitpid: the caller's state is `WaitPid(pid)` if there is such a task and runnable if not, another task is current, the caller's registers are saved, and no one else changes state but the waiters of gone tasks. |
| `Schedulers.Scheduler.DoExit` | kernel/src/task/process.rs:363-375 | The exiting task is gone, exactly its waiters are woken, another task runs. |
| `Schedulers.Scheduler.DoFork` | kernel/src/task/process.rs:275-287 | The child's number was never used; the parent finds it in rcx, the child finds 0 there, and both have the parent's other registers; the child starts with credit 0, fs base 0 and a fresh floating point unit; no other task changes. |
| `Schedulers.DispatchKeeps` | kernel/src/task/sched.rs:72-127 | After every decision the current task is live and runnable, nobody waits for a dead task, credits are 0 to 10. |
| `Schedulers.DispatchDecides` | kernel/src/task/sched.rs:72-127 | Every decision, task by task: who is chosen, who is woken, what credit each has left, whose registers are saved. |
| `Schedulers.WokenExactly` | kernel/src/task/sched.rs:77-85 | A waiting task is woken if and only if its target is gone. |
| `Schedulers.WaitOutright` | kernel/src/task/sched.rs:14-23 | After waitpid the caller waits for the target if it is there, and may run if not; it is not current. |
| `Schedulers.ExitOutright` | kernel/src/task/process.rs:363-375 | After exit the task is gone and exactly its waiters have become runnable. |
| `Schedulers.ForkOutright` | kernel/src/task/process.rs:199-222 | After fork the parent has the child's number in rcx and the child 0, with all else of the registers as in the source. |
| `Schedulers.FallbackIsIdle` | kernel/src/task/sched.rs:96-121 | The idle fallback is taken only by the idle task, when everybody else waits. |
| `SchedFairness.DispatchRank` | kernel/src/task/sched.rs:86-122 | Choosing anybody else lowers the rank of a ready task. |
| `SchedFairness.RankBound` | kernel/src/task/sched.rs:96-101 | The rank is at most 11 (n - 1). |
| `SchedFairness.NoStarvation` | kernel/src/task/sched.rs:72-127 | With at most n live tasks throughout, a ready task is switched to within 11 (n - 1) + 1 calls of schedule, whatever forks, waits and exits happen. |
| `SchedFairness.CallsAdd` | kernel/src/task/sched.rs:64-72 | What counts as a call of schedule: each tick, wait and exit once, forks and user code not. |
| `SchedFairness.LiveCountAdds` | kernel/src/task/sched.rs:76-77 | What n counts: one for each place of the task list that holds a task. |
| `SchedFairness.ResumesAsLeft` | kernel/src/task/sched.rs:44-60 | Over every run a task gets back exactly the registers it was suspended with. |
| `SchedFairness.SavedOnLeaving` | kernel/src/task/sched.rs:46-53 | Switching away saves exactly the registers of the moment. |
| `EventRings.EventRing.Publish` | kernel/src/xhci/ring.rs:86-100 | Full exactly at capacity; otherwise the entry is in the producer's slot with parameter, status and control as given but for bit 0, which is set if the lap writes ones; no other slot changes. |
| `EventRings.EventRing.Pop` | kernel/src/xhci/ring.rs:102-118 | The oldest entry, whose slot is cleared, if the ring is not empty and it carries the cycle bit of its lap; otherwise Empty and no change. |
| `EventRings.RefinesQueue` | kernel/src/xhci/ring.rs:86-118 | For entries published with bit 0 clear the ring answers every sequence of operations like a bounded queue. |
| `EventRings.DrainsIffClean` | kernel/src/xhci/ring.rs:86-118 | The queued entries come out like from a queue if and only if each carries the bit of its lap. |
| `EventRings.RecognisedIff` | kernel/src/xhci/ring.rs:90-93 | An entry carries the bit of its lap if and only if bit 0 was clear when published or the lap writes ones. |
| `EventRings.BlockedForEver` | kernel/src/xhci/ring.rs:102-109 | An entry with the wrong bit at the head makes every later pop answer Empty. |
| `EventRings.EventConsumer.PollEvent` | kernel/src/xhci/controller.rs:365-379 | Takes the oldest produced event not yet taken, or nothing exactly when there is none. |
| `EventRings.EventConsumer.AcknowledgeEvent` | kernel/src/xhci/controller.rs:482-487 | Steps to the next slot and toggles the cycle at the wrap. |
| `EventRings.NotStale` | kernel/src/xhci/controller.rs:365-379 | In every lap the slot under the consumer looks new if and only if it is, and then holds the right event. |
| `LinkRings.LinkRing.Write` | kernel/src/xhci/controller.rs:698-703 | In the producer's slot, and last among the submitted, is the TRB that was asked for: same parameter, status and control, but for bit 0, which is the producer's cycle. No other slot changes. |
| `Laps.LapAndSlot` | kernel/src/xhci/controller.rs:704-718 | Entry q n + r of a ring of n slots goes to slot r, and every second lap writes ones. |
| `LinkRings.LinkRing.Advance` | kernel/src/xhci/controller.rs:704-718 | The index moves on; at the wrap the cycle toggles and the last slot is a Link to the ring's base with toggle-cycle set and the new cycle; no other slot changes. |
| `LinkRings.LinkRing.Submit` | kernel/src/xhci/controller.rs:503-536 | Command and interrupt rings: the TRB that was asked for is in its slot with the producer's cycle, and the Link is rewritten right after the doorbell. |
| `LinkRings.LinkRing.Transfer` | kernel/src/xhci/controller.rs:1640-1686 | A bulk transfer: the TRB that was asked for is in its slot with the producer's cycle; the producer moves on only after a completion, and after a time-out the next TRB goes into the same slot. |
| `LinkRings.StartsInLockstep` | kernel/src/xhci/controller.rs:693-723 | A new ring and a controller at its first slot, expecting ones, satisfy the invariants that the runs keep. |
| `LinkRings.AlwaysInOrder` | kernel/src/xhci/controller.rs:693-723 | However slowly the controller works, over unlimited wraps it executes a prefix of what was submitted, in order, as long as no write replaces a TRB that it has executed; without a time-out none does. |
| `LinkRings.AlwaysAligned` | kernel/src/xhci/controller.rs:1640-1686 | Time-outs or not, the controller never loses its place behind the driver. |
| `LinkRings.NextInOrder` | kernel/src/xhci/controller.rs:1640-1686 | Order survives a step if and only if the step replaces no TRB that was executed. |
| `LinkRings.RewriteFate` | kernel/src/xhci/controller.rs:1640-1686 | A TRB written over another after a time-out is the one executed at its place if and only if the other had not been executed; the other is lost then. |
| `LinkRings.RewriteSeen` | kernel/src/xhci/controller.rs:1640-1686 | Right after such a write the controller sees the new TRB if it stood before that place, and no TRB if it had passed it. |
| `LinkRings.InFlight` | kernel/src/xhci/controller.rs:693-723 | The command ring has one TRB in flight and one more for every command that timed out. |
| `LinkRings.RoomExact` | kernel/src/xhci/controller.rs:693-723 | A write keeps the controller in its place if and only if the ring is not full of commands in flight. |
| `LinkRings.Overrun` | kernel/src/xhci/controller.rs:693-723 | With the ring full the write takes the oldest command out of memory, and the controller sees nothing where it stands. |
| `LinkRings.PromptNeverBlocks` | kernel/src/xhci/controller.rs:1640-1686 | If the controller follows each Link before it is rewritten, every outstanding TRB is executed next, time-outs or not. |
| `LinkRings.LinkSeen` | kernel/src/xhci/controller.rs:704-718 | A Link can be followed only before the driver's step past the entry before it, or a whole lap later. |
| `LinkRings.PromptOrMissed` | kernel/src/xhci/controller.rs:503-536 | At a wrap the controller either has followed the old Link, or is left before the new one; there is nothing between. |
| `LinkRings.GoesOnOnlyIfPrompt` | kernel/src/xhci/controller.rs:503-536 | With one TRB in flight, over every run: a TRB of the lap after a wrap is executed only if the controller had followed the Link before the wrap. |
| `LinkRings.GoesOnIffPrompt` | kernel/src/xhci/controller.rs:503-536 | With one TRB in flight, the TRB written after a wrap is executed next if and only if the controller had followed the Link before the wrap. |
| `LinkRings.MissedLink` | kernel/src/xhci/controller.rs:704-718 | A controller that missed a Link stays before it for the whole lap of the driver. |
| `LinkRings.MissedForEver` | kernel/src/xhci/controller.rs:503-536 | With one TRB in flight at a time, as on the interrupt ring, a missed Link is never recovered. |
| `LinkRings.StallExample` | kernel/src/xhci/controller.rs:503-536 | A concrete ring of two slots in which the Link was missed. |
| `Bots.ReadUnderstood` | kernel/src/xhci/msc.rs:112-133 | A READ(10) command packet decodes, byte by byte in the transport's layout, to the tag, address and length that were meant. |
| `Bots.Cbw` | kernel/src/xhci/msc.rs:112-133 | The packet is filled in place as laid out; of a longer command block the first 16 bytes. |
| `Bots.PacketOutright` | kernel/src/xhci/msc.rs:112-133 | Every byte of a command packet: signature, tag, length, direction, unit, block length, and the block padded with zeros. |
| `Bots.Read10Outright` | kernel/src/xhci/msc.rs:178-184 | Every byte of a READ(10) block: operation code, address and count most significant byte first, zeros elsewhere. |
| `Bots.Bot.CommandOnce` | kernel/src/xhci/msc.rs:276-310 | Takes the next tag; succeeds exactly if 31 bytes went out, the data moved whole, and 13 status bytes came in that say: signature 0x53425355, this tag, residue 0, status 0. Status 1 with a residue within the length is `CommandFailed`. |
| `Bots.VerdictOutright` | kernel/src/xhci/msc.rs:76-110 | A command is good exactly if all bytes moved and the status says signature, tag, residue 0, status 0; when all bytes moved it is reported as failed exactly for status 1 with a residue within the length. |
| `Bots.StatusErrors` | kernel/src/xhci/msc.rs:76-110 | Which error a status that arrived whole gives, the signature before the status range, the tag before the residue. |
| `Bots.TransferErrors` | kernel/src/xhci/msc.rs:276-310 | Of three transfers the first that fails or is short is the result. |
| `Bots.Bot.Command` | kernel/src/xhci/msc.rs:251-274 | Exactly what one command takes: a success or a failed command ends it without control transfers; any other failure is followed by a recovery, whose failure is the result and whose success by one second attempt, which decides. |
| `Bots.Bot.Recover` | kernel/src/xhci/msc.rs:245-249 | Reset, then halt cleared on the in and on the out pipe, up to the first failure, which is the result; it succeeds if all three do. |
| `Bots.TracedOutright` | kernel/src/xhci/msc.rs:251-274 | Which seven errors lead to the three recovery requests and a second attempt, and that the others and success end the command without any. |
| `Bots.Bot.Read10` | kernel/src/xhci/msc.rs:341-359 | Over a bus that may fail anywhere and a device that delivers when it answers status 0: Ok means the buffer is the blocks asked for; the commands tile the range in 64 KiB segments, only the last may fail; all attempts and control transfers are those of the commands, each with at most one recovery and one retry; tags are consecutive modulo 2^32. |
| `Bots.CallBounds` | kernel/src/xhci/msc.rs:251-274 | No command of a read takes more than two attempts, and a second one follows only a failure worth it and a complete recovery. |
| `Bots.HonestRead` | kernel/src/xhci/msc.rs:287-310 | A status of 13 bytes with signature, tag, residue 0 and status 0 for a READ(10) means the buffer holds the blocks. |
| `Descriptors.PiecesTile` | kernel/src/xhci/usb.rs:201-225 | The descriptors found are the region cut up, each as long as its first byte says. |
| `Descriptors.PiecesOfJoined` | kernel/src/xhci/usb.rs:201-225 | Any concatenation of descriptors is cut up into those descriptors again. |
| `Descriptors.DescriptorIter.NextRaw` | kernel/src/xhci/usb.rs:201-225 | The next descriptor, as many bytes as its first byte says, or the end, or each error exactly when; the offset never leaves the region. |
| `Descriptors.DescriptorIter.NextInterface` | kernel/src/xhci/usb.rs:227-243 | The next interface, skipping everything else. |
| `Descriptors.DescriptorIter.NextEndpoint` | kernel/src/xhci/usb.rs:245-270 | The next endpoint before the next interface, which is pushed back. |
| `Descriptors.ParseHidBootEndpoint` | kernel/src/xhci/usb.rs:274-305 | The nested loops compute one pass over the descriptors. |
| `Descriptors.HidSelectsTheOnlyMatch` | kernel/src/xhci/usb.rs:274-305 | HID selection is Ok if and only if the region tiles into well-formed descriptors and exactly one endpoint matches, byte by byte, under its nearest interface; and the answer is what those bytes say. |
| `Descriptors.HidFailsAtTheFirst` | kernel/src/xhci/usb.rs:274-305 | Which error: of a second match and a malformed descriptor the first in the region decides, then what ends the region, then that nothing matched. |
| `MscSelection.ParseMscBotInterface` | kernel/src/xhci/usb.rs:308-343 | The nested loops compute one pass over the descriptors. |
| `MscSelection.MscSelectsTheOnlyInterface` | kernel/src/xhci/usb.rs:308-343 | Mass storage selection is Ok if and only if the region tiles, no Bulk-Only interface repeats a direction, and exactly one has both; matches and answer are stated byte by byte. |
| `MscSelection.MscFailsAtTheFirst` | kernel/src/xhci/usb.rs:308-343 | Which error: a repeated direction or a second complete interface when it is closed, else the first malformed descriptor, then what ends the region, then that no interface is complete. |
| `Partitions.BlockDevice.ReadBytes` | kernel/src/blockdev/usb.rs:128-161 | All bytes and the moved position, or an error, the old position and perhaps the first whole sectors. |
| `Partitions.BlockDevice.ReadSector` | kernel/src/blockdev/ahci/mod.rs:32-44 | A read up to the end of the sector or the buffer, whichever comes first. |
| `Partitions.BlockDevice.Seek` | kernel/src/blockdev/usb.rs:188-205 | Refused exactly when the USB device is unplugged or the target lies outside the device, and then the position stays; otherwise the target is the new position. |
| `Partitions.BlockDevice.ReadExact` | kernel/src/vfs/mod.rs:41-49 | Over AHCI the short reads are put together to exactly the bytes asked for; over USB either that, or a failure that nobody is told of: the position stays, and the first whole sectors may be in the buffer. |
| `Partitions.Partition.Read` | kernel/src/blockdev/partition/mod.rs:106-115 | The matching slice of the partition, never past its end; on success and failure the device stands where the partition's position says. Over AHCI it stops only at the end of the buffer, the sector or the partition. |
| `Partitions.Partition.Seek` | kernel/src/blockdev/partition/mod.rs:135-154 | Accepted exactly within the partition; a refused or failed seek changes neither position. |
| `Checksums.ComputeChecksum` | apps/init/src/icmp.rs:1-20 | The complement of the one's-complement sum, added word by word as RFC 1071 defines it; exact up to 131074 bytes. |
| `Checksums.OnesSumIs` | apps/init/src/icmp.rs:1-20 | Summing in 32 bits and folding at the end is adding word by word with the carry added in again. |
| `Checksums.FoldSum` | apps/init/src/icmp.rs:15-17 | Folding ends and keeps the one's-complement value. |
| `Checksums.NoOverflowIff` | apps/init/src/icmp.rs:5-13 | The 32-bit sum cannot overflow, whatever the bytes, if and only if there are at most 131074 of them. |
| `Checksums.TryHandlePing` | apps/init/src/icmp.rs:22-73 | Exactly which packets make it index past the end and which are answered, and the answer byte for byte; with a full header that is the request with addresses swapped and type 0; from 12 header bytes on both finished regions sum to 65535 word by word. |
| `Checksums.ChecksumCancels` | apps/init/src/icmp.rs:60-70 | A stored checksum makes the checksum of the whole zero. |
| `Checksums.SwapKeepsChecksum` | apps/init/src/icmp.rs:54-70 | Swapping the addresses leaves the header checksum the same modulo 65535. |
| `Descriptors.ParseConfiguration` | kernel/src/xhci/usb.rs:157-185 | Accepted exactly if the nine-byte header is there, `wTotalLength` covers it and fits the data, and the value is not 0; then the first `wTotalLength` bytes; each refusal exactly when. |
| `Memories.Memory.CopyTable` | kernel/src/task/process.rs:176-195 | The turn for a table: linked in, then filled recursively; no frame free is the only failure. |
| `Memories.Memory.CopyLeaf` | kernel/src/task/process.rs:163-175 | The turn for a mapping: counted and write-protected if it is a user page and a process is copied. |
| `Partitions.BlockDevice.Read` | kernel/src/blockdev/ahci/mod.rs:32-44 | Bytes of the device from the position on, up to the end of the sector over AHCI and all of them over USB, or a failure, which only USB has. |
| `IpcStates.DupChannelKeeps` | kernel/src/task/ipc/mod.rs:390-396 | One more reference to a channel side that somebody holds keeps all counts exact. |
| `Ipcs.PendKeeps` | kernel/src/task/ipc/mod.rs:290-295 | A server end moved from running code to a queue keeps all counts exact. |
| `SchedFairness.RunKeeps` | kernel/src/task/sched.rs:72-127 | Over every run of ticks, waits, exits and forks the invariant holds: live and runnable current task, no waiting for a dead task, credits 0 to 10, fresh numbers. |
| `SchedFairness.WaiterWaits` | kernel/src/task/sched.rs:14-23 | Over every run: a task that called waitpid is not current again in any state in which its target is there. |
| `SchedFairness.WaiterReturns` | kernel/src/task/sched.rs:76-95 | Over every run: when the target exits, each waiter is switched to within 11 (n - 1) + 2 calls of schedule, the exit's own included. |
| `IpcStates.PendingElsewhere` | kernel/src/task/ipc/mod.rs:290-295 | A connection waiting to be accepted is held by its queue alone and nothing was sent from it, so nothing that is held elsewhere is ever that end. |
| `Checksums.SumWords` | apps/init/src/icmp.rs:2-13 | The first loop adds the words with 32-bit wrap-around. |

## Left out

- Shared ownership (`Arc`) of channels and listeners is a number into a list that only grows; memory
  reclamation by `Arc` is not modelled. Locks are not modelled: each system call, fault or tick is one
  step, on the one processor that runs tasks.
- In the source one call forks memory, handles and the process record together, and one exits them; here
  each part is modelled in its own class, and their results are about the same call.
- A machine word of the bitmap is a sequence of 64 booleans. A frame has two views, a table of entries
  and a page of bytes; that a freshly zeroed table reads as absent entries is built in.
- A panic ends the model: methods return a failure where the source unwraps (no free frame, a fault
  outside stack and break), and state what was the case then.
- TLB flushes, CR3, MMIO, doorbells, interrupts, logging, and the zeroing of DMA buffers.
- The mapper of the `x86_64` crate is modelled as a walk that creates tables on demand and opens those
  that exist; large pages are met but never created. Stepping through a range of pages stops with a
  failure at the addresses that are not canonical.
- Kernels.Kernel.UserWrite: what the bytes of a page table mean is not modelled: after a store into a
  table the entry around it is a parameter. Device memory keeps nothing, and what a device answers to a
  load is a parameter.
- Exec's ELF parsing and the bytes copied into segments: only mappings, counts and the break. The
  registers and name that exec resets in the process record are left out; the next switch overwrites the
  saved registers anyway.
- Kernels.Kernel.Boot: usable memory and held frames are given, and the boot table maps, in its lower
  half, only frames that have a count, since the source would index past the counts otherwise.
- Kernels.Kernel.DoExec: the stack pointer and entry address it returns are not stated.
- Copying a name from user memory and checking it is valid text is a parameter of bind and connect; the
  table of open files and directories is not modelled.
- Waiting on the idle task's behalf: process 0 is assumed never to wait or exit, as the source says.
- `ring.rs`'s `ProducerRing`: its length never falls, so it has no laps; the producers in use are
  modelled instead. The control endpoint's ring never wraps.
- The polling loops' interleaving with the controller is the pair of methods `DeviceProduces` and
  `PollEvent`; which completion event a loop takes for its own is left out:
  that a transfer completes or times out is a parameter.
- Bots.Bot.Read10: the driver's second, retry-free read path in `controller.rs` is not modelled;
  `max_lun`, `probe`, INQUIRY and READ CAPACITY are left out as lookups and single commands.
- Partitions.Partition.Read: a partition entry whose end lies before its start or past the device is
  not covered; the source does not check it either. Writes pass through unbounded and are left out, as
  are the table of USB devices and hot-plug.
- Root-port records and enumeration, HID key tables, PS/2, console, sound, clock, power, PCI, network
  driver, file systems, shell and builder.
