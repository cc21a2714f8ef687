# Lazux kernel model

A Dafny model of the core of the Lazux RISC-V kernel: the bitmap frame allocator, the Sv39 page
tables it keeps in the frames it hands out, the process life cycle (fork, exec, exit, wait, sbrk,
console and RAMDISK reads), the round-robin scheduler, the console line discipline, the ELF and
RAMDISK formats, and the first-fit `malloc` above `sbrk`.

The kernel is not preempted and there is one hart, so each trap is one atomic step of
`Kernel.Machine`. Its invariant `Inv` is proved for the state `kmain` leaves, for every event a
program or a terminal can cause, and so (`Run`) for every sequence of events. Loops and objects the
source changes in place are methods and classes here; what they compute is stated with value-level
functions and predicates, and the theorems are lemmas about those.

| file | what it models |
|---|---|
| `Sv39.dfy`, `Platform.dfy` | PTE encodings, the three-level split of an address, the memory map |
| `Pmm.dfy` | the bitmap allocator |
| `PageTrees.dfy` | memory as page-table trees with a ghost owner per frame; what one write does to every walk |
| `Budget.dfy` | the frames an operation takes: the pages it maps and the tables it finds missing |
| `Vmm.dfy`, `Fork.dfy` | `map_page`, `vmm_lookup`, `vmm_unmap_range`, `vmm_free_pt`, `vmm_map_kernel`, `vmm_copy_uvm` |
| `Mmu.dfy` | the hardware's translation (sections 4.3.2 and 4.4.1 of the RISC-V Privileged Architecture, 20211203) and user stores |
| `Bytes.dfy`, `Elf.dfy` | little-endian fields; `load_elf` |
| `Spaces.dfy` | the address space of a process, the sbrk loop, fork and exec as a whole |
| `Console.dfy`, `Uart.dfy`, `ConsoleReads.dfy` | the line editor, the ring that refines it, the copy to a reader |
| `UserMem.dfy` | `user_range_ok`, `user_str_ok`, copies to and from user memory |
| `Procs.dfy` | process states, wait channels, the scheduler's choice |
| `Invariants.dfy`, `Steps.dfy` | memory of all processes and the frame ledger; what each step keeps |
| `Isolation.dfy` | what a step of one process leaves alone of the others |
| `Syscalls.dfy` | what the system calls do and when they fail, between the moments before and after |
| `Kernel.dfy` | the machine: `kmain`, `schedule`, interrupts, system calls, runs |
| `Answers.dfy` | what each system call returns to its program |
| `Reading.dfy` | opening a packed file and reading it in pieces |
| `Theorems.dfy` | what follows for the system |
| `Lives.dfy` | the frames of one process from its fork to the wait that reaps it |
| `LowMemory.dfy` | a machine whose first program starts without a stack page, and one whose first fork loses a tree |
| `Ramdisk.dfy` | `mkramdisk`, lookup, reading a file in pieces |
| `Malloc.dfy` | the user heap |

## How to read it

Physical memory is a sequence of 32768 frames. A frame is viewed as 512 entries or as 4096 bytes, by
what it was last set up as. The ghost owner map gives each frame exactly one role: free, reserved,
kernel stack of a slot, or a place `Node(root, path)` in one tree, which is a table above the last
level and a user page at it. `Forest` says every role is true of memory. That no frame has two
owners is then a fact about a function, and `Tied` says that the bitmap marks exactly the frames
that have a role. A `while(1)` is the mode `Halted`, past which nothing is claimed, and the shutdown
call the mode `Off`.

What an operation does when memory runs out depends only on how many frames are free when it
starts. `Spent` and `Short` count them: the pages to be mapped, and the tables on the way to them
that the tree does not have yet. So each operation that allocates has an if-and-only-if on the state
before it. With F frames free and an unused slot, `alloc_proc` gives -1 if F is 0, panics if F is
less than the frames of a kernel tree (`SpaceFrames`, a matter of the layout alone), gives -1 and
abandons the tree it built if F is just that, and succeeds otherwise. `exec` of an ELF file panics
if F is below `ExecFrames`, loses the program's stack page if F is exactly that, and succeeds
otherwise.

These two paths, the abandoned tree and the lost stack page, drop frames for good. They are in the
model: the tree is in `leaked`, and the page `load_elf` abandons has the role `Lost`. The ledger of
`LedgerIsExact` counts them with the rest. `ChildLeavesNoTrace` and `FromForkToWait` say from the
frames free before each exec and each denied fork of a child whether its life returns every frame,
and how many it does not. Both paths happen: with a kernel as the linker script lays it out and a
RAMDISK of one ELF file, `BootsWithoutStack` is a machine that runs `init.elf` without its stack
page, and `ForkLosesATree` one on which the first fork of `init.elf` leaves 69 frames in a tree
that no process has. A third way to lose frames needs no shortage: an ended process whose parent
has ended too is never reaped, and keeps its slot and its frames along every run (`OrphansStay`).

What one event does is stated in full, from the state before: `Effect` for every event, `Resumes` for
where a process goes on after an ecall and with which registers, and `Answer` for the value in a0 and
what the call did for it. These three name registers and numbers, not the functions the kernel's
methods compute with.

A pointer passed to a system call may be any 64-bit word. `user_range_ok` drops the address bits
from 39 up, so it lets some ranges pass at which the hardware faults. `KernelReaches` says which,
and the calls halt the machine exactly when they then have a byte to copy.

Where code and comments of the repository differ, the code is modelled: a failing `exec` of an ELF
file panics and does not return -1 (`kernel/arch/riscv/trap_handler.c:475-480` against `519-522`);
a fork without frames for its copy panics too, and only alloc_proc's -1 becomes E_AGAIN. `malloc`
tests `sbrk` for -1 while the kernel returns -4 or -5, so it faults where it means to return null.
A name of 32 bytes or more is cut to 31 by the packer and is then not found under its own name;
`LongNamesAreLost` gives the exact condition and `ALostName` such an image.

## Model

| member | source | states |
|---|---|---|
| Sv39.MacrosAreDivMod | kernel/include/vmm.h:45-63 | on 64-bit words the shift-and-mask macros are the divisions and remainders used here |
| Sv39.PteRoundTrip | kernel/include/vmm.h:45-52 | decoding an encoded entry gives back the frame, for all frames and flags |
| Sv39.SatpNamesRoot | kernel/include/vmm.h:18-27 | the satp value has mode Sv39 and names exactly the root's frame |
| Sv39.SplitIsInjective | kernel/include/vmm.h:54-63 | the three VPN indices determine the page |
| Bytes.LittleEndian | kernel/include/elf.h:28-63 | fields of two, four and eight bytes are read lowest byte first |
| Pmm.FrameAllocator.constructor | kernel/mm/pmm.c:26-51 | in use at first: exactly the frames up to the end of the bitmap |
| Pmm.FrameAllocator.AllocPage | kernel/mm/pmm.c:75-92 | the lowest free frame becomes used and no other changes; 0 only when none is free |
| Pmm.FrameAllocator.FreePage | kernel/mm/pmm.c:94-103 | exactly that frame becomes free; an address that is no frame is ignored |
| Pmm.OneBit | kernel/mm/pmm.c:83-102 | setting or clearing a bit adds or removes exactly one frame |
| PageTrees.RoleIsUnique | kernel/mm/vmm.c:90-161 | no two frames are the same table or page of the same tree |
| PageTrees.LinkTable | kernel/mm/vmm.c:117-139 | linking a zeroed frame under an invalid entry keeps all trees and moves no translation |
| PageTrees.SetLeaf | kernel/mm/vmm.c:142-158 | writing a last-level entry changes one page's translation, in one tree |
| PageTrees.ClearLeaf | kernel/mm/vmm.c:177-181 | unmapping a page frees its frame and changes no other translation |
| PageTrees.DropTree | kernel/mm/vmm.c:254-258 | trees do not depend on each other: without one, the others are as they were |
| Vmm.AddressSpaces.Lookup | kernel/mm/vmm.c:49-58 | finds the last-level entry exactly when every table on the way exists |
| Vmm.AddressSpaces.MapPage | kernel/mm/vmm.c:90-161 | a finite-map update, also over a page already mapped, whose frame is then dropped: one translation changes on success and none on failure; it succeeds exactly when as many frames are free as tables are missing on the way, and they are all it takes |
| Vmm.AddressSpaces.WalkAlloc | kernel/mm/vmm.c:96-140 | the walk adds exactly the missing tables, or there were too few frames for them, and no translation changes |
| Vmm.AddressSpaces.UnmapRange | kernel/mm/vmm.c:175-190 | exactly the mapped pages of the range are unmapped and exactly their frames freed |
| Vmm.AddressSpaces.FreePageTable | kernel/mm/vmm.c:26-47 | frees every frame strictly below the table and no other |
| Vmm.AddressSpaces.FreePt | kernel/mm/vmm.c:254-258 | frees exactly the frames of the tree, which must not be the active one |
| Vmm.AddressSpaces.MapNewPage | kernel/arch/riscv/trap_handler.c:598-612 | a fresh frame with given contents is mapped, or nothing but added tables remains; it succeeds exactly when there are frames for the page and its missing tables |
| Vmm.AddressSpaces.MapKernel | kernel/mm/vmm.c:234-252 | every page of the kernel's regions and device windows maps to itself with its region's permissions, and no other page is mapped; exactly KernelTables(layout) are added, or there were too few frames for them |
| Fork.CopyUvm | kernel/mm/vmm.c:261-360 | every user page of the parent below 2 GB gets a private copy, every other child translation stays, nothing in use elsewhere is written; it panics exactly when fewer frames are free than the parent's pages and the tables the child lacks, and its two shape panics cannot happen |
| Steps.ForkMemory | kernel/mm/vmm.c:261-360 | the copy into a new kernel tree takes CopyFrames frames, and succeeds exactly when they are free |
| Mmu.WalkAgrees | kernel/mm/vmm.c:49-58 | on canonical addresses the hardware's translation is the entry the kernel's walk finds, for every access; on all others, for which the walk finds some entry too, the hardware faults |
| Mmu.UserStoreIsConfined | kernel/mm/vmm.c:261-360 | a store the hardware allows user mode changes one byte of one own page: no table, no kernel frame, no other process |
| Elf.LoadElf | kernel/proc/process.c:193-322 | an ELF file is loaded exactly when there are frames for its pages, their missing tables and the stack page, and the stack page is mapped exactly when there are some for its tables too; then the tree holds the program its headers describe |
| Elf.ProgramNeeds | kernel/proc/process.c:217-312 | in a new kernel tree the program takes ProgramFrames frames, and the stack page always one more table: it is lost exactly when ProgramFrames frames are free and no more |
| Elf.PageContent | kernel/proc/process.c:242-258 | a page is the file's bytes below p_filesz and zeros after |
| Elf.SegmentFlags | kernel/proc/process.c:265-273 | U, R if p_flags has R, W if it has W, X if it has X and not W |
| Elf.PhdrRoundTrip | kernel/include/elf.h:53-63 | a program header laid out as the file format has it is read back field by field |
| Elf.BadSegmentEntries | kernel/proc/process.c:265-273 | a segment with W and no R gets a valid entry through which every access faults, one with no permission an entry that is no leaf, one with only X a proper page |
| Elf.LoadedByte | kernel/proc/process.c:217-286 | each byte of a segment reads as the file's byte below p_filesz or zero above, and lies below the break |
| Elf.LoadedAccess | kernel/proc/process.c:265-279 | the hardware lets the program load from, store to and execute each byte of a segment exactly by the R, W, and X without W of its p_flags |
| Elf.MaxEndIsReached | kernel/proc/process.c:279-289 | the image ends where one of its segments ends |
| Elf.StackAccess | kernel/proc/process.c:300-316 | a program starts with a zeroed page below its stack pointer that it can read and write |
| Elf.MapStack | kernel/proc/process.c:300-312 | no frame: failure; a frame and no frames for the missing tables: the frame is lost and nothing else changes; otherwise a zeroed read-write stack page |
| Spaces.MappedPagesAreFew | kernel/include/pmm.h:38-44 | pigeonhole: a tree maps no more user pages in a row than there are frames |
| Spaces.OneMoreHeapPage | kernel/arch/riscv/trap_handler.c:597-613 | a heap page mapped next to the heap is below the PLIC window, so growth never remaps a device |
| Spaces.GrowHeap | kernel/arch/riscv/trap_handler.c:589-614 | all or nothing: exactly the new zeroed pages, or every translation as before; it succeeds exactly when there are frames for the new pages and their missing tables |
| Spaces.GrownByte | kernel/arch/riscv/trap_handler.c:597-613 | each byte of the new part of a heap reads as zero, and the program can load from it and store to it |
| Spaces.RolledBack | kernel/mm/vmm.c:175-190 | unmapping what a failed growth mapped restores every translation and every frame in use |
| Spaces.ForkSpace | kernel/arch/riscv/trap_handler.c:384-411 | the forked tree is an address space with the parent's heap |
| Spaces.ForkedByte | kernel/mm/vmm.c:279-300 | at each user address the child reads the parent's byte from a frame of its own, and the parent still reads it |
| Spaces.ExecSpace | kernel/proc/process.c:288-321 | a loaded program is an address space with an empty heap just past its image |
| Spaces.MapKernelStack | kernel/proc/process.c:146-155 | mapping the kernel stack rewrites the entry already there |
| Steps.NewKernelSpace | kernel/proc/process.c:117-131 | a new kernel tree takes SpaceFrames frames; with none free there is none, with some but fewer vmm_map_kernel panics |
| Console.RunIsOk | kernel/arch/riscv/uart.c:34-70 | in every history tail <= commit <= head <= tail + 128, committed input is whole lines, an unfinished line leaves a free slot |
| Console.CommittedOnlyGrows | kernel/arch/riscv/uart.c:55-56 | a committed stream is a prefix of every later one |
| Console.EnterCommits | kernel/arch/riscv/uart.c:145-168 | Enter commits the line whenever a slot is free; with nothing unread one always is; a full ring always has something to read |
| Console.TextIsTyped | kernel/arch/riscv/uart.c:187-197 | typed text that fits is added to the line and echoed byte for byte |
| Console.LineIsTyped | kernel/arch/riscv/uart.c:117-197 | with Enter, LF or CR, exactly that text and a newline are committed after what was on the line |
| Console.ByteIsErased | kernel/arch/riscv/uart.c:171-183 | a byte and a backspace, BS or DEL, leave all but the echo as it was |
| Console.NothingIsTyped | kernel/arch/riscv/uart.c:127-197 | no effect at all: a backspace on an empty line, other control bytes, text into a ring with only the slot for Enter, Enter into a full one, ESC with a byte that is no bracket |
| Console.FeedSplits | kernel/arch/riscv/uart.c:84-86 | how bytes are split over interrupts does not matter |
| Console.EscapeSequenceVanishes | kernel/arch/riscv/uart.c:127-143 | a whole escape sequence leaves no trace in input or echo |
| Console.ScreenAgrees | kernel/arch/riscv/uart.c:145-197 | the echo, shown on a screen, is left of the cursor exactly what was committed and the line being typed |
| Console.UnreadHasNewline | kernel/arch/riscv/trap_handler.c:708-713 | committed unread input contains a newline |
| Uart.Ring.Receive | kernel/arch/riscv/uart.c:117-198 | the ring with wrapping counters does what the line editor does, and wakes readers exactly on a commit |
| Uart.Ring.GetC | kernel/arch/riscv/uart.c:207-218 | takes the next committed byte, or -1 exactly when there is none |
| Uart.WrapDiff | kernel/arch/riscv/uart.c:58-60 | differences of wrapped uint32 counters are the true ones |
| Uart.WrapSlot | kernel/arch/riscv/uart.c:58-60 | slots of wrapped counters are the true ones, because 128 divides 2^32 |
| ConsoleReads.CopyLine | kernel/arch/riscv/trap_handler.c:692-715 | delivers exactly min(size, through the next newline) bytes; the ring never runs dry inside a line |
| ConsoleReads.OneLineAtATime | kernel/arch/riscv/trap_handler.c:708-713 | however many lines are unread, a read delivers the first one, or as much of it as it asks for |
| ConsoleReads.TypedIsRead | kernel/arch/riscv/trap_handler.c:692-715 | text typed with Enter at an empty prompt is what the next read delivers, newline included, or as much as it asks for |
| UserMem.UserRangeOk | kernel/arch/riscv/trap_handler.c:122-133 | for every pointer and length, true exactly when every page the loop visits is user memory with the permissions needed; below 2^38 these are the pages of the range |
| UserMem.AcceptsIsAccess | kernel/arch/riscv/trap_handler.c:104-133 | in the low half a range passes exactly when the hardware would let the program itself load from, or store to, every byte of it |
| UserMem.KernelReaches | kernel/arch/riscv/trap_handler.c:122-133 | of a range that passed, not empty, the kernel reaches every byte if it ends at or below 2^38, and otherwise not even the first |
| UserMem.UserStrOk | kernel/arch/riscv/trap_handler.c:135-142 | for every pointer: true exactly when a readable string ends within the limit; the kernel faults on it exactly when the pointer is 2^38 or more and passes the check of its first byte |
| UserMem.BytesStored | kernel/arch/riscv/trap_handler.c:706-732 | a copy to a checked range is read back, and every other user byte and every frame outside the user pages stays |
| Procs.FindReady | kernel/proc/process.c:386-397 | the ready slot nearest after the current one, or null exactly when none is ready |
| Procs.NextInOrder | kernel/proc/process.c:386-397 | it is the first ready slot in table order from the slot after the current one on, around the table |
| Procs.PickComesNearer | kernel/proc/process.c:489-538 | a pick takes ready slot j or comes strictly nearer to it |
| Procs.BoundedWaiting | kernel/proc/process.c:489-538 | in any stretch of the log of picks a slot that is ready at each is taken within its cyclic distance, at most MAX_PROCS picks |
| Procs.SomeoneWaitsForInput | kernel/arch/riscv/trap_handler.c:551-565 | when nothing can run and something is blocked, some process is blocked on the console ring |
| Procs.CommitWakesReaders | kernel/proc/process.c:351-358 | a commit leaves nobody asleep on the ring |
| Procs.ExitWakesParent | kernel/proc/process.c:366-383 | after an exit no parent sleeps without a living child |
| Invariants.SpacesUpdate | kernel/mm/vmm.c:26-47 | an operation on one process's frames leaves every other process's address space as it was |
| Invariants.LedgerUpdate | kernel/mm/pmm.c:75-103 | such an operation keeps every frame in use accounted for |
| Steps.SpawnKeepsGood | kernel/proc/process.c:89-165 | a new process in a free slot keeps identities, sleepers, memory and ledger |
| Steps.FailedSpawnKeepsGood | kernel/proc/process.c:117-140 | so does an alloc_proc that fails, with the tree it drops on the books |
| Steps.OwnMemoryKeepsGood | kernel/arch/riscv/trap_handler.c:567-618 | so does any change confined to the running process's own frames |
| Steps.ExecReplaces | kernel/arch/riscv/trap_handler.c:509-529 | exec frees exactly the old tree, fills a new one, loses at most the one frame named, and touches no frame that was in use |
| Steps.LoadNew | kernel/arch/riscv/trap_handler.c:509-522 | an ELF file is loaded into a new tree exactly when ExecFrames frames are free, and loses its stack page exactly when no more are |
| Steps.ReapKeepsGood | kernel/proc/process.c:561-592 | reaping keeps the invariant and returns exactly the child's tree and kernel stack |
| Steps.InputKeepsGood | kernel/arch/riscv/uart.c:158-168 | input keeps it: a commit wakes every sleeper on the ring |
| Steps.BootIsGood | kernel/main.c:86-98 | before the first process everything in use is the kernel's |
| Kernel.Machine.constructor | kernel/main.c:83-178 | kmain reaches the invariant with init.elf loaded as the only process, pid 1, its registers zero but for the entry point and the stack pointers, descriptors 0 to 2 the console and no other open, exactly when init.elf is an ELF file and the frames above the bitmap are at least BootFrames; with just those its stack page is lost; otherwise it halts |
| Kernel.Machine.Schedule | kernel/proc/process.c:469-559 | picks the next ready slot; the keep-current branch is unreachable; off exactly when every slot is free or ended |
| Kernel.Machine.Wakeup | kernel/proc/process.c:351-358 | everyone asleep on the channel, and nobody else, becomes ready |
| Kernel.Machine.UartIntr | kernel/arch/riscv/uart.c:110-199 | a burst is fed to the editor; readers are awake exactly if something was committed |
| Kernel.Machine.TimerTick | kernel/arch/riscv/trap_handler.c:171-190 | the current process goes to the end of the line and the next ready one runs |
| Kernel.Machine.DeviceInterrupt | kernel/arch/riscv/trap_handler.c:192-208 | the same process goes on; its input effects are those of the burst |
| Kernel.Machine.IdleTurn | kernel/proc/process.c:424-443 | idling ends exactly when a line was committed and somebody slept on the ring |
| Kernel.Machine.ExitCurrent | kernel/proc/process.c:366-383 | the process is a zombie and a parent waiting for it can run |
| Kernel.Machine.FreeProc | kernel/proc/process.c:561-592 | frees exactly the kernel stack and the tree of a process that is not the current one, and scrubs its PCB |
| Kernel.Machine.SleepOn | kernel/proc/process.c:337-342 | blocked on the channel with sepc back at the ecall, and another process runs or the hart idles |
| Kernel.Machine.SysWait | kernel/arch/riscv/trap_handler.c:531-566 | reaps the first ended child exactly when there is one; E_NOENT exactly without children; sleeps exactly when all children live |
| Kernel.Machine.AllocProc | kernel/proc/process.c:89-165 | a new process nobody else notices for the frames of a kernel tree and a stack; -1 exactly without a slot, without any frame, or with just the frames of the tree; then no role in use changes, and every free frame, if there is one, is a node of one tree that is in leaked; a panic exactly with some but fewer |
| Kernel.Machine.AddStack | kernel/proc/process.c:133-164 | -1 exactly when every frame is in use; then the frames free before alloc_proc are the new tree, which is dropped, and no other role changes |
| Kernel.Machine.SysFork | kernel/arch/riscv/trap_handler.c:370-423 | the child is the parent's copy in memory, heap bounds, files and registers but for a0; frames in use are not touched; E_AGAIN exactly when alloc_proc gives -1, and then every role stays, or the frames that were free are all in one dropped tree; a panic exactly when otherwise fewer than ForkFrames frames are free |
| Syscalls.ForkedRegisters | kernel/arch/riscv/trap_handler.c:394-413 | after a fork the child's a0 is 0 and the parent's the child's pid; all other registers, files and heap bounds of the child are the parent's, its kernel stack is its own, and the parent is its parent |
| Kernel.Machine.SysExec | kernel/arch/riscv/trap_handler.c:495-529 | for any name pointer: E_FAULT or E_NOENT with nothing changed, or the named program in a new tree with the old one freed, without its stack page exactly when ExecFrames frames were free and no more; it halts exactly for a name the kernel cannot read, a file that is no ELF file, and with fewer free |
| Kernel.Machine.SysSbrk | kernel/arch/riscv/trap_handler.c:567-618 | all or nothing, which error for which argument, and E_NOMEM within bounds exactly when fewer frames are free than the new pages and their missing tables |
| Kernel.Machine.SysOpen | kernel/arch/riscv/trap_handler.c:619-651 | for any name pointer: the lowest free descriptor from 3 for the entry found, or the error, in the source's order of checks; it halts exactly for a name the kernel cannot read |
| Reading.OpenThenRead | kernel/arch/riscv/trap_handler.c:619-740 | open a packed file and read from it, in pieces of any sizes and with anything in between: the bytes found at the buffers, as many as each call returned, are the file's bytes in order, and all of them once enough were asked for |
| Reading.ThenNothing | kernel/arch/riscv/trap_handler.c:718-736 | after that every read returns 0 |
| Reading.ReadIsRead | kernel/arch/riscv/trap_handler.c:652-740 | the calls of the machine are the reads those two speak of |
| Kernel.Machine.SysClose | kernel/arch/riscv/trap_handler.c:782-804 | exactly an open descriptor is closed, otherwise E_BADF |
| Kernel.Machine.SysRead | kernel/arch/riscv/trap_handler.c:652-740 | for any buffer: errors, one console line or a sleep, or the next bytes of a RAMDISK file, each with its whole effect; it halts exactly when there are bytes for a buffer that passed the check and the kernel cannot reach |
| Kernel.Machine.SysWrite | kernel/arch/riscv/trap_handler.c:741-781 | for any buffer: the user's bytes reach the console, or the error; it halts exactly for the console and a non-empty buffer that passed the check and the kernel cannot reach |
| Kernel.Machine.SysPutchar | kernel/arch/riscv/trap_handler.c:283-286 | one byte to the console |
| Kernel.Machine.Ecall | kernel/arch/riscv/trap_handler.c:268-281 | each call number has its call's effect; the process goes on at sepc + 4 with only a0 changed if the call returns, at the same ecall with the same registers if it sleeps, and at the entry point of a new program with its stack pointer set; and what a call is not about stays as it was |
| Answers.CallAnswers | kernel/arch/riscv/trap_handler.c:268-808 | for every call that returns: the value in a0, as a number, by the arguments and the state before, and what of PCB, files, heap, console and terminal it changed |
| Kernel.Machine.Fault | kernel/arch/riscv/trap_handler.c:810-824 | a fault saves the registers and ends the program like exit |
| Kernel.Machine.UserStore | kernel/arch/riscv/trap_handler.c:156-165 | between traps a program changes only its own pages, the byte stored is read back, and the invariant holds at the next trap |
| Kernel.Machine.Happen | kernel/arch/riscv/trap_handler.c:156-828 | what each event does, whole: a tick saves the registers, puts the process in line and runs the next; input is fed to the editor, in user mode and in the idle loop, and wakes the readers when it commits; a store changes its byte; a fault or a forbidden store ends the program; a call does what it answers. Every event keeps the invariant, which with the machine off says that every process has ended; the kernel halts exactly on the events of Panics; every process but the running one keeps registers, files, bounds, translations and user bytes; ended processes without a living parent keep slot and frames |
| Kernel.Machine.WhenItHalts | kernel/arch/riscv/trap_handler.c:268-828 | a system call halts the machine exactly for an unknown number, an exec of no program, a fork or exec with too few frames, or a pointer that passed the check where the kernel then has a byte to copy and cannot reach it |
| Kernel.Machine.OffWhenAllEnded | kernel/proc/process.c:517-524 | short of a panic the machine is off exactly when every process has ended |
| Kernel.Machine.Run | kernel/arch/riscv/trap_handler.c:156-828 | the invariant holds along every run, all console reads together delivered a prefix of the committed stream, a process that neither ran at the start nor was picked since finds itself and its memory as they were, a ready process is picked before the timer has ticked as often as there are slots from the current one to it, and an ended process without a living parent keeps its slot, tree and stack to the end |
| Kernel.Machine.ReadyGetsItsTurn | kernel/proc/process.c:489-538 | in the log of any run a process that is ready at MAX_PROCS picks in a row is one of those picked |
| Kernel.Machine.NobodyMissesInput | kernel/arch/riscv/trap_handler.c:692-699 | in user mode and in the idle loop nobody sleeps on the ring while a committed line is unread |
| Isolation.KeptView | kernel/mm/vmm.c:49-58 | if the frames of all trees but one keep their contents, every page of another tree translates and reads as before |
| Isolation.ViewIsWhatItSees | kernel/mm/vmm.c:49-58 | with the same view the hardware gives a program the same translations and the same bytes at every address it may access |
| Isolation.TurnComes | kernel/proc/process.c:489-538 | along events with as many ticks as slots lie between, a ready process is picked, whatever the other events are |
| Isolation.StepSparesOrphans | kernel/proc/process.c:366-383 | an ended process without a living parent stays so, PCB, tree and stack, under any step that leaves bystanders alone and new pids to new processes |
| Isolation.ChildOfTheEnded | kernel/proc/process.c:366-383 | an ended process whose parent has ended too is one of them |
| Theorems.LedgerIsExact | kernel/proc/process.c:561-572 | frames in use are the protected ones, the boot tree, each live process's tree and stack, the trees alloc_proc abandoned and the stack pages load_elf lost, disjointly and by count |
| Lives.LiveIsInLife | kernel/proc/process.c:89-165 | in every state the invariant holds of a live process has a tree and a stack of its own and every tree its root, as the next three take for granted |
| Lives.LifeBalances | kernel/arch/riscv/trap_handler.c:370-618 | along any calls of a process, with whatever others do between them, the frames free or its own change by what the others took and gave, less what its own execs and denied forks lost |
| Lives.ChildLeavesNoTrace | kernel/arch/riscv/trap_handler.c:370-549 | fork, any sbrk, exec and denied fork calls of the child, exit and wait restore every frame's role if and only if each exec found a frame free beyond ExecFrames and no denied fork just the frames of a kernel tree; otherwise exactly that page or tree is missing |
| Lives.FromForkToWait | kernel/arch/riscv/trap_handler.c:370-566 | the same for the contracts of the system calls themselves: the count of free frames with any steps of others in between, and the roles if and only if, when others take and give none |
| Theorems.EnterEndsTheWait | kernel/arch/riscv/uart.c:145-168 | in any idle state somebody waits for the console, and one Enter commits a line, making the reader ready, if and only if no escape sequence is under way |
| Theorems.TildeEnterEndsTheWait | kernel/arch/riscv/uart.c:117-168 | from any idle state, escape sequence or not, a tilde and an Enter commit a line and a reader becomes ready |
| Theorems.KernelMappedAlike | kernel/proc/process.c:544-555 | kernel RAM and devices translate identically and never for the program in every live address space |
| Theorems.HeapAccess | kernel/proc/process.c:317-319 | the heap can be read and written up to the break, lies below the PLIC, and from there to the stack nothing is mapped for the program, guard page included |
| Theorems.UserPagesAreOwn | kernel/proc/process.c:265-279 | what user mode can reach is its own page in a frame above the kernel's, never both W and X |
| LowMemory.BootTakes | kernel/main.c:83-178 | with a kernel from 0x80200000 to any `end` and a RAMDISK of one ELF file without segments booting takes 140 frames, so it boots exactly up to the end 0x87F73000 |
| LowMemory.BootsWithoutStack | kernel/proc/process.c:300-312 | at that end init.elf runs, its stack page is mapped nowhere, and a frame is lost |
| LowMemory.ForkLosesATree | kernel/proc/process.c:117-140 | with 70 frames more init.elf has its stack page, its first fork gets E_AGAIN, and the 69 frames that were left are in a tree nobody has |
| Ramdisk.GetEntry | kernel/arch/riscv/trap_handler.c:85-102 | the first entry with the name, or none |
| Ramdisk.Pack | tools/mkramdisk.c:30-72 | the image is header, directory and contents, each entry with the offset at which its file is written and its size, modulo 2^32 |
| Ramdisk.GetFilename | tools/mkramdisk.c:7-13 | what follows the last slash |
| Ramdisk.PackedEntry | tools/mkramdisk.c:37-72 | entry k of an image holds file k's kept name and size, and its offset is where file k's bytes are |
| Ramdisk.EntryOnDisk | kernel/include/mkramdisk.h:6-16 | where in the image a file's name, offset and size are |
| Ramdisk.PackThenLookup | kernel/arch/riscv/trap_handler.c:85-102 | a name is found if and only if it is a packed file's kept name, and the entry names that file's bytes |
| Ramdisk.LongNamesAreLost | tools/mkramdisk.c:51-52 | a packed file is found by its own name if and only if that is shorter than 32 bytes |
| Ramdisk.ALostName | tools/mkramdisk.c:51-52 | an image of one file whose name has 32 bytes, not to be found by that name |
| Ramdisk.ReadsConcatenate | kernel/arch/riscv/trap_handler.c:718-736 | successive reads deliver the file's bytes in order, and all of them once enough were asked for |
| Malloc.Heap.FindFreeBlock | kernel/user/syscalls.c:310-320 | the first block of the list that is free and big enough, otherwise the end of the list |
| Malloc.Heap.Malloc | kernel/user/syscalls.c:326-354 | first fit, fresh memory only without one; the block shares no byte with any other, and the others keep place, size and state; without memory it never returns null: exactly when sbrk refuses, or leaves no room for the header, the program faults; the heap stays in order exactly for requests that fit an int or need no fresh memory |
| Malloc.Heap.Free | kernel/user/syscalls.c:360-365 | marks that block free and changes nothing else |
| Malloc.AppendKeeps | kernel/user/syscalls.c:337-351 | a block added at the break keeps the list ordered, non-overlapping and below the break |
| Malloc.LongRequest | kernel/user/syscalls.c:326-354 | a first request of 2^32 + 8 bytes moves the break by 32 and is given a block that ends 2^32 bytes above it |

## Left out

- Vmm.AddressSpaces.MapPage: stated for the mappings the kernel makes: a supervisor page to itself or a user page to a fresh frame, and W only with R; the source writes any entry it is asked for.
- Kernel.Machine.constructor: relies on `GoodDisk`: every ELF file of the RAMDISK is a `GoodImage`, for the reason given at Elf.LoadElf.
- Elf.LoadElf: relies on `GoodImage`: page-aligned, page-disjoint PT_LOAD segments below 0x04000000 with p_filesz <= p_memsz and permissions that Sv39 allows (R or X, and W only with R); the loader checks none of this and silently remaps pages otherwise. `BadSegmentEntries` says which entries it makes for other permissions: through one of them the kernel itself would fault.
- Malloc.Heap.Malloc: programs are taken not to write over block headers.
- Ramdisk.PackedEntry: that an entry leads to its file's bytes is stated for images below 2^32 bytes, whose offsets do not wrap.
- `mkramdisk`'s usage text and files that cannot be opened are not part of this model.
- pids do not overflow (`next_pid` is unbounded); registers hold them modulo 2^64.
- Register save and restore in assembly, CSR bits other than satp, sepc and sscratch, TLB fences and A/D bits: trusted; each trap's registers are a parameter and land in the frame sscratch names.
- Registers no system call looks at are one opaque field of the frame.
- SBI, PLIC and UART register access: received bytes are an input, echo and console output are logs, and the timer is an event.
- Reads past the end of the RAMDISK image give zero, where the kernel would read what follows in its image.
- A frame is typed as entries or as bytes; the kernel's identity mapping would let it read one as the other, which none of the modelled code does.
- Supervisor-mode traps, including `ebreak`: folded into `Halted` or left out.
- The shell, `printf`, string functions, other user programs and the capability design in `docs/`: easy members or not decided by code.
- Alignment of `malloc` results and coalescing of free blocks: the source provides neither.
