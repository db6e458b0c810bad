# Reaver OS: memory and multiprocessor model

A Dafny model of the parts of the Reaver operating system whose correctness rests on invariants over many steps, with
machine-checked proofs. `dafny verify dfyconfig.toml` checks all of it.

The model covers:

* **Page tables.** Physical memory is a map from frames to tables of 512 entries, the MMU is a walk over it, and the
  kernel reaches every table only through the virtual address at which the tables themselves show it (slot 256 for the
  current space, slot 257 for a foreign one). `map`, `unmap`, `get_physical_address`, `set_foreign`, `release_foreign`,
  `clone_kernel` and `drop_bootloader_mapping` keep the source's loops and counters as methods of the class
  `Paging.Machine`. An address space is understood as the function from pages to frames that the walk computes
  (section 4.5 of the Intel SDM Volume 3A).
* **The boot loader's page tables**, edited by following pointers, up to the state in which the kernel starts.
* **Virtual address ranges** and frames: what allocation, mapping and unmapping keep over whole runs.
* **The global frame stack**, whose chunks live in free frames of its own.
* **Interrupt vectors** in aligned blocks.
* **Running a function on other cores**, and the **recursive lock**, as step systems over any number of cores and any
  interleaving of single memory accesses.
* **The timer's event list and dispatch loop.**

Modules follow the source's files; the relations that describe what an operation may change are in `AddressSpaces`,
`Ranges`, `Rights`, `Spaces`, `Dropping` and `Conservation`, the statements about addresses, runs and several spaces in
`Translations` and `Runs`, those about what the timer leaves behind in `LateEvents`.

Some of what the code does is not what one would expect. The model follows the code, and states exactly when:

* `map` takes a range that reaches into the last page of the address space for an empty one and returns silently
  (`Translations.SkippedIffLastPage`). `unmap` has no such test: for such a range its loops begin above the page that
  they compare with (`Translations.TurnedAroundIffLastPage`), and would run out of the tables if everything from there
  on were mapped (`Paging.Machine.Unmap`). But as `map` never reaches the last page, no run ever maps it, and `unmap`
  panics (`Runs.LastFreeForever`, `Runs.TurnedAroundPanics`).
* The write permission of a page directory entry is taken from the attribute for user access, so that what `map` maps is
  writable exactly if both are asked for (`Rights.MapGrants`); pages mapped earlier may lose that permission
  (`Rights.OthersKeepRightsIff`). With CR0.WP clear, as the boot code leaves it, the kernel itself does not notice.
* `vm::map` of one page at an address that is not page-aligned touches two pages (`Translations.OnePageIffAligned`), and
  `get_physical_address` drops the offset in the page (`Translations.PhysicalAddressIffAligned`).
* Kernel memory mapped after a clone is shared if and only if its PML4 slot was in use at that time
  (`Runs.LaterMappingShared`).
* A size close to 2^64 makes `allocate_address_range` wrap around and hand out memory in use
  (`AddressRanges.BelowIffFits`, `AddressRanges.HugeSizeOverlaps`).
* The frame stack never steps back to an earlier chunk: after 509 pushes the second `pop` reads in front of the chunk's
  array (`FrameStack.DrainedIff`, `FrameStack.DrainedAfter509`).
* A request for 32 vectors at priority 13 starts its search behind the last vector (`InterruptVectors.InsideIff`).
* The fallback of the vector allocator takes the allocator's lock, which is held and not recursive, again
  (kernel/processor/handlers.cpp:187 and 251): a call comes back if and only if it asks for at most one vector, or a free
  aligned block of the size exists (`InterruptVectors.Vectors.Allocate`, `InterruptVectors.FallbackEntered`). What the
  model then grants is what the code would if the lock let it.
* Freeing a vector below 32 reads in front of the array (`InterruptVectors.Vectors.Free`).
* A call of `parallel_execute` for something that is not a core never returns (`ParallelExecution.WaitsForever`); as
  long as calls address cores only, all of them do (`ParallelExecution.EveryCallReturns`).
* The timer's list puts an event that belongs in its middle right behind the first one (`Timers.InsertSortedIff`). A due
  event may be left behind therefore, exactly if one stood behind an event that was not due, or a periodic event that
  comes back not due is put in front of one (`LateEvents.NoneDueIff`). Periodic mode may be entered with a one-shot event
  in the list, exactly if that happens to a due one-shot event (`LateEvents.PeriodicModeSafeIff`), and the loop of the
  next interrupt then may never end: `Timers.LoopEndsIff` says when. Four events do all of it (`Timers.FourEvents`,
  `Timers.FourEventsHang`), three in order do none of it (`LateEvents.ThreeAreSafe`).
* `periodic` accepts a period of zero, with which the interrupt may never return, in either of its loops
  (`Timers.LoopEndsIff`, `Timers.ZeroPeriodHangs`).
* Without giving frames back, dropping the boot loader's mapping loses the frames of its tables
  (`Paging.Machine.DropBootloaderMapping`).

## Model

| member | source | states |
|---|---|---|
| Addresses.RecursiveMapping | kernel/memory/x64paging.cpp:32-65 | In any table state where slot `id` leads to a root whose slot 256 is itself, the address of each of the four accessors is canonical and lies in the paging area, and the MMU takes it to exactly the frame of the table it names, or to nothing when there is no such table |
| Addresses.IndicesOfAddress | kernel/memory/x64paging.cpp:95-103 | The four shifted and masked index fields of an address are the base-512 digits of its page number |
| Paging.EndTestIff | kernel/memory/x64paging.cpp:105-214 | The end test of the loops, four comparisons of counters below 512, holds at the last page and at no other |
| PageTables.LinkKeepsTree | kernel/memory/x64paging.cpp:111-153 | Linking a zeroed fresh table keeps the tree of tables of all address spaces |
| PageTables.LinkLocal | kernel/memory/x64paging.cpp:111-153 | A new table changes no walk outside the windows but the one that leads to it |
| PageTables.PutLocal | kernel/memory/x64paging.cpp:163-178 | Writing one entry is invisible to every walk outside the windows that does not pass through it |
| PageTables.WindowAvoidsTable | kernel/memory/x64paging.cpp:111-153 | On its way to a table through a window the MMU reads nothing of that table, so it may hold anything while it is constructed |
| Paging.Machine.ConstructTable | kernel/memory/x64paging.h:70-76 | Constructing a table entry by entry at its window address empties exactly its frame, whatever the frame held |
| Paging.Machine.CreateTable | kernel/memory/x64paging.cpp:111-117 | One popped frame becomes the missing table, empty; no page translates differently; nothing changes when there is no frame |
| Paging.Machine.EnsureTable | kernel/memory/x64paging.cpp:127-153 | Afterwards the table exists, and only a missing one was added; the entry that leads to it has the permission bits asked for, and no other entry has different bits |
| Paging.Machine.MapPage | kernel/memory/x64paging.cpp:157-178 | Changes exactly the translation and the permission bits of the page of the counters, or panics exactly if that page is mapped elsewhere |
| Paging.Machine.MapPages | kernel/memory/x64paging.cpp:157-178 | The innermost loop stops at the end of the range or with the last counter at 512, and address and counters stay in step |
| Paging.Machine.MapSpace | kernel/memory/x64paging.cpp:105-214 | The four nested loops end, at the page after the range, with every carry resolved |
| Paging.Machine.Map | kernel/memory/x64paging.cpp:75-215 | Total correctness: without a panic all pages of the rounded range translate to consecutive frames and all others as before, with only the needed tables added; each panic happens only for its reason, at the page reached (for want of frames only where a table is missing); the entries on the way to the pages done have the bits of the attributes, those on the way to no page of the range the bits they had; the tree and the window stay intact |
| Rights.MapGrants | kernel/memory/x64paging.cpp:119-171 | The MMU lets user code use the pages mapped exactly as asked for, and lets them be written exactly if write and user access are asked for |
| Rights.OthersKeepRightsIff | kernel/memory/x64paging.cpp:119-171 | What `map` does to other pages: user access stays unless a page of the same 512 GiB is mapped without it, write access unless a page of the same 512 GiB is mapped read-only or one of the same 2 MiB without user access |
| Translations.MapTranslates | kernel/memory/x64paging.cpp:75-215 | After `map` every address of the rounded range translates to its offset from the physical start, every other canonical address outside the windows as before |
| Translations.MinimalTables | kernel/memory/x64paging.cpp:105-153 | A missing table is created if and only if some page of the range lies below it, from one popped frame |
| Translations.PoppedIsTable | kernel/memory/x64paging.cpp:105-153 | Every frame that `map` popped is one of those tables |
| Translations.SkippedIffLastPage | kernel/memory/x64paging.cpp:86-93 | A non-empty range is skipped if and only if it reaches into the last page of the address space |
| Paging.Machine.Unmap | kernel/memory/x64paging.cpp:240-355 | Total correctness, also for turned-around ranges: exactly the pages up to the one reached become unmapped, their frames are given back in address order if asked for; every entry keeps its permission bits; it ends exactly if the range is not turned around and all mapped, and otherwise panics at the first page that is not mapped, if there is one up to the last page of all |
| Translations.TurnedAroundIffLastPage | kernel/memory/x64paging.cpp:246-260 | The loops of `unmap` begin above their end exactly for the ranges that `map` skips, but for those from the first page on |
| Translations.MapUnmapRestores | kernel/memory/x64paging.cpp:75-355 | `map` and then `unmap` of unmapped pages, without giving back, restores the translation function |
| Translations.UnmapMapRestores | kernel/memory/x64paging.cpp:75-355 | `unmap` and then `map` to the same frames restores it too |
| Paging.Machine.GetPhysicalAddress | kernel/memory/x64paging.cpp:217-238 | Returns the start of the frame that the MMU's walk finds, and panics exactly when it finds none |
| Translations.PhysicalAddressIffAligned | kernel/memory/x64paging.cpp:217-238 | The answer is the translated address if and only if the question was page-aligned |
| Paging.Machine.SetForeign | kernel/memory/x64paging.cpp:394-410 | Installs the foreign root and its self entry; all its tables become reachable through slot 257; no other slot of any space changes |
| Paging.Machine.ReleaseForeign | kernel/memory/x64paging.cpp:412-422 | Empties the foreign slot and changes nothing else |
| Paging.Machine.PrepareRoot | kernel/memory/x64paging.cpp:377-381 | The new root's frame is zeroed through a temporary mapping, after which every space translates as before; the frames taken are that one and the tables created for the temporary page; it fails exactly when a frame is missing for one of them |
| Paging.Machine.CloneKernel | kernel/memory/x64paging.cpp:362-392 | The clone holds the current space's slots 258 to 511, itself in slot 256 and nothing else, and is installed as foreign; every frame taken is a table now; it fails exactly when frames run out |
| Spaces.CloneTranslates | kernel/memory/x64paging.cpp:362-392 | The clone agrees with the original on every kernel page and maps nothing in the lower half |
| Runs.SharedForever | kernel/memory/x64paging.cpp:362-489 | Two spaces that share the table of a slot share it after any run of calls, clones and drops included |
| Runs.KernelSharedForever | kernel/memory/x64paging.cpp:362-392 | For each kernel slot present when cloning, both spaces agree on all of its pages in every later state of every run |
| Runs.LaterMappingShared | kernel/memory/x64paging.cpp:385-389 | A kernel page mapped after the clone, with any calls in between that do not act on the clone, is seen by it if and only if the slot was present at clone time |
| Runs.LowerHalfIsolated | kernel/memory/x64paging.cpp:75-489 | While only other spaces are mapped into, unmapped from or dropped, no lower-half page of a space translates differently, over any run |
| Runs.InUseForever | kernel/memory/x64paging.cpp:75-489 | Over any run of all operations on any number of spaces, every table is in use, at its place in some space, and none of them is free, as long as `unmap` is not asked to give back a frame that is a table |
| Runs.AlwaysDroppable | kernel/memory/x64paging.cpp:441-489 | What dropping with giving back relies on holds of every space in every state of every run |
| Runs.LastFreeForever | kernel/memory/x64paging.cpp:75-489 | Over any run, no space ever maps the last page of the address space |
| Runs.TurnedAroundPanics | kernel/memory/x64paging.cpp:246-355 | So the loops of `unmap` never come to the end of their tables: of a range that is turned around they always meet a page that is not mapped |
| Runs.OneSpaceForever | kernel/memory/x64paging.cpp:75-489 | While there is one address space, every state of every run of `map`, `unmap` and `drop_bootloader_mapping`, with or without giving back, has all tables in use in it, at their places, and none of them free |
| Dropping.UniqueParent | kernel/memory/x64paging.cpp:105-355 | In one address space no table is referenced by two entries |
| Dropping.HasParent | kernel/memory/x64paging.cpp:105-355 | In one address space every table but the root is referenced by an entry |
| Dropping.TakeOut | kernel/memory/x64paging.cpp:476-485 | Giving back a table of the lower half without tables below and clearing its entry keeps the tree and the use of all tables, removes exactly the walks through that entry, and changes no walk of another space |
| Paging.Machine.DropBootloaderMapping | kernel/memory/x64paging.cpp:441-489 | No lower-half page is translated any more, every upper-half page outside the windows as before; with `push` exactly the tables that this space has in its lower half are given back, each once, and no mapped frame; the tables that are left are all in use, and no other space sees a difference |
| Paging.Machine.DropSpace | kernel/memory/x64paging.cpp:455-486 | The three nested loops give back every lower-half table once, lower entries first and the tables below before the table |
| Paging.Machine.MapFreshPage | kernel/memory/vm.h:51-54 | Pops one frame and maps it at exactly one page, conserving all frames, with the permission bits asked for; that succeeds at unmanaged pages only, and where it panics the frame popped is the only one lost |
| Paging.Machine.MapFresh | kernel/memory/vm.h:61-69 | Maps exactly the pages of the range, each to a frame of its own, conserving all frames; user code may use them exactly if the attributes say so, and they may be written exactly if the attributes ask for write and user access; where it panics the pages before are mapped, and one frame is lost at most |
| Translations.OnePageIffAligned | kernel/memory/vm.h:51-54 | Mapping 4096 bytes from an address touches one page if and only if the address is aligned, otherwise two |
| Conservation.PlacedConserves | kernel/memory/vm.h:51-69 | Free frames, tables and mapped frames still partition the initial frames after one page of `vm::map` |
| Conservation.RemovedConserves | kernel/memory/vm.h:76-79 | And after `vm::unmap` with its frames given back |
| Conservation.GivenBackOnce | kernel/memory/x64paging.cpp:310-313 | The frames that `unmap` gives back were not free before, are given back once each, and are free afterwards, and no other frame has become free |
| Conservation.RunConserves | kernel/memory/vm.h:51-79 | Over any run of both, no frame is lost, doubled, or in two places |
| AddressRanges.AddressSource.Allocate | kernel/memory/vm.cpp:45-60 | Hands out the new lowest address, with 64-bit wrap-around, and panics exactly when it leaves the upper half |
| AddressRanges.BelowIffFits | kernel/memory/vm.cpp:45-55 | A range handed out lies below all earlier ones if and only if its size is at most the lowest address |
| AddressRanges.HugeSizeOverlaps | kernel/memory/vm.cpp:45-55 | A size for which it does not: the very first range then lies above the start of the source |
| AddressRanges.RangesDisjoint | kernel/memory/vm.cpp:45-60 | Over any interleaving of allocating, mapping and unmapping, ranges of sizes that do not wrap around never overlap |
| AddressRanges.NeverAlreadyMapped | kernel/memory/x64paging.cpp:163-167 | Mapping a range above the windows that was handed out for the first time never panics as already mapped |
| Booter.Loader.EnsureTable | loader/booter/memory/x64paging.cpp:50-76 | Following the pointer, the child table is found, or created empty, and no page translates differently; every present entry stays writable and not for user code |
| Booter.Loader.Map | loader/booter/memory/x64paging.cpp:28-132 | The pointer walk keeps the contract of the kernel's `map`, and every frame taken is a table |
| Booter.SameTranslations | loader/booter/memory/x64paging.cpp:28-132 | For the same arguments the loader's and the kernel's `map` leave spaces that translate alike |
| Booter.Loader.PrepareLongMode | loader/booter/memory/memory.cpp:51-75 | Exactly the first 64 MiB are mapped, each address to itself; that takes 35 frames, and succeeds if and only if there are as many |
| Booter.Loader.MapIdentity | loader/booter/main.cpp:57-58 | Maps video memory to itself, over what is mapped so already, and changes no other page; panics as already mapped exactly if its start is not page-aligned and some of it is mapped |
| Booter.Loader.MapScreen | loader/booter/main.cpp:57-58 | Both calls in order, and exactly when one of them panics |
| Booter.Loader.InstallKernel | loader/booter/memory/memory.cpp:77-89 | The kernel's pages lie from 0xFFFFFFFF80000000 on, the end of the last one is returned, and its frames are not free any more |
| Booter.Loader.InstallKernelStack | loader/booter/memory/memory.cpp:91-101 | One page after the kernel stays unmapped, the next is the stack |
| Booter.Loader.Install | loader/booter/memory/memory.cpp:77-111 | Kernel, one free page, stack and ramdisk in this order, disjoint, in frames that are not free any more; no call panics as already mapped |
| Booter.Loader.Boot | loader/booter/main.cpp:56-83 | The whole sequence: in the lower half exactly the first 64 MiB, video memory and the back buffer, each address mapped to itself; in the upper half exactly kernel, stack and ramdisk, whose frames are not free; the end of the stack is returned; the last page is free and all tables are in use. It panics as already mapped exactly if video memory or the back buffer is not page-aligned and some of it is mapped, and otherwise only for want of a frame for a missing table |
| Booter.LowerHalfBuilt | loader/booter/main.cpp:56-83 | The steps together give a lower half with these pages and no others |
| Booter.FramesAtAre | loader/booter/memory/memory.cpp:77-111 | The frames that are not free afterwards are those of the pages installed |
| Booter.SelfInvisible | kernel/memory/vm.cpp:37-38 | The self entry is invisible to every walk outside the windows |
| Booter.Initialize | kernel/memory/vm.cpp:35-43 | The kernel's first write establishes everything its paging operations and the theorems about runs rely on and changes no translation; every mapped page may be written, but not by user code |
| FrameStack.PushInv | kernel/memory/stack.cpp:129-164 | A push keeps full chunks full and the spare chunk in place, and accounts for the frame as stored or as backing a chunk |
| FrameStack.PushPop | kernel/memory/stack.cpp:48-164 | A stored frame is what the next `pop` returns, and that restores the stack |
| FrameStack.RunInv | kernel/memory/stack.cpp:48-164 | Over any run the chunk invariant holds, and pushed frames are exactly the stored, the returned and the backing ones |
| FrameStack.AfterPushes | kernel/memory/stack.cpp:129-164 | What any number of pushes in a row leaves, in closed form: one frame in 507 becomes a chunk, the spare one at 406 stored frames |
| FrameStack.DrainedIff | kernel/memory/stack.cpp:86-89 | `pop` reads outside its chunk if and only if the last chunk stores nothing and there is one before it |
| FrameStack.PopsThatWork | kernel/memory/stack.cpp:86-105 | After any run, how many pops in a row work, what they return, and how the next one fails |
| FrameStack.DrainedAfter509 | kernel/memory/stack.cpp:86-164 | Such a case: after 509 pushes the second `pop` reads outside, with 506 frames stored |
| FrameStack.AvailableAre | kernel/memory/stack.cpp:33-46 | Exactly the aligned frames from one megabyte on that start in a usable entry are pushed |
| FrameStack.InOrder | kernel/memory/stack.cpp:33-46 | Entry after entry, and in ascending order within each |
| FrameStack.NoFrameTwice | kernel/memory/stack.cpp:33-46 | None of them twice, when entries do not overlap |
| FrameStack.WholeIff | kernel/memory/stack.cpp:39-43 | All frames of an entry lie in it completely if and only if it ends on a page boundary or has none |
| FrameStack.GlobalStack.Push | kernel/memory/stack.cpp:129-164 | The linked chunks refine the value: links, sizes, contents and backing frames after a push |
| FrameStack.GlobalStack.Pop | kernel/memory/stack.cpp:48-105 | The same for `pop`; the spare chunk it looks behind always exists |
| FrameStack.GlobalStack.FromMap | kernel/memory/stack.cpp:33-46 | The constructor pushes exactly the map's frames, in order |
| InterruptVectors.InsideIff | kernel/processor/handlers.cpp:189-221 | No search of a call starts behind the last vector if and only if the priority is below 13, or is 13 and at most 16 vectors are asked for (priorities modulo 16) |
| InterruptVectors.StartOf | kernel/processor/handlers.cpp:189 | Where a search starts: at the priority's first vector, and for 32 vectors at odd priorities one priority later |
| InterruptVectors.AnswerUnique | kernel/processor/handlers.cpp:177-255 | The description of the allocated block determines it |
| InterruptVectors.Vectors.ScanDown | kernel/processor/handlers.cpp:189-219 | Finds the nearest free aligned block at or below the start, or there is none |
| InterruptVectors.Vectors.ScanUp | kernel/processor/handlers.cpp:221-246 | Finds the lowest free aligned block above the start, or no block of this size is free |
| InterruptVectors.Vectors.Allocate | kernel/processor/handlers.cpp:177-255 | The lock is taken once, so that the call comes back, if and only if at most one vector is asked for or an aligned block of the size is free. The block has the largest size of `count`, `count/2`, ..., 1 with a free aligned block and is the best placed one of that size; it panics only for size 0 or when all 224 vectors are taken; live grants stay disjoint and are exactly what is marked |
| InterruptVectors.FallbackEntered | kernel/processor/handlers.cpp:248-252 | A state in which the lock is taken twice: one vector is free and two are asked for |
| InterruptVectors.Vectors.AllocateOne | kernel/processor/handlers.cpp:171-175 | One vector: the nearest free one, marked and no other, for the owner given; a panic exactly when all are taken |
| InterruptVectors.Vectors.Free | kernel/processor/handlers.cpp:257-269 | Takes one vector from the grant that has it and changes nothing else; panics exactly when nobody has it; reads outside the array exactly for numbers below 32 |
| ParallelExecution.RunInv | kernel/processor/ipi.cpp:32-104 | The slot invariant holds in every state of every run |
| ParallelExecution.RanExactlyOnce | kernel/processor/ipi.cpp:43-104 | Once a caller has left its wait loop, every targeted core has run the function on the argument of this call exactly once, and no other core has run anything for it |
| ParallelExecution.RanAtMostOnce | kernel/processor/ipi.cpp:43-104 | At no time has a core run a call twice, or something else in its name |
| ParallelExecution.SlotStable | kernel/processor/ipi.cpp:43-104 | While an interrupt is pending or handled, the slot is locked by its call and holds that call's function, argument and the number of targets left |
| ParallelExecution.SendsOnIdleLines | kernel/processor/ipi.cpp:65-91 | Sending finds no pending bit set, so one bit for each vector and core loses nothing |
| ParallelExecution.OneInterruptPerLine | kernel/processor/ipi.cpp:43-49 | A line never has an interrupt pending while its handler still works |
| ParallelExecution.NeverUnderflows | kernel/processor/ipi.cpp:48-74 | Every decrement finds a positive counter, that of its own call |
| ParallelExecution.LeavesIffAllDone | kernel/processor/ipi.cpp:97-100 | The wait loop can be left if and only if every target has decremented the counter |
| ParallelExecution.UnlocksItsOwn | kernel/processor/ipi.cpp:52-104 | A slot's lock is held by one call from its acquisition to its release, so releasing never panics |
| ParallelExecution.LockedIffHeld | kernel/processor/ipi.cpp:54-104 | In every state of every run a slot is locked if and only if some call holds it, and otherwise function, argument and counter are cleared |
| ParallelExecution.CallIsAsAsked | kernel/processor/ipi.cpp:52-104 | A call keeps the core, policy, function and argument it was made with, and its slot once it has picked one, in every later state |
| ParallelExecution.PickedInTurn | kernel/processor/ipi.cpp:54 | Slots are picked in turn: the slot is the number of calls that have picked one, modulo 8 |
| ParallelExecution.NoEndlessRun | kernel/processor/ipi.cpp:43-104 | Without new calls no run takes infinitely many steps, whichever caller or handler takes them |
| ParallelExecution.EveryCallReturns | kernel/processor/ipi.cpp:52-104 | When nobody can take a step all calls have returned, if they address cores only; so from every state of every run all calls return |
| ParallelExecution.WaitsForever | kernel/processor/ipi.cpp:87-100 | A call for something that is not a core never leaves its wait loop |
| ParallelExecution.InitializeParallel | kernel/processor/ipi.cpp:106-113 | The eight slots get eight different vectors that were free before, each the nearest free one in turn; these and no others are marked and lose their owners; or all vectors are taken |
| RecursiveLock.StepInv | kernel/utils/spinlock.h:67-107 | Every access to the lock's fields by any CPU keeps the invariant |
| RecursiveLock.MutualExclusion | kernel/utils/spinlock.h:67-107 | At most one CPU holds the lock; counter and owner are its nesting depth and identity |
| RecursiveLock.NeverPanics | kernel/utils/spinlock.h:46-107 | With each CPU unlocking only what it holds, no unlock panics |
| RecursiveLock.FailsIffHeldByAnother | kernel/utils/spinlock.h:71-93 | An attempt fails if and only if another CPU is counted: a stale owner keeps nobody out and lets nobody in |
| RecursiveLock.HolderNeverWaits | kernel/utils/spinlock.h:84-89 | Nested locking goes through at the first attempt |
| RecursiveLock.InnerHeldIff | kernel/utils/spinlock.h:67-107 | The inner lock is held if and only if some CPU is between locking and unlocking it |
| RecursiveLock.LockReturns | kernel/utils/spinlock.h:67-94 | With nobody else counted a call of `lock` returns: owner, counter and depth afterwards, and the inner lock is free |
| RecursiveLock.AttemptChangesNothing | kernel/utils/spinlock.h:71-93 | An attempt while another CPU is counted leaves everything as it was |
| RecursiveLock.UnlockReturns | kernel/utils/spinlock.h:97-107 | A call of `unlock` returns, with the counter at the depth that is left |
| RecursiveLock.UnlockPanicsIff | kernel/utils/spinlock.h:97-107 | In any state, matched or not, `unlock` panics if and only if the counter is 0 or another CPU is the owner |
| RecursiveLock.ReleasePanicsIff | kernel/utils/spinlock.h:46-54 | Releasing the plain lock panics if and only if nobody holds it |
| Timers.InsertSortedIff | kernel/utils/priority_list.h:43-87 | Insertion keeps the list in order if and only if the event belongs in front, at the end, or between the first two |
| Timers.InsertSums | kernel/time/timer.cpp:246-250 | Wherever an event is inserted, it adds its own weight to the usage and its own work to the termination measure |
| Timers.AfterFirstLess | kernel/time/timer.cpp:239-260 | Dispatching lowers the sum of `now - time point + 1` over due events, although periodic events stay |
| Timers.EachAccounted | kernel/time/timer.cpp:239-260 | Each periodic event is moved on by one period for each call and its last call was due; each one-shot event is called once or stays |
| LateEvents.NoneDueIff | kernel/time/timer.cpp:239-260 | For any list: an interrupt leaves no due event if and only if none stood behind an event that was not due, and the dispatch never put an event that was not due in front of one |
| LateEvents.SortedLeavesNoneIff | kernel/time/timer.cpp:239-260 | For a list in order, the insertions alone decide that |
| LateEvents.LeavesNone | kernel/time/timer.cpp:239-260 | Lists of any length for which the insertion does no harm: at most the first two events due, only one-shot events due, or up to three events |
| LateEvents.CalledAsDueIff | kernel/time/timer.cpp:239-260 | Under the same condition, and no other, every event is called exactly as often as it is due |
| LateEvents.OnlyPeriodicIff | kernel/time/timer.cpp:239-260 | For any list: an interrupt leaves only periodic events if and only if every one-shot event was due, stood behind no event that was not, and none was put there |
| LateEvents.ThreeStaySorted | kernel/time/timer.cpp:239-260 | With up to three events in order the list stays in order and no due event is left |
| LateEvents.ThreeAreCalled | kernel/time/timer.cpp:239-260 | With up to three events in order each is called exactly as often as it is due |
| Timers.Timer.OneShot | kernel/time/timer.cpp:64-102 | Adds the event, counts one in the usage, leaves periodic mode |
| Timers.Timer.Periodic | kernel/time/timer.cpp:104-140 | Adds the event, whatever its period, counts 100, and leaves periodic mode unless it is the only event of a capable timer |
| Timers.Timer.ScheduleNext | kernel/time/timer.cpp:276-326 | Finds the first event that is not due or the last one; goes over to periodic mode exactly when all but a periodic last event are due |
| Timers.Timer.Handle | kernel/time/timer.cpp:194-266 | Moves the time on to the first event, but by no less and no more than the tick limits, or by the minimal tick of a fixed frequency; what is due then is called, the first event first, and if it is not due nothing is. It ends wherever `Timers.LoopEndsIff` says that the loop it comes to does; calls the events of the specification of that loop in order and leaves its list and mode; usage stays one for each one-shot and 100 for each periodic event |
| Timers.TickIs | kernel/time/timer.cpp:207-221 | An event ahead within the limits is met exactly, later and earlier ones at the limits, and an overdue one counts as one far ahead |
| Timers.LoopEndsIff | kernel/time/timer.cpp:225-260 | For any list with any periods, of either loop: it ends if and only if, pass by pass, the first event does not stay as it was, or those in front that stay let the next one that does not come to the front |
| Timers.ZeroPeriodHangs | kernel/time/timer.cpp:225-260 | A due periodic event with period zero that is earlier than the next event, or alone, keeps either loop running for ever |
| Timers.SettleIsDispatch | kernel/time/timer.cpp:225-260 | With positive periods the loop outside of periodic mode ends and is the dispatch that the statements about late events speak of; with periodic events only, the other loop does the same |
| LateEvents.PeriodicModeSafeIff | kernel/time/timer.cpp:239-326 | When the scheduling before the dispatch goes over to periodic mode, the list is left with periodic events only if and only if the dispatch never put an event that was not due in front of a due one-shot event |
| LateEvents.AfterDispatchSafe | kernel/time/timer.cpp:239-326 | The scheduling after the dispatch goes over to periodic mode only with a single event, which is periodic |
| LateEvents.ThreeAreSafe | kernel/time/timer.cpp:225-326 | With up to three events in order, periodic mode is never entered with a one-shot event in the list |
| Timers.FourEvents | kernel/time/timer.cpp:64-266 | Four calls and one interrupt that leave a due one-shot event in periodic mode |
| Timers.FourEventsHang | kernel/time/timer.cpp:225-237 | From there the loop of the next interrupt never ends |

## Left out

- Paging.Machine.Map: requires, unless the guards return before, a range in one canonical half; the code would go through the hole between the halves, and so through the paging windows.
- Paging.Machine.Unmap: requires that the loops end, or meet a page that is not mapped, before they come to the paging windows, where the code would unmap tables.
- Paging.Machine.SetForeign: requires the foreign slot to be empty, where the code waits for that, and a frame that is a root or zeroed and unused, where the code takes any.
- Paging.Machine.CloneKernel: requires its temporary address, from the range allocator, as a parameter.
- Paging.Machine.MapFresh: requires a page-aligned base and a range that ends before the last page; from other bases each step maps a second page to a frame that was never popped (`Translations.OnePageIffAligned`), and in the last page `map` skips the step (`Translations.SkippedIffLastPage`). The same holds of `MapFreshPage`.
- Paging.Machine.MapFreshPage: see above; in addition, the address lies outside the paging windows, for which `map` panics.
- Paging.Machine.DropBootloaderMapping: with `push` it requires that all tables are in use and that this space shares nothing with another in the lower half, which `Runs.AlwaysDroppable` shows of every state; without, it promises nothing about other spaces where that fails.
- Runs.InUseForever: requires of `unmap` with giving back that no page of the range is mapped to a table, which `Conservation.RunConserves` shows of users who unmap only what they mapped.
- AddressRanges.RangesDisjoint: speaks of sizes up to the lowest address; by `AddressRanges.BelowIffFits` it fails for every other one.
- AddressRanges.NeverAlreadyMapped: the same, and of one address space; ranges handed out in the paging windows are refused by `map`.
- Booter.Loader.MapIdentity: requires an end in the lower half.
- Booter.Loader.Install: requires that kernel, stack and ramdisk end before the last page of the address space.
- Booter.Loader.Map: requires, unless it returns at once, a range in one half that does not begin in the two slots that become the paging windows; the loader's `map` has no guard for them.
- Booter.Loader.InstallBytes: takes the physical address, which the placement allocator chooses, as a parameter, and does not copy the bytes.
- FrameStack.GlobalStack.Pop: returns a marker and stops where the code would read outside the chunk.
- FrameStack.GlobalStack.FromMap: entry ends are not wrapped to 64 bits.
- InterruptVectors.Vectors.Allocate: requires a power of two up to 32 and a search that starts inside the array; other arguments may read outside it.
- Timers.Timer.Handle: requires a list for which the loop that it comes to ends, by `Timers.LoopEndsIff` exactly those; what is called how often and what is left late is stated for positive periods (`LateEvents`).
- TLB state, `invlpg`, CR3 reloads and cache control: every write is visible to the walk at once.
- Bit locks inside entries, and interrupts or frame allocation re-entering `map`: paging operations are sequential, and the frame source is an oracle that hands out any free frame.
- Whether the loader's tables lie in the memory that it can address, and its allocator, which maps more memory when it runs short.
- The loader's `unmap`, which nothing calls and which repeats the loops of the kernel's.
- The policies that do not wait, which leave the counter at 0 while handlers decrement it.
- Fair scheduling: `ParallelExecution.NoEndlessRun` counts the steps that change something, and leaves out how often a waiting core spins in between.
- Delivery of interrupts is a step that may happen at any time; priorities and the local APIC are not modelled.
- The lock around vector allocation, but for how often one call takes it.
- The wrap-around of the recursive lock's counter after 2^64 nested calls, and of times in the timer's list.
- Chunk transfer between frame stacks and rebalancing across cores.
- Cancelling timer events, and handlers that set or cancel timers.
- The list's `prev` links and allocator, the variable-frequency run queue and the scheduler.
- The hash map, the general allocator and the loader's memory map merging.
- Programming of PIT, HPET, RTC and APIC, context switching, console, ACPI and boot assembly.
