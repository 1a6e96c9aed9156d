# A verified model of the intel_gfx driver's submission stack

These modules model, in Dafny, how the intel_gfx driver lets several processes share one GPU: the page tables each
process's commands run against, the global table everybody shares, the ioctls of one open device, the submission of a
batch to the engine, and the user-space adapter that decides where every buffer goes. Beside that stack stand the two
clock-divider searches of the display driver and the lock both sides use.

The source changes things in place, so the model does: `PageTables`, `GlobalGTT`, `BufferObject`, `RenderClient`,
`RenderEngine` and the adapter are classes whose methods are the source's functions. Each is tied to a value it stands
for, and what the source promises is proved about those values:

| module | stands for | what is proved of it |
|---|---|---|
| AddressSpace, Ppgtt | a tree of page tables over three shared scratch tables | the hardware's walk is a flat page map; `Map` and `Unmap` change exactly the pages asked for |
| Gtt, Aperture | a flat table with an allocation bitmap | lowest free run, failures that undo themselves, runs that never meet whoever binds them |
| Buffers | an area and the run that pins it | the run holds the buffer's own pages and can always be given back |
| ClientModel, ClientSafety, ClientRuns, ClientEffects | one client as a state machine over ioctls | an invariant of every run, where every address leads, the fault that freezes everything, what each ioctl gives and takes |
| Clients, Devices | the client's objects, and all clients of a device | each ioctl is one step of the state machine; clients do not disturb each other |
| Commands, StateLayout, Engine | ring, register image, one submission | the GPU finds the batch, the fence and nothing else; the port is written only when it may be |
| Execlist | all threads, contexts and the GPU, interleaved | one piece of work at a time, increasing fences, no port write after a timeout |
| WinsysModel, Winsys | the user-space adapter beside the kernel's client | a layout is never refused for the adapter's own leftovers; the cache gives up its oldest first |
| HswPll, SklPll | the divider searches | optimality, and no overflow |
| Benaphore, LockOrder | the lock, and the order locks are taken in | mutual exclusion, no lost wakeup, no deadlock |

The GPU is an adversary. Between any two looks the driver takes it may run what its port was given, report a context
switch, save the context, keep stale translations, or do nothing for ever. It acts on what is in memory: an entry the
processor has written counts only once it has been flushed. What the memory manager, the copies from and to the caller
and the hardware's readiness come to is a parameter (`World` for an ioctl): nobody controls it, but an operation may
fail only where it does. What is promised of them (a new page is nobody else's, a lookup of an area tells the truth or
fails) is written where they are asked.

## Model

| member | source | states |
|---|---|---|
| AddressSpace.IndexOfPage | kernel/PageTables.cpp:16-21 | the shift and mask of an address at each level are the nine bits of its page number |
| AddressSpace.Compose | kernel/PageTables.cpp:16-21 | the four indices of a page number determine it |
| AddressSpace.MaskKeeps | kernel/PageTables.cpp:61-68 | an address passes the code's check exactly when reading it back out of an entry gives it back |
| AddressSpace.EntryRoundTrip | kernel/PageTables.cpp:235-237 | an entry for such a page leads back to it, present and writable, bits 0 and 1, and says nothing else |
| AddressSpace.ScratchEntry | kernel/PageTables.cpp:100-112 | the scratch page's own entry is never a fault, and leads to the scratch page exactly when its address would pass that check, which Init does not make |
| AddressSpace.StepLands | kernel/PageTables.cpp:134-152 | one step of a walk lands in the private table of the region below if it has one, else in the scratch table of that level |
| AddressSpace.WalkFrom | kernel/PageTables.cpp:102-130 | from any level of any well-formed tree the rest of a read or a write, which stops at any entry not present or not writable, gets to what the flat reading allows |
| AddressSpace.WalkIsFlat | kernel/PageTables.cpp:88-196 | no entry above the last level stands in the way of any access to any 48 bit address: it walks, through private and shared tables, to the page behind the flat reading's entry |
| AddressSpace.WalkIsMapped | kernel/PageTables.cpp:88-307 | reading or writing an address gets to the page the flat page map gives it; where the map says nothing, to the page behind the scratch entry; never to a fault |
| AddressSpace.GrowFlat | kernel/PageTables.cpp:173-189 | replacing a shared scratch table by a private copy changes no translation of any page |
| AddressSpace.GrowStandsFor | kernel/PageTables.cpp:173-189 | and leaves the tables a tree that stands for the same flat map |
| AddressSpace.SetLeafFlat | kernel/PageTables.cpp:229-237 | writing one last-level entry changes the translation of that page and of no other |
| AddressSpace.SetLeafStandsFor | kernel/PageTables.cpp:229-237 | so the tables stand for the map with that page moved, or taken out when it goes back to scratch |
| AddressSpace.GrowKeeps | kernel/PageTables.cpp:173-189 | giving a region a table writes no scratch table and moves nobody else's table |
| AddressSpace.SetLeafKeeps | kernel/PageTables.cpp:229-237 | neither does writing an entry |
| AddressSpace.InitialStandsFor | kernel/PageTables.cpp:102-130 | the four tables of a fresh address space are such a tree, with nothing mapped |
| AddressSpace.TableCount | kernel/PageTables.cpp:50-75 | the number of tables is four plus the number of regions below the root that own one |
| AddressSpace.TablesAdded | kernel/PageTables.cpp:155-196 | going from one tree to another adds at most one table for each region entered for the first time |
| Ppgtt.PageTables.CreateTable | kernel/PageTables.cpp:49-75 | a zeroed table of its own in memory no other table has, or nothing changes; it fails only at 512 tables or when the memory manager has no page an entry can hold |
| Ppgtt.PageTables.Init | kernel/PageTables.cpp:88-131 | on a fresh object: a valid tree of four tables, everything on scratch, the dirty flag up; it fails only for want of the scratch page or of pages |
| Ppgtt.PageTables.Descend | kernel/PageTables.cpp:134-152 | the table at the entry's physical address, by the first match, or the right error |
| Ppgtt.PageTables.GiveTable | kernel/PageTables.cpp:173-189 | the tables become the tree with one more private table, or stay as they were |
| Ppgtt.PageTables.WalkTo | kernel/PageTables.cpp:155-196 | the page's own last-level table and its index; only tables on the page's path are made, no translation changes, and it fails only where another table cannot be had |
| Ppgtt.PageTables.Map | kernel/PageTables.cpp:199-241 | the flat map gets the pages of the area in order, all of them or, on failure, exactly a prefix, up to the page whose lookup failed or that no entry can hold, or for which no table could be had; new tables only in regions the range enters, every earlier table stays, no scratch table is written |
| Ppgtt.PageTables.MapPhysical | kernel/PageTables.cpp:244-275 | the same for consecutive physical pages; the error of a page no entry can hold is that of a bad address |
| Ppgtt.PageTables.Unmap | kernel/PageTables.cpp:278-307 | exactly the pages of the range go back to scratch; it fails exactly outside the address space; no table comes or goes |
| Ppgtt.PageTables.TablesKept | kernel/PageTables.cpp:155-241 | tables keep their place in the table list, and the entries of the three scratch tables their values |
| Ppgtt.PageTables.Flush | kernel/PageTables.cpp:309-323 | afterwards memory holds every entry: the skip on a clean flag loses nothing |
| Ppgtt.PageTables.GpuSees | kernel/PageTables.cpp:309-323 | after a flush the GPU's walk of memory, to read or to write, gets at every mapped page to the page of the flat map |
| Gtt.EntryReads | kernel/GlobalGTT.cpp:286-289 | a global entry for a usable page leads back to it, is present, bit 0, and says nothing else |
| Gtt.PageBitMoves | kernel/GlobalGTT.cpp:335-342 | setting or clearing a page's bit leaves the other seven of its byte |
| Gtt.PutKeeps | kernel/GlobalGTT.cpp:175-207 | a run put where all is free cannot meet a run that is bound, and leaves its pages in place |
| Gtt.TakeKeeps | kernel/GlobalGTT.cpp:210-235 | taking a run back leaves every disjoint one bound |
| Gtt.PutTake | kernel/GlobalGTT.cpp:175-235 | binding and unbinding again is as if nothing had happened |
| Gtt.NoAnswer | kernel/GlobalGTT.cpp:260-298 | a chunk whose lookup fails, runs short or has a page no entry can hold means no page list answers for the area |
| Gtt.GlobalGTT.SetUsed | kernel/GlobalGTT.cpp:335-342 | exactly the one page's bit changes |
| Gtt.GlobalGTT.Allocate | kernel/GlobalGTT.cpp:238-257 | the lowest free run, now marked used; no memory exactly when there is no run |
| Gtt.GlobalGTT.MapArea | kernel/GlobalGTT.cpp:260-298 | the run's entries are the area's pages in order; it fails exactly when no usable page list exists; nothing outside the run is written |
| Gtt.GlobalGTT.Init | kernel/GlobalGTT.cpp:61-150 | succeeds exactly when the table fits its half of the register window, something is left over, and scratch page and bitmap can be had; then the first 256 MiB at most of what is left are managed, every page of them free and on the given scratch page, and no other entry is written; otherwise nothing changed at all |
| Gtt.GlobalGTT.Lookup | kernel/GlobalGTT.cpp:153-172 | the address of a bound page resolves to the page it is bound to |
| Gtt.GlobalGTT.Bind | kernel/GlobalGTT.cpp:175-207 | the lowest free run gets the area's pages; it fails only when there is no run or no usable page list, and leaves table and bitmap as they were |
| Gtt.GlobalGTT.Unbind | kernel/GlobalGTT.cpp:210-235 | succeeds exactly for a managed range that is all in use, which is then free and on scratch |
| Aperture.BindKeeps | kernel/GlobalGTT.cpp:175-207 | one more bind by anybody: the new run meets no other, every run keeps its pages |
| Aperture.UnbindKeeps | kernel/GlobalGTT.cpp:210-235 | one unbind by anybody: every other run keeps its pages |
| Aperture.RunsStayApart | kernel/GlobalGTT.cpp:61-257 | over any sequence of binds and unbinds by any owners all runs are disjoint, each holds its own pages, and a page in no run is free |
| Aperture.OthersStay | kernel/GlobalGTT.cpp:175-235 | a run stays where it is, with its pages, until it is unbound, whatever the others do |
| Aperture.AllGivenBack | kernel/GlobalGTT.cpp:175-235 | when every run has been given back the table is as Init left it |
| Buffers.BoundIsTrue | kernel/BufferObject.cpp:35-51 | what a bind wrote for an area is the area's own pages |
| Buffers.RunsApart | kernel/BufferObject.cpp:35-65 | runs of buffers that share no memory cannot overlap |
| Buffers.BufferObject.Init | kernel/BufferObject.cpp:20-33 | exactly the whole pages the memory manager gives, which nobody holds, or nothing when it gives none |
| Buffers.BufferObject.Bind | kernel/BufferObject.cpp:35-51 | the lowest free run holds the buffer's pages in order; busy when bound; otherwise it fails only when there is no run or the kernel does not show the table the whole buffer, and changes neither buffer nor table |
| Buffers.BufferObject.Unbind | kernel/BufferObject.cpp:53-65 | never fails on a pinned buffer, and frees exactly its run |
| ClientSafety.FailedBind | kernel/RenderClient.cpp:686-697 | with no clash, mapping part of a range and unmapping all of it gives back the page map there was |
| ClientSafety.UnmapKeeps | kernel/RenderClient.cpp:588-603 | unmapping a bound buffer never fails in a reachable state, and takes out its pages only |
| ClientSafety.CloseKeeps | kernel/RenderClient.cpp:365-393 | a close that finds its buffer always goes through, so none gives up halfway |
| ClientSafety.CreateKeeps | kernel/RenderClient.cpp:328-364 | budgets, slots and handles stay right when a buffer is made, or not made at any of its steps |
| ClientSafety.BindVirtKeeps | kernel/RenderClient.cpp:667-699 | a virtual bind keeps the invariant; when it fails, only page tables it made remain of it |
| ClientSafety.StepKeeps | kernel/RenderClient.cpp:306-827 | no ioctl with any outcome breaks the invariant: disjoint bindings, a page map that is exactly those bindings, budgets that are the sums, fresh handles, no buffer bound both ways |
| ClientSafety.RunKeeps | kernel/RenderClient.cpp:306-827 | so every state of every run of ioctls has it |
| ClientRuns.EveryAddress | kernel/RenderClient.cpp:667-711 | every page of a reachable client's address space leads to the right page of the one buffer bound there, or is not mapped |
| ClientRuns.ReachesOnlyLive | kernel/RenderClient.cpp:365-393 | every page the GPU can reach is that of an open, bound buffer |
| ClientRuns.ClosedUnreachable | kernel/RenderClient.cpp:365-393 | after a close no address leads to any page of the closed buffer |
| ClientRuns.BindAllOrNothing | kernel/RenderClient.cpp:667-699 | a failed bind changes no translation; a successful one adds the buffer at its address and nothing else |
| ClientRuns.SubmitReaches | kernel/RenderClient.cpp:773-816 | past the checks every named buffer is bound, and every byte of the batch leads to the batch buffer's memory |
| ClientRuns.FaultStep | kernel/RenderClient.cpp:313-316 | a client becomes faulted exactly by a submission the engine was given and that did not come back |
| ClientRuns.FaultIsForever | kernel/RenderClient.cpp:313-316 | a faulted client never changes again, and all but the two reporting requests fail |
| ClientRuns.QuarantineInRuns | kernel/RenderClient.cpp:815-820 | a timeout at any point of a run is the last thing that happens to the client: to the end it holds exactly what it held when the GPU got the batch, and its destructor gives nothing back |
| ClientRuns.GivenBack | kernel/RenderClient.cpp:218-250 | at the end of any run the destructor gives back nothing if some submission timed out, and all buffers, tables and contexts if none did |
| ClientRuns.NothingPulledAway | kernel/RenderClient.cpp:234-248 | every page the lost batch could reach, every page table and every context stays the client's for good |
| ClientRuns.HandlesNeverReused | kernel/RenderClient.cpp:328-364 | no run gives out a handle twice: each new one is above all before |
| ClientRuns.FencesCount | kernel/RenderClient.cpp:815-823 | the fence counter is the number of submissions that came back |
| ClientRuns.WaitableFences | kernel/RenderClient.cpp:763-772 | waiting works for exactly the fences those submissions returned |
| ClientRuns.StepMemory | kernel/RenderClient.cpp:306-827 | no ioctl gives a client buffer memory but what a create was given |
| ClientEffects.CreateAccepts | kernel/RenderClient.cpp:328-364 | a buffer is made exactly for 1 byte to 64 MiB, with the client's 1 GiB, its 256 places and the handles not used up |
| ClientEffects.CreateGives | kernel/RenderClient.cpp:328-364 | the new handle, unknown before, stands for that many whole pages bound nowhere; every other handle stands for what it did |
| ClientEffects.CloseTakes | kernel/RenderClient.cpp:365-393 | succeeds exactly for a known handle, which is unknown from then on; no other handle changes |
| ClientEffects.BindGttAccepts | kernel/RenderClient.cpp:394-439 | a buffer is pinned exactly when it is in neither address space and the client's 64 MiB of the global table have room |
| ClientEffects.BindGttGives | kernel/RenderClient.cpp:394-439 | the named buffer has the run's address and its size is on the budget; no other handle changes |
| ClientEffects.UnbindGttTakes | kernel/RenderClient.cpp:440-458 | unpins exactly the named buffer and gives exactly its size back to the budget |
| ClientEffects.BindVirtAccepts | kernel/RenderClient.cpp:667-699 | a virtual bind goes in exactly at an aligned address up to 2^47, not zero, where no page is mapped, of a buffer in neither address space; or it was there already |
| ClientEffects.UnbindVirtTakes | kernel/RenderClient.cpp:700-711 | takes exactly the named buffer's pages out of the address space |
| ClientEffects.NewContextAccepts | kernel/RenderClient.cpp:622-649 | a context is made exactly while one of the 16 places is free and ids are left |
| ClientEffects.NewContextGives | kernel/RenderClient.cpp:622-649 | a new context has an id no context of the client has, and all others keep theirs |
| ClientEffects.DropContextTakes | kernel/RenderClient.cpp:650-666 | succeeds exactly for a known context, whose id is unknown from then on; no other context goes |
| ClientEffects.SubmitAccepts | kernel/RenderClient.cpp:773-816 | a submission gets to the engine exactly when its context is known, it names 1 to 256 buffers, each there, bound and named once, and the batch lies inside one of them, eight bytes aligned |
| ClientEffects.WaitAccepts | kernel/RenderClient.cpp:763-772 | a wait changes nothing and works exactly for fences that have been returned, for ten seconds at most |
| Clients.RenderClient.constructor | kernel/RenderClient.cpp:161-216 | a valid client in the state machine's first state |
| Clients.RenderClient.Find | kernel/RenderClient.cpp:262-273 | the first slot with the handle, or none |
| Clients.RenderClient.OneContext | kernel/RenderClient.cpp:622-649 | in every valid client no two contexts have the same id |
| Clients.RenderClient.CreateBuffer | kernel/RenderClient.cpp:328-364 | one step of the state machine, with memory neither this client nor anybody else has; no failure the memory manager and the copies do not have |
| Clients.RenderClient.CloseBuffer | kernel/RenderClient.cpp:365-393 | one step of the state machine; foreign runs of the global table stay |
| Clients.RenderClient.BindBuffer | kernel/RenderClient.cpp:394-439 | one step of the state machine; whatever fails after the pin takes it out again, and foreign runs stay; a buffer the table has room for, and is shown, gets its run |
| Clients.RenderClient.UnbindBuffer | kernel/RenderClient.cpp:440-458 | one step of the state machine; giving back a run never fails |
| Clients.RenderClient.UnmapSlot | kernel/RenderClient.cpp:588-603 | the tables and the slot move as the state machine says |
| Clients.RenderClient.CreateContext | kernel/RenderClient.cpp:622-649 | one step of the state machine; the new context runs against this client's tables, on the shared engine |
| Clients.RenderClient.DestroyContext | kernel/RenderClient.cpp:650-666 | one step of the state machine |
| Clients.RenderClient.BindVirtual | kernel/RenderClient.cpp:667-699 | one step of the state machine, with the page tables moving along; a buffer they are shown is mapped, unless a table cannot be had |
| Clients.RenderClient.MapBuffer | kernel/RenderClient.cpp:692-697 | the map with all of the buffer's pages, or what mapping some and unmapping the range leaves |
| Clients.RenderClient.UnbindVirtual | kernel/RenderClient.cpp:700-711 | one step of the state machine |
| Clients.RenderClient.CheckObjects | kernel/RenderClient.cpp:797-810 | true exactly when every named buffer exists, is bound, is named once, and the batch is among them |
| Clients.RenderClient.SubmitObjects | kernel/RenderClient.cpp:773-824 | one step of the state machine; past the checks the port is written whenever the engine goes and wakes up, for this batch and by the context with the requested id; every other context of the client is unchanged |
| Clients.RenderClient.NativeIoctl | kernel/RenderClient.cpp:605-827 | one step of the state machine, the native state being made on first use |
| Clients.RenderClient.Ioctl | kernel/RenderClient.cpp:306-586 | every request moves objects and state machine together and keeps both valid, and nothing fails but by the client's own state or by what the rest of the system answers; the port is written at most once, for the request's batch and by the context it names, and no other context changes; a batch the GPU was given and did not answer faults the client; no foreign run of the table moves, and a given-up engine stays so |
| Clients.RenderClient.BatchFinds | kernel/RenderClient.cpp:813-816 | whatever the GPU had cached, when it starts the batch it finds every byte of it in the batch buffer's memory |
| Clients.RenderClient.Destroy | kernel/RenderClient.cpp:218-250 | gives back exactly all buffers, tables and contexts, and every run, of an unfaulted client, and nothing of a faulted one |
| Clients.RenderClient.StaysValid | kernel/RenderClient.cpp:161-216 | a client nobody touches stays valid through whatever another does to what they share |
| Devices.Device.Open | kernel/device.cpp:326-386 | a new client has nothing in common with the others, which stay as they were |
| Devices.Device.Ioctl | kernel/device.cpp:413-420 | one client takes one step, which fails only as that client's ioctl may; every client stays valid and apart, and no other changes |
| Devices.Device.Free | kernel/device.cpp:396-411 | the client goes with its memory given back or quarantined; nobody else notices |
| Commands.ParseEncode | kernel/RenderEngine.cpp:696-763 | what is encoded into the ring is what the hardware's length fields parse |
| Commands.ParseBlock | kernel/RenderEngine.cpp:695-763 | padding and a block parse as no operations, the program, and no operations |
| Commands.ProgramRunsBatch | kernel/RenderEngine.cpp:710-760 | as the hardware reads its commands the program starts one batch at the requested address, on the render engine with the workarounds in force and nothing stale cached, then stores the number to the fence slot, once, with everything the batch has drawn written back, and writes no other memory but the eight bytes behind the slot |
| Commands.WorkaroundsWork | kernel/RenderEngine.cpp:247-272 | whatever was restored into the registers, the masked loads set and clear exactly the intended bits of the intended registers |
| Commands.PaddedRuns | kernel/RenderEngine.cpp:695-763 | any padding before and after changes none of that |
| Commands.ProgramLeaves | kernel/RenderEngine.cpp:710-760 | however padded, it leaves the sequence number in the fence slot |
| StateLayout.WriteStateLayout | kernel/RenderEngine.cpp:139-172 | for any list of skips and loads encoded as bytes, the image gets exactly the intended headers and register words, and nothing else is written |
| StateLayout.LoadAt | kernel/RenderEngine.cpp:39-50 | each register of each load has its value dword right behind it |
| StateLayout.HeaderMeans | kernel/RenderEngine.cpp:150-159 | a header is what the hardware takes for a register load of that many pairs, posted where the layout says |
| StateLayout.ShippedLayouts | kernel/RenderEngine.cpp:26-122 | both shipped layouts have every value the driver fills in at its index, behind the right register |
| Engine.BlockAhead | kernel/RenderEngine.cpp:695-706 | between the old tail and the new one, round the end of the ring, lies the padding and the block |
| Engine.RoomForTwo | kernel/RenderEngine.cpp:695-706 | every block is seen from every position exactly when the ring has room for two |
| Engine.BatchTranslates | kernel/RenderEngine.cpp:717-733 | a batch that starts after the drop goes by the tables in memory, whatever was cached before |
| Engine.RenderEngine.constructor | kernel/RenderEngine.cpp:442-449 | a valid context whose image names its own page tables and its own ring, with everything the driver fills in |
| Engine.RenderEngine.InitContext | kernel/RenderEngine.cpp:319-348 | the values go between the decoded register words: the tables' root, the ring's start and size, an empty ring, and a first restore that is inhibited |
| Engine.RenderEngine.AppendRenderWorkarounds | kernel/RenderEngine.cpp:247-272 | at most thirty dwords, which encode the workarounds of this device and revision |
| Engine.RenderEngine.EmitProgram | kernel/RenderEngine.cpp:710-763 | exactly one block of the ring is written: the program that runs the batch, and no operations |
| Engine.RenderEngine.MakeRoom | kernel/RenderEngine.cpp:695-706 | the block will fit, and what it skips is no operations in memory |
| Engine.RenderEngine.FillRing | kernel/RenderEngine.cpp:695-768 | from the old tail to the new one memory parses as the program with nothing but padding around it |
| Engine.RenderEngine.DescriptorFields | kernel/RenderEngine.cpp:771-777 | the descriptor names the context's image and id, valid, with four level tables, and restored whether or not the engine has it already |
| Engine.RenderEngine.WaitSeqno | kernel/RenderEngine.cpp:544-566 | success exactly when the fence is there at the last look; the GPU may do anything it can meanwhile |
| Engine.RenderEngine.WaitContextSaved | kernel/RenderEngine.cpp:451-484 | success exactly when the GPU has reported this context, active to idle and complete, at the last look; then it has been saved |
| Engine.RenderEngine.Launch | kernel/RenderEngine.cpp:708-791 | the port is given this context's program, which runs the batch, against its own flushed tables, with the next number; restored from its image in all but the first submission |
| Engine.RenderEngine.Submit | kernel/RenderEngine.cpp:643-829 | the port is written exactly when the request is well formed, nothing is faulted, a number is left and the engine wakes up, and then once, with everything before finished; success means run, saved, and the next fence; a timeout means fence or report are not there, and faults context and engine |
| Engine.RenderEngine.SubmitFollowed | kernel/RenderEngine.cpp:643-829 | every Submit is a run of the interleaving machine, from a matching state to a matching one |
| Execlist.StepKeeps | kernel/RenderEngine.cpp:643-829 | no step of any thread and none of the GPU breaks the protocol's invariant |
| Execlist.RunKeeps | kernel/RenderEngine.cpp:643-829 | so it holds over all interleavings of any number of threads and contexts |
| Execlist.LaunchesAlone | kernel/RenderEngine.cpp:664-670 | the port is only written when all earlier work is finished and saved, with a number above every earlier one |
| Execlist.FencesIncrease | kernel/RenderEngine.cpp:660-670 | the fences a context returns strictly increase and never wrap; an unfaulted context's fence page holds the last |
| Execlist.WorkIsAlive | kernel/RenderEngine.cpp:643-829 | the GPU never has work of a context that has been destroyed |
| Execlist.OneInside | kernel/RenderEngine.cpp:654 | at most one thread is inside Submit's locked part |
| Execlist.FaultStopsPort | kernel/RenderEngine.cpp:816-821 | after a timeout the port is never written again |
| Execlist.WayLeads | kernel/RenderEngine.cpp:643-829 | where one submission that gets to the port leads, for everything the GPU may have done of it |
| WinsysModel.KernelBind | mesa/overlay/compat/IntelWinsys.cpp:478-484 | a bind of an unbound buffer into a range no record meets is never refused as busy, and records and slots go on agreeing |
| WinsysModel.KernelUnbind | mesa/overlay/compat/IntelWinsys.cpp:451-460 | an unbind fails only for reasons outside it, and records and slots go on agreeing |
| WinsysModel.KernelClose | mesa/overlay/compat/IntelWinsys.cpp:98-103 | a close works whenever the request gets through to an unfaulted client |
| WinsysModel.KernelCreate | mesa/overlay/compat/IntelWinsys.cpp:207-237 | a new buffer's record agrees with its slot |
| WinsysModel.BindingsApart | mesa/overlay/compat/IntelWinsys.cpp:442-449 | the bindings a process has never overlap, so one that stays put needs no sweep |
| WinsysModel.BoundWalks | mesa/overlay/compat/IntelWinsys.cpp:464-486 | every page of a binding leads to that page of the buffer |
| Winsys.CacheSize | mesa/overlay/compat/IntelWinsys.cpp:82-107 | every buffer given back makes the cache smaller by exactly one |
| Winsys.Newest | mesa/overlay/compat/IntelWinsys.cpp:269-288 | the newest buffer of the cache is given back only with all the others |
| Winsys.EverythingHome | mesa/overlay/compat/IntelWinsys.cpp:464-486 | when the kernel finds every named buffer bound, each is where it was asked to be, for the adapter, the kernel and the GPU |
| Winsys.Adapter.Reclaim | mesa/overlay/compat/IntelWinsys.cpp:82-107 | gives back only cached buffers, oldest first, and stops only with both quotas met, an empty cache or a close the kernel has refused |
| Winsys.Adapter.Madvise | mesa/overlay/compat/IntelWinsys.cpp:269-288 | at most 64 buffers stay cached, the buffer just given up is not among those given back, and every process keeps within the bound |
| Winsys.Adapter.Create | mesa/overlay/compat/IntelWinsys.cpp:207-237 | asks the kernel, and after a refusal gives back cached buffers, oldest first, 16 of them and as many bytes as were asked for, no more than that takes and no fewer unless no more can be had; then, if there were any, it asks once more |
| Winsys.Adapter.Close | mesa/overlay/compat/IntelWinsys.cpp:238-249 | a purged buffer costs no request and its record goes; for any other the kernel is asked once, and the record goes exactly when it agrees |
| Winsys.Adapter.EvictAll | mesa/overlay/compat/IntelWinsys.cpp:442-462 | afterwards nothing is bound where a moving object is to go; only bindings have been taken out, and only such as lie where an object is to go |
| Winsys.Adapter.BindAll | mesa/overlay/compat/IntelWinsys.cpp:464-486 | every object ends at its place; asked for a layout, no request fails of the adapter's own making |
| Winsys.Adapter.Execbuffer | mesa/overlay/compat/IntelWinsys.cpp:395-498 | for any earlier bindings and any layout no bind or unbind is refused as busy; it succeeds only for a layout, and then every page of every object is where it was asked to be; no binding moves but of an object or out of an object's way; the only submission comes last, for the first or the last object as the caller says, and runs at that object's address plus the start |
| HswPll.CandidateBounds | display/pll.cpp:776-812 | the loops search exactly the even post dividers 2 to 64 with every pair of dividers that keeps the reference and the VCO in bounds |
| HswPll.BudgetOf | display/pll.cpp:620-692 | which clocks have which tolerance, 1000 ppm for all the rest |
| HswPll.CrossBudget | display/pll.cpp:716-731 | the integer comparison is whether the deviation is within the budget |
| HswPll.CrossDeviation | display/pll.cpp:731-737 | the cross products compare the real deviations |
| HswPll.CrossMerit | display/pll.cpp:743-750 | the cross products compare n2 over r2 squared |
| HswPll.UpdateRnp | display/pll.cpp:694-752 | keeps the better of two candidates, with every product in 64 bits |
| HswPll.Calculate | display/pll.cpp:754-817 | outside the 540 MHz case the answer meets those bounds, no dividers that do are better, and none before it as good |
| HswPll.Optimal | display/pll.cpp:754-817 | so the answer is in budget whenever one can be and then of most merit, otherwise of least deviation |
| SklPll.RoundedWindow | display/pll.cpp:830-867 | comparing the rounded deviation is the exact +1%/-6% window |
| SklPll.TryDivider | display/pll.cpp:830-867 | the option replaces the context exactly when it fits and is strictly closer, with no overflow |
| SklPll.Search | display/pll.cpp:1029-1049 | nothing when no option fits, else the least deviation and the first of equals, early exit included |
| SklPll.GetMultipliers | display/pll.cpp:869-916 | the three counters multiply to the divider exactly when it comes apart at all, the middle one only with the last at two |
| SklPll.EvenComplete | display/pll.cpp:1012-1017 | the even list is all even dividers from 4 to under 100 that come apart |
| SklPll.OddComplete | display/pll.cpp:1012-1017 | the odd list is all odd dividers that come apart |
| SklPll.Populate | display/pll.cpp:924-999 | the codes stand for the counters, and integer and fraction for the ratio |
| SklPll.AccuracyOfRatio | display/pll.cpp:986-994 | below 400 MHz the ratio is accurate exactly for a reference of whole MHz |
| SklPll.RatioAt19200 | display/pll.cpp:986-994 | at 19.2 MHz it is not |
| SklPll.OnlyFive | display/pll.cpp:943-958 | the divider is five exactly for clocks from 323.2 MHz up to, but not including, 387.84 MHz |
| SklPll.Calculate | display/pll.cpp:1003-1076 | succeeds exactly when some listed divider fits, prefers every even one to the odd ones, then the least deviation |
| Benaphore.RunKeeps | headers/lock.h:38-55 | over any interleaving: the count is holders, waiters and failed acquires, and there is one chance to get in exactly while it is above zero |
| Benaphore.MutualExclusion | headers/lock.h:38-55 | never two threads inside, whatever acquires fail |
| Benaphore.NoLostWakeup | headers/lock.h:38-55 | while anyone waits there is exactly one holder, token or pending release, and a step to take |
| Benaphore.IdleToken | headers/lock.h:38-55 | with nobody inside or waiting the count is zero exactly when no acquire has failed; idle tokens come only from failed acquires |
| Benaphore.LeftBehind | headers/lock.h:38-46 | a run with a failed acquire that leaves the count at one and a token behind |
| Benaphore.FailureSticks | headers/lock.h:38-46 | after a failed acquire the count never returns to zero |
| Benaphore.Lock.AcquireFirst | headers/lock.h:41 | the atomic add is that step of the protocol, and tells whether to wait |
| Benaphore.Lock.ReleaseFirst | headers/lock.h:51 | the atomic add is that step, and whoever waits will be woken |
| LockOrder.OperationsRise | kernel/RenderClient.cpp:93-158 | every operation of the driver takes its locks in rising rank |
| LockOrder.RunKeeps | kernel/RenderClient.cpp:306-318 | over any run every thread's locks are nested in rising rank, and no lock has two holders |
| LockOrder.OneClientAtATime | kernel/RenderClient.cpp:85-156 | no thread ever holds two clients' locks |
| LockOrder.NoWaitCycle | kernel/RenderClient.cpp:85-156 | no threads wait for each other in a circle |
| LockOrder.NoDeadlock | kernel/RenderClient.cpp:85-156 | while any thread has something to do, some thread can |

## Findings

Four things one would expect of the code do not hold of it. Each has its exact condition above.

- Scratch page (kernel/PageTables.cpp:100-112, `AddressSpace.ScratchEntry`, `AddressSpace.ScratchOutOfReach`): the global
  table checks that an entry can hold its scratch page's address (kernel/GlobalGTT.cpp:103-106), the page tables do not.
  An address nothing is mapped at leads to the scratch page exactly when that lies below 512 GiB; above, to whatever page
  the low bits name.
- Ring size (kernel/RenderEngine.cpp:695-706, `Engine.RoomForTwo`): a ring with room for fewer than two command blocks
  loses submissions, because the new tail comes out where the head is and the GPU takes the ring for empty. The shipped
  ring is 16 KiB, so this is latent.
- Reference clock (display/pll.cpp:986-994, `SklPll.AccuracyOfRatio`, `SklPll.RatioAt19200`): the DCO ratio is within
  two steps of the true one exactly when the reference is a whole number of MHz. For 19.2 MHz it is not.
- Failed acquires (headers/lock.h:38-46, `Benaphore.LeftBehind`, `Benaphore.IdleToken`): when `acquire_sem` fails, the
  count is not taken back. Mutual exclusion survives, but from then on the count never returns to zero and every
  acquire goes through the semaphore.

Where code and documentation disagree the model follows the code: `Map` overwrites pages that are mapped already
(kernel/PageTables.h:31-32 says it rejects them), and a client may hold 1 GiB of buffers (README.md:229 says 256 MiB).

## Left out

- Ppgtt.PageTables.Init: states validity only for an object in which no earlier Init left tables and which nobody has flushed yet; a retry after a failed Init would leave the scratch tables of the first try in their place, and the driver never retries.
- The page tables' 512 separately allocated pages are rows of one two-dimensional array; that no two of them share memory is given.
- A context id that has been used is not used again in Execlist. In the driver a new context may get the place of a destroyed one in the global table.
- The global table runs of a context's own four buffers: their pages are held and given back with the context, their addresses are arbitrary; the slice power setting is not written into the image.
- The memory of page tables and contexts is accounted for each client, but only buffer memory is shown disjoint between clients.
- kSubmit, kWaitFence, kReadRegister, kFramebuffer, kDisplayStatus, kBufferLayout, kGetTopology and kCacheBuffer: register reads, tiling notes and the older submission path; kGpuActivity appears only in the order of locks.
- The legacy engines' page tables on a buffer bind or close: only whether they fail, and whether they were faulted at the end.
- The lengths of the waits: a wait takes at least one look at the context's report, and gives up after any number of looks.
- The submission timestamps behind GpuTicks and TotalGpuTicks.
- Concurrency inside one client: its lock makes ioctls one after the other, and the lock order is proved on its own in LockOrder.
- Fence arrays and syncobjs of EXECBUFFER2, and the remaining DRM requests of the adapter.
- Wrap-around of the adapter's purge clock and of a client's completed counter at 64 bits, and of the benaphore's counter at 32.
- get_memory_map entries past the end of its answer count as absent.
- GlobalGTT::Init's check for a missing register window, and the meaning it gives to the cacheability bits of an entry.
- Negative clocks, and reference clocks below 1000, for which the divider searches divide by zero.
- The encoding of the divider five in the SKL parameters, which the code only logs: it is None here.
- The float-based and Tiger Lake divider searches, display port and panel programming, and the user-space renderers.
