# Verification of the MCUXpresso components

A Dafny model of the components with the most state and arithmetic, with proofs of what they promise:

- **the light memory manager**, an allocator whose block chain and free list live in one byte range;
- **the pool memory manager**, with pools in order of block size and tightest-fit search;
- **the software CRC**, for 1 to 4 octets, any polynomial, reflection and byte order;
- **the generic doubly linked list**, and over it **the bare-metal task list and dispatcher**;
- **the bare-metal message queue**;
- **the ring buffer log backend** and **the asynchronous log**;
- **I3C address slots** and dynamic address assignment.

Code that changes state is modelled by classes whose methods follow the source statement by statement, over byte
arrays, packed words, linked objects or node arrays.  Each method is proved against a specification of the whole new
state; theorems about every run and every input are lemmas about that specification.

| files | contents |
|---|---|
| `ByteMemory.dfy`, `Sequences.dfy`, `BitWords.dfy` | bytes, sequences and machine words, used by the others |
| `LightHeapSpec.dfy` | what a heap is, placement, freeing, accounting |
| `LightHeapLinks.dfy` | how the two linked structures are stored in header fields |
| `LightHeap.dfy` | the allocator itself, on a byte array |
| `LightHeapTheorems.dfy`, `LightHeapRuns.dfy`, `LightHeapSteps.dfy` | exact conditions, conservation; whole runs; the calls as steps of runs |
| `SoftwareCrc.dfy`, `CrcAlgebra.dfy`, `CrcDivision.dfy` | the computation; linearity, bursts, residue; polynomial division |
| `GenericList.dfy`, `TaskListSpec.dfy`, `TaskList.dfy` | the list; the scheduler as a value; the scheduler as it runs |
| `MessageQueue.dfy`, `LogRingBuffer.dfy`, `AsyncLog.dfy` | the queue and the two log stores |
| `PoolManager.dfy` | the pools |
| `I3cSlots.dfy`, `I3cAssignment.dfy`, `I3cBus.dfy` | packed slots; assignment as a function; the bus |

`dafny verify dfyconfig.toml` checks everything.

## Builds and hypotheses

Default builds: the light manager with `cMemManagerLightReuseFreeBlocks == 1`, cleanup on and guards off; the list with
`GENERIC_LIST_LIGHT == 0`, with and without the check for duplicates; the bare-metal layer without a timer; the log in
overwrite mode.  Each call is one atomic step.

- Light heap: `memHeap` and the size of the heap are word aligned.  Lines 525-534 read `memHeapEnd` as the last usable
  byte and line 875 as the address past it; both readings are covered (`limit == end + 1` or `limit == end`).  A call
  requires only that it does not get to an unsafe carve (`RequestSafe`); `CarveSafeExactly` says when that is.
- Message queue: count and size are `Usable`, which `UsableExactly` shows to be necessary and sufficient.  A get that has
  to wait is called by a task, since it dereferences the current one.
- Ring buffer log: the buffer has at most 2^31 bytes, so that the sums of positions do not wrap.
- Pools: memory is zero when a pool is added, and pools do not overlap.  The pool that serves a request clears no more
  than the block (`ClearsInside`; `ClearedWithinBlockExactly` says when that is so: always for blocks of 4 bytes and
  up).  The four bytes behind a pool are arbitrary.  At least one pool has been added before a request for more than 0
  bytes, since the search dereferences the first pool.
- List: any element may be added, listed or not; the task list's clients (`Allowed`) create only tasks not listed.
- Tasks: `OSA_TaskSetPriority` is called while some other task is listed; `SetPriorityWalk` shows that it dereferences a
  null pointer exactly when there is none.
  What task bodies do comes from an arbitrary script of signals, creations, removals and changes of priority; what a
  client may not do (`Allowed`) is skipped in it.  There is no interrupt inside a scan.
- I3C: what the hardware reports is an arbitrary sequence of rounds, in which every byte goes inside the receive buffer;
  `InBoundsExactly` shows that this means at most eight bytes between answers.  Address 0 is not free, as on every new
  bus; marking a device at address 0 is skipped, so the procedure would otherwise assign it for ever.

## What the code does not do

Found false of the code, each with an exact condition or a concrete input:

- A request of 2^32 - 16 bytes or more wraps in the tail test and can be granted (`TailTestAgrees`, `HugeRequestPasses`).
- When `memHeapEnd` is the word-aligned address past the heap, a request of 1 modulo 4 bytes that fits the tail exactly
  puts the next header 4 bytes past the end (`CarveSafeExactly`, `OddRequestOverruns`).
- `MEM_BufferGetSize` truncates to 16 bits, so reallocating a block of 65536 bytes or more can lose content
  (`ReallocKeepsContent`; `LargeReallocation` is a sequence of calls that does).
- The free size is -1, and wraps, for a full heap whose end is given as its last byte (`FreeBytesRange`,
  `FullHeapFreeBytes`).
- Freeing a block just allocated restores the heap only if it came from the tail or a live block lies above it
  (`FreeUndoesAllocate`, `FreeDoesNotRestore`).
- Message queue offsets are those of a wrong slot, or of none, when count times size exceeds 65536, but for one message
  of a multiple of 65536 bytes (`UsableExactly`, `LargeQueueLeavesSlots`); a product of exactly 65536 works.
- Allocating from a pool clears as many bytes as bytes 2 and 3 behind the header say; blocks of 1 or 3 bytes before
  a taken block lose other blocks' bytes, and what a last block of fewer than 4 bytes loses depends on the bytes behind
  the pool (`ClearedWithinBlockExactly`, `ThreeByteBlockOverruns`).
- In the default build, which does not check for duplicates, adding an element that is listed already leaves links that
  are those of no list: a circle, or fewer elements than the size says.  The list is one afterwards exactly when the
  element was not listed (`AddTail`, `AddHead`, `AddBefore`), and creating a listed task again spoils the task list in
  any case (`TaskCreateListed`).  Putting the only element before itself makes it its own successor, so that a walk
  such as the dispatcher's never ends (`ListedTwice`).
- Creating a listed task again is refused by a build that checks for duplicates, but its priority has already been
  overwritten; the list is still sorted only if that fits (`RefusedCreateSorted`; `RefusedCreateUnsorts` is a
  case where it does not).
- Setting the priority of a task when no other one is listed dereferences a null pointer (`SetPriorityWalk`).
- `LOG_Init` casts the number of nodes to 8 bits, so of 256 nodes or more only some are ever used, of 256 a single one
  (`AllStrungExactly`, `ManyNodesLost`).
- Bytes that arrive without an answer pile up in the receive buffer of the I3C procedure, and a ninth is stored outside
  it (`InBoundsExactly`, `NinthByteOutside`).
- The header of the CRC adapter gives 0x103 for the polynomial that it calls x^8 + x^2 + x + 1; the code shifts
  the ninth bit out and uses x^8 + x + 1 (`ConfiguredGenerator`, `Crc8Generator`).

## Model

| member | source | states |
|---|---|---|
| LightHeap.Heap.constructor | components/mem_manager/fsl_component_mem_manager_light.c:404-441 | a heap before any call already satisfies the invariant, with one free block |
| LightHeap.Heap.Init | components/mem_manager/fsl_component_mem_manager_light.c:404-441 | writes the header that represents the initial layout; an initialized heap keeps its layout, and no payload changes |
| LightHeap.Heap.TakeFree | components/mem_manager/fsl_component_mem_manager_light.c:493-516 | unlinking a free block leaves both structures representing the layout with that block live, only headers change, and the source's assert on the head's next free block holds |
| LightHeap.Heap.CarveTail | components/mem_manager/fsl_component_mem_manager_light.c:536-577 | carving extends the chain by the rounded-up new tail and keeps both linked structures; only headers change |
| LightHeap.Heap.CarveLinks | components/mem_manager/fsl_component_mem_manager_light.c:536-571 | the stores of a carve, on the old tail, its predecessor and the new header, are those of `CarvedFields` |
| LightHeap.Heap.AtTail | components/mem_manager/fsl_component_mem_manager_light.c:523-611 | at the end of the search the block placed is the one the policy demands, or null |
| LightHeap.Heap.Place | components/mem_manager/fsl_component_mem_manager_light.c:467-619 | the search loop ends, dereferences only free headers, never meets a block that is its own successor, and refines the placement policy `Chosen`: lowest close fit, else the tail, else the lowest fit, else null, which changes no byte |
| LightHeap.Heap.Allocate | components/mem_manager/fsl_component_mem_manager_light.c:443-660 | keeps the global invariant; a granted request gets the block of the policy with at least n bytes, all zero; only headers and these n bytes change, so every live payload stays; null changes nothing in an initialized heap |
| LightHeap.Heap.CutBehind | components/mem_manager/fsl_component_mem_manager_light.c:324-326 | ending chain and free list at a block represents the layout cut there |
| LightHeap.Heap.CleanUp | components/mem_manager/fsl_component_mem_manager_light.c:308-332 | cuts behind the freed block exactly when no live block lies above it, and else changes nothing; both asserts before the cut hold |
| LightHeap.Heap.FindPrevious | components/mem_manager/fsl_component_mem_manager_light.c:695-770 | the walk ends at the last free block below the one freed |
| LightHeap.Heap.InsertFree | components/mem_manager/fsl_component_mem_manager_light.c:695-770 | the ordered insert links the block into the address-ordered free list at its place; only headers change |
| LightHeap.Heap.Free | components/mem_manager/fsl_component_mem_manager_light.c:695-770 | keeps the global invariant, releases exactly the given block, cleans up; only headers change; null is refused |
| LightHeap.Heap.GetSize | components/mem_manager/fsl_component_mem_manager_light.c:792-813 | the capacity modulo 65536, 0 for null |
| LightHeap.Heap.CopyPayload | components/mem_manager/fsl_component_mem_manager_light.c:846-856 | copies between payloads without harm to any header |
| LightHeap.Heap.Realloc | components/mem_manager/fsl_component_mem_manager_light.c:815-860 | size 0 frees; null allocates; a size that the truncated capacity covers changes nothing; else a new block by the policy with the truncated capacity copied, the rest of the new size zero and the old block released once, or null with the old block live and unchanged |
| LightHeap.Heap.HeapUpperLimit | components/mem_manager/fsl_component_mem_manager_light.c:785-790 | the address behind the tail's header |
| LightHeap.Heap.FreeHeapSize | components/mem_manager/fsl_component_mem_manager_light.c:862-878 | the loop ends and gives the integer free size modulo 2^32 |
| LightHeapSpec.SearchEnds | components/mem_manager/fsl_component_mem_manager_light.c:521-611 | a search that reaches the tail has seen no close fit, and what it falls back to is the policy's choice |
| LightHeapSpec.ShiftTest | components/mem_manager/fsl_component_mem_manager_light.c:490-490 | the shift test means capacity below twice the request, since capacities are even |
| LightHeapSpec.RoundUpIsNewTail | components/mem_manager/fsl_component_mem_manager_light.c:540-541 | the 32-bit rounding macro gives the integer address of the next header |
| LightHeapSpec.TailTestExact | components/mem_manager/fsl_component_mem_manager_light.c:525-534 | a safe tail test decides exactly whether request and next header fit |
| LightHeapLinks.TakeKeepsFreeLinks | components/mem_manager/fsl_component_mem_manager_light.c:498-514 | bridging a block keeps both directions of the free list correct for every remaining block |
| LightHeapLinks.CarveKeepsLinks | components/mem_manager/fsl_component_mem_manager_light.c:540-571 | the new tail's links and the old ones together are the chain and free list with the tail moved |
| LightHeapLinks.InsertKeepsLinks | components/mem_manager/fsl_component_mem_manager_light.c:695-770 | inserting keeps chain, marks and both directions of the free list |
| LightHeapLinks.PayloadsDisjoint | components/mem_manager/fsl_component_mem_manager_light.c:443-660 | an address lies in at most one live payload |
| LightHeapLinks.PayloadWriteHarmless | components/mem_manager/fsl_component_mem_manager_light.c:641-641 | writing inside a live payload leaves both linked structures as they were |
| LightHeapTheorems.TailTestAgrees | components/mem_manager/fsl_component_mem_manager_light.c:530-534 | when the 32-bit tail test agrees with the integer one, exactly |
| LightHeapTheorems.HugeRequestPasses | components/mem_manager/fsl_component_mem_manager_light.c:530-534 | a request of 0xFFFFFFF0 bytes passes the tail test of any heap |
| LightHeapTheorems.CarveSafeExactly | components/mem_manager/fsl_component_mem_manager_light.c:525-571 | when a carve stays in the heap, exactly, for both readings of `memHeapEnd` |
| LightHeapTheorems.OddRequestOverruns | components/mem_manager/fsl_component_mem_manager_light.c:534-541 | a concrete heap and request whose next header overruns the end by four bytes |
| LightHeapTheorems.PlacementUnique | components/mem_manager/fsl_component_mem_manager_light.c:480-616 | the policy determines the block |
| LightHeapTheorems.NullExactly | components/mem_manager/fsl_component_mem_manager_light.c:480-616 | null exactly when no free block and not the tail can hold the request |
| LightHeapTheorems.FreeUndoesAllocate | components/mem_manager/fsl_component_mem_manager_light.c:308-332 | when freeing restores the layout before the allocation, exactly |
| LightHeapTheorems.FreeDoesNotRestore | components/mem_manager/fsl_component_mem_manager_light.c:308-332 | a concrete heap of two free blocks that taking and freeing the lower one does not restore |
| LightHeapTheorems.FreedBecomesTail | components/mem_manager/fsl_component_mem_manager_light.c:308-332 | the freed block becomes the tail exactly when nothing above it is live; no live block is ever dropped |
| LightHeapTheorems.Conservation | components/mem_manager/fsl_component_mem_manager_light.c:862-878 | free size, live capacities and one header per block add up to `memHeapEnd` minus `memHeap`, over the integers |
| LightHeapTheorems.FreeBytesRange | components/mem_manager/fsl_component_mem_manager_light.c:862-878 | the integer free size fits 32 bits but for one exact case, where it is -1 |
| LightHeapTheorems.FullHeapFreeBytes | components/mem_manager/fsl_component_mem_manager_light.c:862-878 | a concrete full heap with -1 bytes free |
| LightHeapRuns.StepKeepsGood | components/mem_manager/fsl_component_mem_manager_light.c:404-860 | every allocation, release, reallocation and client write keeps the heap well formed |
| LightHeapRuns.RunKeepsGood | components/mem_manager/fsl_component_mem_manager_light.c:404-860 | the same for every heap that any run reaches |
| LightHeapRuns.StepKeepsPayload | components/mem_manager/fsl_component_mem_manager_light.c:467-642 | an event about another block leaves a live block's bytes and room alone |
| LightHeapRuns.RunKeepsPayload | components/mem_manager/fsl_component_mem_manager_light.c:467-642 | a live payload keeps every byte through any run that neither writes nor releases it |
| LightHeapRuns.RunPayloadsDisjoint | components/mem_manager/fsl_component_mem_manager_light.c:467-642 | in every heap of a run live payloads are disjoint from each other and from all headers, and inside the heap |
| LightHeapRuns.ClientWriteHarmless | components/mem_manager/fsl_component_mem_manager_light.c:404-770 | a client that stays in its payloads cannot damage the structures in memory |
| LightHeapRuns.ReallocKeepsContent | components/mem_manager/fsl_component_mem_manager_light.c:815-860 | when a successful reallocation keeps the common bytes, exactly |
| LightHeapRuns.LargeBlockTruncated | components/mem_manager/fsl_component_mem_manager_light.c:792-860 | every successful resizing of a block of 65540 bytes to 10 loses its fifth byte, unless that was zero |
| LightHeapSteps.AllocStep | components/mem_manager/fsl_component_mem_manager_light.c:443-660 | an allocation is the step of a run that the theorems on runs are about |
| LightHeapSteps.ReleaseStep | components/mem_manager/fsl_component_mem_manager_light.c:695-770 | so is a release |
| LightHeapSteps.ReallocStep | components/mem_manager/fsl_component_mem_manager_light.c:815-860 | so is a reallocation of a live block |
| LightHeapSteps.WriteStep | components/mem_manager/fsl_component_mem_manager_light.c:404-770 | so is a byte stored by a client in its payload, which leaves the heap valid |
| LightHeapSteps.LargeReallocation | components/mem_manager/fsl_component_mem_manager_light.c:792-860 | a sequence of calls: allocate 65540 bytes, store the fifth, resize to 10, and the byte is lost |
| SoftwareCrc.StepKeepsRegister | components/crc/fsl_adapter_software_crc.c:46-71 | the unused low bits of the register stay zero |
| SoftwareCrc.ForcingChangesNothing | components/crc/fsl_adapter_software_crc.c:63-70 | setting or clearing the lowest used bit never alters the register |
| SoftwareCrc.FeedAppend | components/crc/fsl_adapter_software_crc.c:30-72 | processing A then B is processing B from A's register |
| SoftwareCrc.ReflectByte | components/crc/fsl_adapter_software_crc.c:34-44 | the reflection loop reverses the byte |
| SoftwareCrc.FeedByte | components/crc/fsl_adapter_software_crc.c:46-71 | the bit loop feeds the byte's bits, most significant first, to the shift register |
| SoftwareCrc.ReverseWord | components/crc/fsl_adapter_software_crc.c:80-90 | the output loop reverses the word |
| SoftwareCrc.Compute | components/crc/fsl_adapter_software_crc.c:15-94 | the whole computation, in place, gives `Crc`, which `CrcIsRemainder` states bit by bit from the configuration; size 0 gives 0, leaving aside that C does not define its shifts by 32 |
| CrcAlgebra.FeedLinear | components/crc/fsl_adapter_software_crc.c:46-71 | feeding is linear over GF(2) in register and message together |
| CrcAlgebra.FeedInjective | components/crc/fsl_adapter_software_crc.c:46-71 | with an odd polynomial, different registers stay different under the same message |
| CrcAlgebra.BurstChangesRegister | components/crc/fsl_adapter_software_crc.c:30-72 | a burst no longer than the width changes the final register |
| CrcAlgebra.OutputInjective | components/crc/fsl_adapter_software_crc.c:74-90 | different registers give different results, whatever the xor-out and byte order |
| CrcAlgebra.BurstDetected | components/crc/fsl_adapter_software_crc.c:15-94 | every change within 8 * size consecutive bits changes the CRC, for every odd polynomial, seed, width and output |
| CrcAlgebra.OwnBitsCancel | components/crc/fsl_adapter_software_crc.c:46-71 | feeding a register its own bits empties it |
| CrcAlgebra.Residue | components/crc/fsl_adapter_software_crc.c:34-90 | a message followed by its plain CRC, most significant byte first, has CRC 0 |
| CrcAlgebra.ByteOrderReverses | components/crc/fsl_adapter_software_crc.c:74-90 | the LS-byte-first result is the bit reversal of the MS-byte-first one over 8 * size bits, and the bits above are 0 |
| CrcDivision.DivisionStep | components/crc/fsl_adapter_software_crc.c:46-71 | one step of the register is one step of long division |
| CrcDivision.RegisterDivides | components/crc/fsl_adapter_software_crc.c:30-72 | seed and message equal quotient times generator plus the final register |
| CrcDivision.DivisionUnique | components/crc/fsl_adapter_software_crc.c:30-72 | division by a monic generator has one quotient and one remainder |
| CrcDivision.FinalRegisterIsRemainder | components/crc/fsl_adapter_software_crc.c:17-72 | the final register, left-aligned, is the one remainder of the low w bits of the seed and of the message modulo x^w plus the low w bits of the polynomial |
| CrcDivision.MessageExactly | components/crc/fsl_adapter_software_crc.c:32-50 | the bits fed to the register are the bytes from the start byte on, each from its top bit or, with input reflection, from its bottom bit |
| CrcDivision.OutputBits | components/crc/fsl_adapter_software_crc.c:74-90 | each bit of the result, by its place in the register and the xor-out, for both byte orders |
| CrcDivision.CrcIsRemainder | components/crc/fsl_adapter_software_crc.c:15-94 | bit by bit from the configuration: the result is the remainder of seed and message modulo x^w plus the low w bits of the polynomial, plus the xor-out, in the byte order asked for, and 0 above the width |
| CrcDivision.RemainderExists | components/crc/fsl_adapter_software_crc.c:15-94 | there is such a division for every configuration and input |
| CrcDivision.ComputeRemainder | components/crc/fsl_adapter_software_crc.c:15-94 | the computation returns that remainder plus the xor-out |
| CrcDivision.ConfiguredGenerator | components/crc/fsl_adapter_software_crc.c:17-19 | the generator is x^w plus the low w bits of the configured polynomial |
| CrcDivision.Crc8Generator | components/crc/fsl_adapter_crc.h:54 | the constant 0x103 gives x^8 + x + 1, not the x^8 + x^2 + x + 1 of its comment |
| Sequences.LastAppended | components/log/fsl_component_log_backend_ringbuffer.c:63-116 | keeping the last n elements at each step is keeping the last n of everything |
| Sequences.Without | components/lists/fsl_component_generic_list.c:328-379 | the sequence that removal leaves, element by element |
| Sequences.InsertedAt | components/lists/fsl_component_generic_list.c:399-455 | the sequence that insertion leaves, element by element |
| GenericList.List.constructor | components/lists/fsl_component_generic_list.c:80-86 | an empty list satisfies the invariant |
| GenericList.List.ErrorCheck | components/lists/fsl_component_generic_list.c:32-58 | full exactly when there is a maximum and it is reached, duplicate exactly when the list is not full, the build checks and the element is listed |
| GenericList.List.CycleHoldsNothing | components/lists/fsl_component_generic_list.c:170-199 | a list whose links come back to an element within its size is the list of no sequence |
| GenericList.List.ShortHoldsNothing | components/lists/fsl_component_generic_list.c:124-152 | nor is a list whose links end before its size says |
| GenericList.List.ListedBefore | components/lists/fsl_component_generic_list.c:399-455 | wherever two listed elements stand, putting one before the other as if it were new leaves the list of no sequence |
| GenericList.List.AddTail | components/lists/fsl_component_generic_list.c:124-152 | head, tail, size, links and owner fields agree with the old sequence extended at the end, or with no sequence at all exactly when a build without the check adds a listed element; a refusal changes no field of the list, its elements or the element |
| GenericList.List.AddHead | components/lists/fsl_component_generic_list.c:170-199 | the same, extended at the front |
| GenericList.List.RemoveHead | components/lists/fsl_component_generic_list.c:216-247 | returns the first element, orphaned, and leaves the rest; null when empty |
| GenericList.List.Bypass | components/lists/fsl_component_generic_list.c:356-371 | exactly the neighbours of the element, or the ends of the list, skip it |
| GenericList.List.RemovedLinked | components/lists/fsl_component_generic_list.c:356-371 | what Bypass leaves are the links of the list without the element |
| GenericList.List.RemoveMember | components/lists/fsl_component_generic_list.c:328-379 | the list without the element at its index, which is orphaned |
| GenericList.List.AddBefore | components/lists/fsl_component_generic_list.c:399-455 | the list with the new element just before the given one, or no list exactly when a build without the check adds a listed element; a refusal changes no field of the list, its elements or the new element |
| GenericList.List.LinkBetween | components/lists/fsl_component_generic_list.c:436-448 | exactly the new element, its successor and its predecessor or the head change |
| GenericList.List.InsertedLinked | components/lists/fsl_component_generic_list.c:436-448 | what LinkBetween leaves are the links of the list with the element in it |
| GenericList.List.RemoveElement | components/lists/fsl_component_generic_list.c:328-379 | finds the list through the element; an orphan is reported |
| GenericList.List.AddPrevElement | components/lists/fsl_component_generic_list.c:399-455 | finds the list through the element; an orphan is reported and a refusal passed on, and neither changes anything; a listed new element is as for AddBefore |
| GenericList.ListedTwice | components/lists/fsl_component_generic_list.c:399-455 | a sequence of calls without the check: an element added and then put before itself is its own successor, in the list of no sequence |
| GenericList.ListsDisjoint | components/lists/fsl_component_generic_list.c:124-453 | an element is in one list at most |
| GenericList.WithoutNeighbours | components/lists/fsl_component_generic_list.c:356-371 | skipping one element gives the others exactly the links of the shorter list |
| GenericList.InsertedNeighbours | components/lists/fsl_component_generic_list.c:436-448 | linking in one element gives the others exactly the links of the longer list |
| TaskListSpec.Place | components/osa/fsl_os_abstraction_bm.c:391-428 | the first place whose task is no more urgent |
| TaskListSpec.ApplyKeeps | components/osa/fsl_os_abstraction_bm.c:311-461 | every create, destroy, set-priority, signal and block keeps the list duplicate-free and sorted by priority |
| TaskListSpec.ApplyAllKeeps | components/osa/fsl_os_abstraction_bm.c:311-461 | the same for any sequence of them |
| TaskListSpec.DestroyUndoesCreate | components/osa/fsl_os_abstraction_bm.c:374-461 | destroying a task just created restores the list |
| TaskListSpec.RunsMostUrgent | components/osa/fsl_os_abstraction_bm.c:1434-1461 | every body runs for a ready task while no ready task is more urgent and none before it in the list is ready, whatever the bodies before it did |
| TaskListSpec.RunEndsIdle | components/osa/fsl_os_abstraction_bm.c:1434-1461 | processing ends only when no task is ready, and the list is sorted throughout |
| TaskListSpec.BlockedAfter | components/osa/fsl_os_abstraction_bm.c:1441-1459 | after a body that blocks a task, and does not wake it later on, the task is not ready |
| TaskListSpec.SignalledAfter | components/osa/fsl_os_abstraction_bm.c:1441-1459 | after a body that signals a task, and does not block it later on, the task is ready |
| TaskListSpec.BlockedUntilWoken | components/osa/fsl_os_abstraction_bm.c:1434-1461 | a task that a body blocks, and does not wake later on, runs again only after a body in between signals or creates it |
| TaskListSpec.RefusedCreateSorted | components/osa/fsl_os_abstraction_bm.c:389-424 | when the refused creation of a listed task leaves the list sorted, exactly |
| TaskList.RefusedCreateUnsorts | components/osa/fsl_os_abstraction_bm.c:389-424 | a sequence of calls: two tasks created, the first again with a lower urgency, and the list is unsorted |
| TaskList.Scheduler.constructor | components/osa/fsl_os_abstraction_bm.c:1380-1386 | an empty task list satisfies the invariant |
| TaskList.Scheduler.FindPlace | components/osa/fsl_os_abstraction_bm.c:394-428 | the walk ends at the first place whose task is no more urgent, and remembers the last task seen, which is null exactly for an empty list |
| TaskList.Scheduler.Enqueue | components/osa/fsl_os_abstraction_bm.c:394-438 | insert-before and add-tail of create together put the task at its place |
| TaskList.Scheduler.TaskCreate | components/osa/fsl_os_abstraction_bm.c:374-441 | the whole new state: ready flag and priority set in the control block and nowhere else, and the task behind every more urgent one and before the others, whose order stays |
| TaskList.Scheduler.TaskCreateListed | components/osa/fsl_os_abstraction_bm.c:389-424 | with the check for duplicates a listed task is refused, with priority and ready flag already changed and the order kept; without it the task list is the list of no sequence afterwards |
| TaskList.Scheduler.TaskSetPriority | components/osa/fsl_os_abstraction_bm.c:311-362 | the whole new state, beside another listed task: only its priority changes, no ready flag, and the task stands behind every more urgent one and before the others |
| TaskList.Scheduler.SetPriorityWalk | components/osa/fsl_os_abstraction_bm.c:311-355 | for every list: the last task seen, which is dereferenced next, is null exactly when no other task is listed |
| TaskList.Scheduler.RequeueLinks | components/osa/fsl_os_abstraction_bm.c:336-361 | the insertion of set-priority, with its own unguarded last test |
| TaskList.Scheduler.TaskDestroy | components/osa/fsl_os_abstraction_bm.c:453-462 | the whole new state: the task gone from the list, if it was there, the order of the others, priorities and ready flags as before |
| TaskList.Scheduler.Perform | components/osa/fsl_os_abstraction_bm.c:311-462 | what each action does to ready flags, priorities and order: a signal adds one ready task, a block takes one away, a creation adds one, and the others leave readiness alone |
| TaskList.Scheduler.RunBody | components/osa/fsl_os_abstraction_bm.c:1449-1452 | the effect of a body is that of its calls, one after the other; a task it blocks last is not ready, one it signals last is |
| TaskList.Scheduler.RunReady | components/osa/fsl_os_abstraction_bm.c:1441-1459 | the inner loop ends, with no task ready unless the script is used up |
| TaskList.Scheduler.ProcessTasks | components/osa/fsl_os_abstraction_bm.c:1434-1461 | the nested loops end, and run the bodies and reach the state that running to completion specifies; done exactly when no task is ready; no body runs for a task blocked and not woken since |
| TaskList.Scheduler.TaskShouldYield | components/osa/fsl_os_abstraction_bm.c:1469-1487 | 1 exactly when some listed task is ready |
| TaskList.CreatedYields | components/osa/fsl_os_abstraction_bm.c:374-441 | a sequence of calls: after a creation, OSA_TaskShouldYield returns 1 |
| TaskList.BlocksItself | components/osa/fsl_os_abstraction_bm.c:1434-1461 | a sequence of calls: the only task, whose body blocks it, runs once |
| MessageQueue.AdvanceOnSlots | components/osa/fsl_os_abstraction_bm.c:1161-1166 | for usable sizes the 16-bit offset update goes from slot to slot and wraps to 0 after the last |
| MessageQueue.UsableExactly | components/osa/fsl_os_abstraction_bm.c:1109-1232 | after every number of updates the offset is that of the right slot, exactly for the usable counts and sizes |
| MessageQueue.LargeQueueLeavesSlots | components/osa/fsl_os_abstraction_bm.c:1161-1166 | two messages of 40000 bytes: the second offset lies inside the first slot |
| MessageQueue.PutKeepsSlots | components/osa/fsl_os_abstraction_bm.c:1131-1176 | copying into the tail slot extends the messages in the ring, across any wrap |
| MessageQueue.GetKeepsSlots | components/osa/fsl_os_abstraction_bm.c:1190-1232 | advancing the head drops the oldest message and keeps the others |
| MessageQueue.CopyIn | components/osa/fsl_os_abstraction_bm.c:1154-1158 | the byte loop copies the message and nothing else changes |
| MessageQueue.CopyOut | components/osa/fsl_os_abstraction_bm.c:1217-1221 | the byte loop copies the slot out |
| MessageQueue.MsgQueue.constructor | components/osa/fsl_os_abstraction_bm.c:1109-1122 | an empty queue of the given count and size |
| MessageQueue.MsgQueue.Put | components/osa/fsl_os_abstraction_bm.c:1131-1176 | appends the message to the bounded FIFO and makes the task that last asked ready; fails exactly when full or without memory, changing nothing |
| MessageQueue.MsgQueue.Get | components/osa/fsl_os_abstraction_bm.c:1190-1270 | hands out the oldest message unaltered and remembers the caller; an empty queue is a timeout, or idle with the caller's ready flag cleared |
| MessageQueue.MsgQueue.Destroy | components/osa/fsl_os_abstraction_bm.c:1296-1305 | the queue is left without memory and without messages |
| MessageQueue.FirstInFirstOut | components/osa/fsl_os_abstraction_bm.c:1131-1270 | over any script of puts and gets, the messages handed out followed by those queued are the messages accepted |
| MessageQueue.RunCalls | components/osa/fsl_os_abstraction_bm.c:1131-1270 | any script of real calls queues and hands out exactly what the bounded queue does |
| LogRingBuffer.StoredContents | components/log/fsl_component_log_backend_ringbuffer.c:87-112 | the bytes between the moved tail and head are the last of old contents and new data |
| LogRingBuffer.PointersMove | components/log/fsl_component_log_backend_ringbuffer.c:75-112 | how far the tail moves: exactly as far as bytes are overwritten, one byte always staying free |
| LogRingBuffer.CopiesStore | components/log/fsl_component_log_backend_ringbuffer.c:85-95 | one or two block copies store the data from the head on, wrapping, and nothing else |
| LogRingBuffer.LastOfMessage | components/log/fsl_component_log_backend_ringbuffer.c:80-84 | an over-long message is as good as its last bytes |
| LogRingBuffer.RingBuffer.StoreBlocks | components/log/fsl_component_log_backend_ringbuffer.c:85-95 | both copies are in bounds and store the data |
| LogRingBuffer.RingBuffer.Puts | components/log/fsl_component_log_backend_ringbuffer.c:63-116 | the contents become the last length - 1 bytes of old contents and message, for every message length; head and tail stay in the ring |
| LogRingBuffer.PutAll | components/log/fsl_component_log_backend_ringbuffer.c:63-116 | after any sequence of messages the contents are the last length - 1 bytes of all that was ever put |
| AsyncLog.GrowKeepsOrderly | components/log/fsl_component_log.c:236-516 | each call keeps the pending messages the newest ones in order, and what dumps took older, in order and without repetition |
| AsyncLog.Replay | components/log/fsl_component_log.c:236-516 | the same after any run of calls |
| AsyncLog.TakenIsOldest | components/log/fsl_component_log.c:236-250 | a dump takes the oldest pending message |
| AsyncLog.LoggingLoses | components/log/fsl_component_log.c:440-516 | what logging loses, by the number of nodes in hand and pending |
| AsyncLog.ChainExtended | components/log/fsl_component_log.c:503-516 | linking a node behind the last one extends the chain by it |
| AsyncLog.Context.constructor | components/log/fsl_component_log.c:365-372 | the loop with its 8-bit bound strings exactly `Strung(count)` nodes into the idle stack |
| AsyncLog.AllStrungExactly | components/log/fsl_component_log.c:365-372 | all nodes are strung exactly when there are fewer than 256 |
| AsyncLog.ManyNodesLost | components/log/fsl_component_log.c:365-372 | of 256 nodes one is strung, of 300 there are 44 |
| AsyncLog.Context.PopIdle | components/log/fsl_component_log.c:455-461 | takes an idle node; pending messages stay |
| AsyncLog.Context.PopPend | components/log/fsl_component_log.c:242-248 | takes the node of the oldest pending message; the nodes stay partitioned |
| AsyncLog.Context.PushIdle | components/log/fsl_component_log.c:341-343 | gives a node back; pending messages stay |
| AsyncLog.Context.LinkLast | components/log/fsl_component_log.c:503-516 | the walk to the end of the queue ends and links the node there |
| AsyncLog.Context.AsyncPrintf | components/log/fsl_component_log.c:440-516 | pending becomes the last N of pending and the new message, N the strung nodes not in hand; the strung nodes stay partitioned |
| PoolManager.TakenUpdate | components/mem_manager/fsl_component_mem_manager.c:468-478 | how changing one header changes the number of flagged ones |
| PoolManager.ClearedWithinBlockExactly | components/mem_manager/fsl_component_mem_manager.c:472-477 | for which block sizes, next blocks and bytes behind the pool clearing an allocated block stays inside it, exactly |
| PoolManager.ThreeByteBlockOverruns | components/mem_manager/fsl_component_mem_manager.c:472-477 | concrete blocks for which the clearing overruns a block of three bytes |
| PoolManager.Pool.constructor | components/mem_manager/fsl_component_mem_manager.c:330-336 | a pool made of zeroed memory is consistent, for every block size |
| PoolManager.Pool.AddressInside | components/mem_manager/fsl_component_mem_manager.c:464-465 | blocks lie one after the other inside their pool |
| PoolManager.Pool.FindFree | components/mem_manager/fsl_component_mem_manager.c:462-466 | the block loop ends at the first free block, or finds none exactly when every block is flagged |
| PoolManager.Pool.Take | components/mem_manager/fsl_component_mem_manager.c:466-479 | the first free block is flagged, labelled with the block size and zero in every byte, whatever the block size, if clearing stays inside it; no other block changes and the counter goes up by one |
| PoolManager.Pool.Release | components/mem_manager/fsl_component_mem_manager.c:560-564 | header and every byte of the one block are zero, and no other block changes |
| PoolManager.Pool.Clear | components/mem_manager/fsl_component_mem_manager.c:627-638 | header and every byte of every block are zero, and so is the counter |
| PoolManager.FirstAtLeast | components/mem_manager/fsl_component_mem_manager.c:349-369 | the first pool whose blocks are no smaller |
| PoolManager.InsertedInOrder | components/mem_manager/fsl_component_mem_manager.c:343-374 | inserting there keeps the pools sorted, apart and distinct |
| PoolManager.Manager.LinkIn | components/mem_manager/fsl_component_mem_manager.c:343-374 | the loop with its two comparisons links the pool before the first that is no smaller, and no other link changes |
| PoolManager.Manager.AddBuffer | components/mem_manager/fsl_component_mem_manager.c:315-379 | the list of pools stays linked and sorted by block size, with the new pool at its place |
| PoolManager.Manager.Search | components/mem_manager/fsl_component_mem_manager.c:458-493 | the pool loop ends with the first free block of the first pool that fits, which has the smallest blocks of those that do |
| PoolManager.Manager.AllocWithId | components/mem_manager/fsl_component_mem_manager.c:443-533 | a block of the right id and at least the size asked for, the first free one of its pool, with no pool of smaller blocks that could serve, and null exactly when none can; it is flagged, labelled and zero in every byte, nothing else changes and the counter goes up by one |
| PoolManager.Manager.Owner | components/mem_manager/fsl_component_mem_manager.c:566-581 | the address search finds the pool that the block belongs to |
| PoolManager.Manager.Free | components/mem_manager/fsl_component_mem_manager.c:544-592 | header and every byte of a taken block are zero and its counter goes down by one, nothing else changes; null or free blocks are errors that change nothing |
| PoolManager.Manager.FreeAllWithId | components/mem_manager/fsl_component_mem_manager.c:619-645 | the pools of that id, and only those, have every block free and zero, counters included |
| I3cSlots.GetSlot | components/i3c_bus/fsl_component_i3c.c:70-84 | reading the packed words reads one entry of a table of 128 |
| I3cSlots.SetSlot | components/i3c_bus/fsl_component_i3c.c:25-38 | setting a slot of the packed words changes one entry of the table |
| I3cBus.Bus.constructor | components/i3c_bus/fsl_component_i3c.c:405-418 | a new bus has no devices and the slots of a new bus |
| I3cBus.Bus.SetAddrSlot | components/i3c_bus/fsl_component_i3c.c:25-38 | changes only its own entry; addresses above 0x7F change nothing |
| I3cBus.Bus.GetAddrSlotStatus | components/i3c_bus/fsl_component_i3c.c:70-84 | the entry of the table, as the number the header gives it; reserved above 0x7F |
| I3cBus.Bus.InitAddrSlots | components/i3c_bus/fsl_component_i3c.c:40-68 | sets aside exactly the reserved addresses |
| I3cBus.Bus.GetValidAddrSlot | components/i3c_bus/fsl_component_i3c.c:361-374 | the lowest free address from the start on, below 0x7F, if there is one |
| I3cBus.Bus.AddI3cDevice | components/i3c_bus/fsl_component_i3c.c:310-331 | appends the device and marks its addresses, the static one last, address 0 never |
| I3cBus.Bus.Receive | components/i3c_bus/fsl_component_i3c_adapter.c:299-315 | the bytes of a round go behind those already in the buffer, in bounds, and no other byte changes |
| I3cBus.Bus.AssignAddress | components/i3c_bus/fsl_component_i3c_adapter.c:319-346 | the device that answers gets the lowest free address, if there is one, and a record whose vendor, part number, BCR and DCR are the bytes of the buffer in that order |
| I3cBus.Bus.Poll | components/i3c_bus/fsl_component_i3c_adapter.c:297-348 | one round: an error ends it as an error, an answer without a free address as a slot error, and completion as success; an answer starts the buffer anew, a round without one does not |
| I3cBus.Bus.ProcessDaa | components/i3c_bus/fsl_component_i3c_adapter.c:297-352 | slots, devices and status after any rounds are what the assignment function says; error exactly when the last round polled reports one, slot error exactly when addresses run out, success exactly when it completes otherwise; each record begins with the bytes that arrived since the answer before its own |
| I3cAssignment.FirstFree | components/i3c_bus/fsl_component_i3c.c:361-374 | nothing between the start and the result is free, and a result below 0x7F is |
| I3cAssignment.SingleBitErrorsSetAside | components/i3c_bus/fsl_component_i3c.c:56-67 | all seven addresses one bit from the broadcast address are set aside |
| I3cAssignment.FreeCountTaken | components/i3c_bus/fsl_component_i3c_adapter.c:324-338 | taking a free address lowers the number of free ones by one |
| I3cAssignment.AssignsFreeAddresses | components/i3c_bus/fsl_component_i3c_adapter.c:319-346 | the addresses assigned are different and ascending, each was free, and no other slot changes |
| I3cAssignment.AssignsWhatThereIs | components/i3c_bus/fsl_component_i3c_adapter.c:319-346 | each assignment uses up one free address; the slot error exactly when more devices answer than addresses are free below 0x7F |
| I3cAssignment.NewBusCount | components/i3c_bus/fsl_component_i3c.c:40-68 | how many addresses a new bus leaves free from each address on; 108 in all |
| I3cAssignment.NewBusServes | components/i3c_bus/fsl_component_i3c_adapter.c:319-346 | on a new bus the error comes with the 109th device, and no reserved address is ever assigned |
| I3cAssignment.OutcomeExactly | components/i3c_bus/fsl_component_i3c_adapter.c:303-352 | the round that ends the procedure reports an error, lacks an address or completes, before it none does, and the status says which |
| I3cAssignment.DeviceMadeOf | components/i3c_bus/fsl_component_i3c_adapter.c:328-335 | vendor, part number, BCR and DCR of a record by the eight bytes |
| I3cAssignment.RecordsOwnBytes | components/i3c_bus/fsl_component_i3c_adapter.c:316-335 | the record of each device served begins with the bytes that arrived since the answer before its own |
| I3cAssignment.BeginsWithEight | components/i3c_bus/fsl_component_i3c_adapter.c:316-335 | eight bytes since the last answer are all that a record is made of |
| I3cAssignment.InBoundsExactly | components/i3c_bus/fsl_component_i3c_adapter.c:297-348 | every byte is stored inside the buffer exactly when at most eight arrive between answers, in the rounds polled |
| I3cAssignment.NinthByteOutside | components/i3c_bus/fsl_component_i3c_adapter.c:297-348 | concrete rounds that store outside the buffer |
| I3cAssignment.DisciplinedInBounds | components/i3c_bus/fsl_component_i3c_adapter.c:297-348 | hardware that sends eight bytes with each answer and no others suffices, and each record is then made of its own bytes |

## Left out

- Interrupts: each call is one step, so the counter update after the critical section of the pool manager's free and the
  unprotected append of the asynchronous log are covered only sequentially.
- Guards, statistics, benchmark, caller tracking and test hooks of the memory managers: off by default.
- `MEM_RemoveBuffer` and adding a pool again: adding relies on zeroed memory.
- `MEM_BufferRealloc` of the pool manager: the light manager's is modelled; this one truncates the requested size to 16
  bits.
- The bytes of a pool: a pool's memory is an array of blocks with header fields and payload, at addresses computed as in
  the source; how headers are laid out in bytes matters only to `SizeWord`.
- The light build of the list: its `LIST_RemoveElement` does not move the tail.
- `MEM_CallocAlt`, `MEM_FreeAlt` and `MEM_GetAvailableBlocks` of the light manager: wrappers or constants.
- `LIST_GetHead`, `LIST_GetNext`, `LIST_GetPrev`, `LIST_GetSize`, `LIST_GetAvailableSize`: they read one field.
- Semaphores, mutexes, events and timers of the bare-metal layer: short updates; their effect on a task's ready flag is
  an action of the script.
- Timeouts in `OSA_MsgQGet` and `isWaiting`: the default build has no timer.
- The endless loop of `OSA_Start`: its inner loop is that of `OSA_ProcessTasks`.
- The free hook after `log_init_backend_ringbuffer_puts`, which does nothing by default, and the other log backends.
- Formatting of log messages: `LOG_Printf` and its library are not part of this model.
- The waiting mode of the asynchronous log, which needs a kernel semaphore.
- I3C register access, CCC transfers, IBI, mastership hand-over and `I3C_BusMasterAssignDevDynamicAddr`: the hardware is
  a sequence of rounds.
- The lists of I3C and I2C devices: a sequence of device records stands for the generic list, which is modelled apart.
- FreeRTOS and ThreadX layers, drivers for GPIO, I2C, audio, display, sensors and boards, the loader, and messaging.
