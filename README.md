# A small JVM's bytecode verifier, heap and pointer stack, in Dafny

This project models three parts of a small Java virtual machine written in C.

- **The bytecode verifier** (`jvm/Verifier.c`). It checks one method's code by abstract interpretation. Each instruction has an entry in a table: a "changed" bit, a type array (`maxLocals` local slots followed by `maxStack` stack slots, each slot a short type tag) and a stack height. A worklist loop works as follows:
  - it picks, in cyclic order, an instruction whose changed bit is set;
  - it runs that opcode's transfer function on the instruction's type array;
  - it merges the result into each successor instruction.
  - The method is accepted when no changed bit is left, and rejected as soon as a transfer or a merge fails.
- **The Java heap** (`jvm/MyAlloc.c`). It is an arena of 32-bit words.
  - Free blocks form a list threaded through the arena by byte offsets.
  - `MyHeapAlloc` takes the first block that fits, splits it when the leftover is at least `MINBLOCKSIZE`, and runs the collector once when nothing fits.
  - The collector marks from its roots. A mark is the top bit of a block's header. Any word of a marked block that looks like a pointer to a plausible block is followed.
  - It then sweeps the arena block by block. It rebuilds the free list, merges a freed block into the list head when the two are adjacent, and clears the marks.
- **The pointer stack** (`stack/stack.c`). It is a fixed array of 65536 pointer slots and a head index.

Files and modules:

- `stack.dfy` — `PointerStack`: the stack as a class over an `array`.
- `lattice.dfy` — `TypeLattice`: the type tags, `mergeTypes`, the `check*` and `compare*` helpers.
- `transfer.dfy`:
  - `OpcodeTransfer`: the transfer function of every opcode in `verifyOpcode`, as pure functions from a frame to a step.
  - `OpcodeFacts`: properties of that function.
- `verifier.dfy` — `BytecodeVerifier`: the instruction table as an `array`, with the methods that update it in place (`mergeState`, `dupInstructionInfo`, `updateInstruction`, `findChangedInstruction`, `verifyOpcode`, `verifyMethod`).
  - Each method is proved equal to a value-level function: `MergeSpec`, `UpdateSpec`, `FirstReady`, `OpcodeSpec`, `Run`.
  - Those functions' properties are proved as lemmas.
- `heap.dfy`:
  - `HeapWords`: the 32-bit word arithmetic.
  - `FreeList`: allocation and free on values.
  - `Collector`: mark and sweep on values.
- `javaheap.dfy` — `JavaHeap`:
  - the class `Heap`, whose `words` array, `first` offset and statistics are updated in place, with one method per C function;
  - the allocation specification with its retry-after-gc path, and its lemmas.
- `shape.dfy` — `HeapShape`: what a well-formed heap is, and its preservation by free, by the carving step of allocation and by gc.
  - The arena is cut into blocks that follow each other from the first word to the last. Each header holds its block's size in bytes.
  - The free list is a finite sequence of distinct blocks, each carrying the free-list pattern and linking to the next, the last linking to -1. So it has no cycle and its blocks never overlap.
- `heapinvariant.dfy` — `HeapInvariant`: the allocator with the zeroing `MyHeapAlloc`'s comment promises, on a well-formed heap.
  - The initial arena is well formed, and allocation keeps it so.
  - A returned block is the first listed block that fits. It is sized at least the need, a multiple of 4, cleared after its header and off the list.

Byte offsets stand in for heap pointers. The pointer `HeapStart + o` is the offset `o`, and word `k` of the arena holds bytes `4k .. 4k+3`. An `exit(1)` in the source becomes a failure value (`Failed(fault)`, `AllocFailed(fault)`, `-1`), so every error path is part of the model.

## Model

| member | source | states |
|---|---|---|
| PointerStack.TopOrNull | stack/stack.c:17-29 | null on the empty sequence, otherwise its last element |
| PointerStack.Stack.constructor | stack/stack.c:32-36 | a fresh stack with room for STACK_SIZE (stack/stack.h:4) slots and no contents |
| PointerStack.Stack.Push | stack/stack.c:5-14 | -1 exactly on a full stack, with nothing changed; otherwise 0, the contents gain ele on top, and the slots below are untouched |
| PointerStack.Stack.Peek | stack/stack.c:17-22 | the top pointer, or null on an empty stack; nothing changes |
| PointerStack.Stack.Pop | stack/stack.c:25-29 | null and nothing changed on an empty stack; otherwise the top pointer, and the old contents are the new ones plus that pointer |
| PointerStack.PushThenPop | stack/stack.c:5-29 | on a stack that is not full, push then pop returns the pushed pointer and restores the contents |
| TypeLattice.MergeTypes | jvm/Verifier.c:124-146 | the join is one of: the second tag, "X", "U", the first tag, or the external join of the two |
| TypeLattice.SimpleIffNotReference | jvm/Verifier.c:116-120 | a tag is simple exactly when it does not start with 'A'; null, "U", "X", "-" and the empty tag are simple |
| TypeLattice.IsSimpleType | jvm/Verifier.c:116-120 | the definition of isSimpleType (no contract of its own); SimpleIffNotReference states what it means |
| TypeLattice.MergeIdempotent | jvm/Verifier.c:124-128 | merging a tag with itself gives it back |
| TypeLattice.MergeCommutes | jvm/Verifier.c:124-146 | the merge commutes whenever the external join does |
| TypeLattice.MergeDistinctOrder | jvm/Verifier.c:129-145 | for distinct tags: a conflict wins, then uninitialised, then any simple operand gives "X", and two references go to the external join |
| TypeLattice.MergeNullWithReference | jvm/Verifier.c:129-142 | null merged with a reference in either order is a conflict, because the simple-type test comes first |
| TypeLattice.CheckStackOverflow | jvm/Verifier.c:182-188 | -1 exactly when the pushes exceed the maximum height, otherwise 0 |
| TypeLattice.CheckStackUnderflow | jvm/Verifier.c:191-197 | -1 exactly when the pops would make the height negative |
| TypeLattice.CheckInCPRange | jvm/Verifier.c:200-206 | -1 exactly when the index exceeds the pool count |
| TypeLattice.CheckValidConstantType | jvm/Verifier.c:208-214 | -1 exactly for tags 0, 2 and above 12 |
| TypeLattice.CheckCPType | jvm/Verifier.c:216-223 | -1 exactly when the tags differ |
| TypeLattice.CheckInLocalsRange | jvm/Verifier.c:258-264 | -1 exactly when the local index is at or past the maximum |
| TypeLattice.CheckJumpPosition | jvm/Verifier.c:267-274 | -1 exactly when the target is at or past the code length |
| TypeLattice.CPRangeAdmitsCount | jvm/Verifier.c:200-206 | an index equal to the pool count passes; one more fails |
| TypeLattice.ValidConstantTypes | jvm/Verifier.c:208-214 | for non-negative tags, exactly 1 and 3..12 are valid |
| TypeLattice.CompareSimpleTypes | jvm/Verifier.c:237-243 | 0 exactly when the tags are equal, otherwise -1 |
| TypeLattice.CompareReferenceTypes | jvm/Verifier.c:246-255 | 0 exactly when one tag is a prefix of the other, otherwise -1 |
| TypeLattice.RefCompatibleExamples | jvm/Verifier.c:246-255 | "A" is compatible with every reference tag; "A[I" and "A[F" are not compatible |
| OpcodeTransfer.Push | jvm/Verifier.c:312-325 | the frame stays well formed, one slot higher, with the tag on top |
| OpcodeTransfer.Pop | jvm/Verifier.c:950-970 | the frame stays well formed, one slot lower |
| OpcodeTransfer.SetSlot | jvm/Verifier.c:634-646 | a local store keeps the frame well formed and writes the tag into that slot |
| OpcodeTransfer.PushLoaded | jvm/Verifier.c:454-573 | the push of a load keeps the frame well formed and raises the height by the kind's width, two for a long or double |
| OpcodeTransfer.PopN | jvm/Verifier.c:1443-1447 | n pops keep the frame well formed and lower the height by exactly n |
| OpcodeTransfer.SetStk | jvm/Verifier.c:1104-1134 | overwriting the k-th slot from the top keeps the frame well formed and the height, and that slot then holds the tag |
| OpcodeTransfer.HasOperands | jvm/Verifier.c:366 | the inline operand bytes lie inside the code; U1 and U2 need it, and an opcode without it fails (no contract of its own) |
| OpcodeTransfer.TagAt | jvm/Verifier.c:380 | the tag of a constant-pool entry, 0 past the table (no contract of its own) |
| OpcodeTransfer.U1 | jvm/Verifier.c:357 | the one-byte operand is a value from 0 to 255 |
| OpcodeTransfer.U2 | jvm/Verifier.c:366 | the two-byte operand, high byte first, is a value from 0 to 65535 |
| OpcodeTransfer.AfterColon | jvm/Verifier.c:1356 | the descriptor after the first colon, when there is one, is shorter than the item |
| OpcodeTransfer.ArgSlots | jvm/Verifier.c:1443-1447 | the number of slots the invoke loop pops: two for each "Dd" or "Ll" argument, one for any other (no contract of its own) |
| OpcodeTransfer.Load | jvm/Verifier.c:454-573 | a load that succeeds leaves a well-formed frame and falls through to the next instruction |
| OpcodeTransfer.Store | jvm/Verifier.c:634-774 | a store that succeeds leaves a well-formed frame and falls through to the next instruction |
| OpcodeTransfer.TransferConstLoad | jvm/Verifier.c:298-573 | the constants and loads leave a well-formed frame and at most two successors |
| OpcodeTransfer.TransferArrayLoad | jvm/Verifier.c:575-632 | the same for the array loads |
| OpcodeTransfer.TransferStore | jvm/Verifier.c:634-774 | the same for the stores |
| OpcodeTransfer.TransferArrayStore | jvm/Verifier.c:776-847 | the same for the array stores |
| OpcodeTransfer.TransferStackOp | jvm/Verifier.c:849-948 | the same for pop, dup and swap |
| OpcodeTransfer.TransferArith | jvm/Verifier.c:950-1071 | the same for the arithmetic |
| OpcodeTransfer.TransferConvert | jvm/Verifier.c:1073-1233 | the same for the conversions and comparisons |
| OpcodeTransfer.L2I | jvm/Verifier.c:1104-1110 | a success leaves a well-formed frame and at most two successors; LongConversionsAlwaysFail shows there is none |
| OpcodeTransfer.L2F | jvm/Verifier.c:1112-1118 | the same for l2f |
| OpcodeTransfer.L2D | jvm/Verifier.c:1120-1126 | the same for l2d |
| OpcodeTransfer.F2I | jvm/Verifier.c:1128-1134 | the same for f2i |
| OpcodeTransfer.TransferBranch | jvm/Verifier.c:1235-1347 | the same for the branches and returns |
| OpcodeTransfer.TransferObject | jvm/Verifier.c:1350-1593 | the same for field access, invoke, new, arrays, casts, monitors, ifnull and the unimplemented default, which accepts with no successor |
| OpcodeTransfer.PushField | jvm/Verifier.c:1357-1366 | a field value pushed within the maximum height leaves a well-formed frame |
| OpcodeTransfer.PopField | jvm/Verifier.c:1401-1421 | a field value popped after its tags were checked leaves a well-formed frame |
| OpcodeTransfer.PushReturn | jvm/Verifier.c:1448-1460 | a return value pushed within the maximum height leaves a well-formed frame |
| OpcodeTransfer.TransferPut | jvm/Verifier.c:1396-1429 | putstatic and putfield, with the underflow check the source lacks: a success leaves a well-formed frame and at most two successors |
| OpcodeTransfer.TransferInvoke | jvm/Verifier.c:1431-1466 | invoke*, with the underflow check the source lacks: a success leaves a well-formed frame and at most two successors |
| OpcodeTransfer.LoosePop | jvm/Verifier.c:1443-1447 | the unchecked pops: they fail exactly when the height would drop below the start of the type array; otherwise the height drops by n |
| OpcodeTransfer.LoosePush | jvm/Verifier.c:1448-1460 | a push as written: one slot higher, with the tag in the slot at the old height |
| OpcodeTransfer.LoosePushReturn | jvm/Verifier.c:1448-1460 | the return value pushed as written keeps heights down to -maxLocals in range |
| OpcodeTransfer.InvokeAsWritten | jvm/Verifier.c:1431-1466 | invoke* as the source writes it: a success reaches exactly one successor with the height possibly below 0 |
| OpcodeTransfer.PutAsWritten | jvm/Verifier.c:1396-1429 | putstatic and putfield as the source writes them: a success reaches exactly one successor with the height possibly below 0 |
| OpcodeTransfer.Transfer | jvm/Verifier.c:278-1596 | every opcode that succeeds leaves a well-formed frame and at most two successors |
| OpcodeFacts.IconstPushesInt | jvm/Verifier.c:312-325 | iconst_m1..iconst_5 push "I" when a slot is free, and otherwise fail |
| OpcodeFacts.LconstPushesLong | jvm/Verifier.c:326-335 | lconst_0/lconst_1 push the pair "l","L" when two slots are free |
| OpcodeFacts.IaddFamilyPopsOne | jvm/Verifier.c:950-970 | the int binary operators need two ints on top and pop one slot |
| OpcodeFacts.ReturnsHaveNoSuccessor | jvm/Verifier.c:1305-1347 | the returns propagate nowhere; ireturn and return accept exactly the frames named |
| OpcodeFacts.LongConversionsAlwaysFail | jvm/Verifier.c:1104-1135 | l2i, l2f and l2d fall into the next case, which rejects the tag just written, so they always fail |
| OpcodeFacts.NewarrayAlwaysFails | jvm/Verifier.c:1481-1504 | newarray always reaches its failing default |
| OpcodeFacts.LstoreNWritesPastLocals | jvm/Verifier.c:715-730 | lstore_3 skips the local-range check, so with one local it writes "Ll" into a stack slot |
| OpcodeFacts.BranchTargetsAbsolute | jvm/Verifier.c:1235-1252 | ifeq..ifle take the two operand bytes as an absolute target and also fall through |
| OpcodeFacts.LoosePopAgrees | jvm/Verifier.c:1443-1447 | on a stack that holds n slots, the unchecked pops are the checked ones |
| OpcodeFacts.TransferIsInvoke | jvm/Verifier.c:1431-1466 | verifyOpcode hands invoke* to TransferInvoke |
| OpcodeFacts.TransferIsPut | jvm/Verifier.c:1396-1429 | verifyOpcode hands putstatic and putfield to TransferPut |
| OpcodeFacts.InvokeAgrees | jvm/Verifier.c:1431-1466 | TransferInvoke fails when the arguments are not all on the stack, and is otherwise InvokeAsWritten |
| OpcodeFacts.InvokeUnderflowChecked | jvm/Verifier.c:1431-1466 | the same for the whole transfer function |
| OpcodeFacts.PutUnderflowChecked | jvm/Verifier.c:1396-1429 | putstatic and putfield fail when the value, and for putfield the reference, are not all on the stack, and otherwise do what PutAsWritten does |
| OpcodeFacts.UncheckedPopsAccepted | jvm/Verifier.c:1396-1466 | with one local and one stack slot, invokestatic of an int-taking method and putfield of an int field over one slot go on, as written, at height -1 with local 0 overwritten; the model fails both |
| BytecodeVerifier.MergeLimit | jvm/Verifier.c:150-162 | the merge loop stops at the first slot whose current tag is "-"; with none, the model stops at the length, where the source first reads one slot past the array |
| BytecodeVerifier.MergeLimitIs | jvm/Verifier.c:150-162 | any such stopping point is the one MergeLimit finds |
| BytecodeVerifier.MergePrefix | jvm/Verifier.c:150-162 | the length is the successor's; the first n slots are the join of the two tags, and every later slot keeps the successor's tag |
| BytecodeVerifier.MergedSlots | jvm/Verifier.c:150-162 | the slots mergeState leaves, MergePrefix up to MergeLimit (no contract of its own); MergedSlotsMeaning states what it means |
| BytecodeVerifier.MergeSpec | jvm/Verifier.c:150-162 | mergeState on table values (no contract of its own); MergeState is proved equal to it and UpdateMeaning states its outcomes |
| BytecodeVerifier.MergedSlotsMeaning | jvm/Verifier.c:150-162 | slots before the stop are the join of the two tags; all others keep the successor's tag |
| BytecodeVerifier.MergeSelf | jvm/Verifier.c:150-162 | merging a type array into itself changes nothing |
| BytecodeVerifier.MergeState | jvm/Verifier.c:150-162 | -1 exactly when the stack heights differ; the new table is MergeSpec of the old one |
| BytecodeVerifier.CopyState | jvm/Verifier.c:98-104 | the copy is the first len tags |
| BytecodeVerifier.Dup | jvm/Verifier.c:107-111 | the entry dupInstructionInfo installs (no contract of its own); DupInstructionInfo is proved to install it |
| BytecodeVerifier.DupInstructionInfo | jvm/Verifier.c:107-111 | only entry newi changes, to a copy of entry oldi |
| BytecodeVerifier.UpdateSpec | jvm/Verifier.c:226-234 | updateInstruction on table values (no contract of its own); UpdateMeaning states what it does |
| BytecodeVerifier.UpdateMeaning | jvm/Verifier.c:226-234 | only the successor changes: a stateless successor takes a copy with its bit set; otherwise -1 exactly on a height mismatch with nothing changed, else a merge that sets the bit |
| BytecodeVerifier.UpdateInstruction | jvm/Verifier.c:226-234 | the result and new table are UpdateSpec of the old table |
| BytecodeVerifier.UpdateKeepsTableOk | jvm/Verifier.c:226-234 | an update keeps every entry well sized |
| BytecodeVerifier.Probe | jvm/Verifier.c:165-179 | the index probed k steps after start, wrapping once, is an index of the table |
| BytecodeVerifier.ProbeStep | jvm/Verifier.c:173 | the increment modulo the table size moves to the next probe |
| BytecodeVerifier.FirstReady | jvm/Verifier.c:165-179 | -1, or the index of an entry that has a state and its bit set |
| BytecodeVerifier.FirstReadyMeaning | jvm/Verifier.c:165-179 | -1 exactly when no probe from start is ready, otherwise the first ready probe |
| BytecodeVerifier.ProbesCoverAll | jvm/Verifier.c:165-179 | the cyclic probes visit every instruction |
| BytecodeVerifier.NoneReadyMeansSettled | jvm/Verifier.c:165-179 | -1 exactly when no instruction is ready |
| BytecodeVerifier.FindChangedInstruction | jvm/Verifier.c:165-179 | its loop computes FirstReady: -1 exactly when nothing is ready, otherwise a ready instruction |
| BytecodeVerifier.FollowSpec | jvm/Verifier.c:1578-1580 | one successor's update, failing for a target outside the table or a checked failed merge; a success keeps every entry well sized and the current entry's state |
| BytecodeVerifier.Propagate | jvm/Verifier.c:278-1596 | the successors updated in order; a success keeps every entry well sized and the current entry's state |
| BytecodeVerifier.OpcodeSpec | jvm/Verifier.c:278-1596 | verifyOpcode on table values; a success keeps every entry well sized and the current entry's state |
| BytecodeVerifier.FollowSuccessor | jvm/Verifier.c:1579-1581 | 0 exactly when FollowSpec succeeds, with the table it gives |
| BytecodeVerifier.VerifyOpcode | jvm/Verifier.c:278-1596 | 0 exactly when OpcodeSpec succeeds, and the table is then the one it gives |
| BytecodeVerifier.InitialTable | jvm/Verifier.c:85-95 | entry 0 holds the initial state with its bit set; all others have no state |
| BytecodeVerifier.CreateInstructionTable | jvm/Verifier.c:85-95 | a fresh table equal to InitialTable |
| BytecodeVerifier.Run | jvm/Verifier.c:1603-1645 | the worklist keeps the table well formed |
| BytecodeVerifier.VerifyMethod | jvm/Verifier.c:1603-1645 | the outcome and the final table are those of Run from the initial table |
| BytecodeVerifier.PropagateTouchesOnlyTargets | jvm/Verifier.c:226-234 | propagation changes only the successors' entries |
| BytecodeVerifier.OpcodeClearsCbit | jvm/Verifier.c:278-296 | a failing transfer fails the opcode; a successful one that does not target itself leaves its own entry unchanged apart from a cleared bit and the post-frame |
| BytecodeVerifier.VerifiedMeansSettled | jvm/Verifier.c:1603-1645 | a verified method leaves no instruction ready |
| BytecodeVerifier.FailureIsReproducible | jvm/Verifier.c:1603-1645 | a rejection names an instruction with a state on which the opcode step fails |
| BytecodeVerifier.GotoSelfLoops | jvm/Verifier.c:1288-1294 | a goto to itself keeps its bit set forever, so the worklist never settles |
| BytecodeVerifier.GotoSelfNeverSettles | jvm/Verifier.c:1603-1645 | from the initial table that method runs out of fuel whatever the bound |
| HeapWords.U32 | jvm/MyAlloc.c:53-57 | a 32-bit value that equals x when x is already one |
| HeapWords.AsInt32 | jvm/MyAlloc.c:53-57 | a signed 32-bit value with the same bit pattern |
| HeapWords.Int32RoundTrip | jvm/MyAlloc.c:53-57 | storing a signed value as a word and reading it back as int gives it back |
| HeapWords.At | jvm/MyAlloc.c:238-246 | the word at the index inside the arena, and a 32-bit value |
| HeapWords.Put | jvm/MyAlloc.c:292-301 | only the stored index changes, and words stay 32-bit |
| HeapWords.MaskedSize | jvm/MyAlloc.c:503 | the size with the mark bit cleared is below the mark bit |
| FreeList.NeededSize | jvm/MyAlloc.c:220 | the needed size is a multiple of 4 between size + 4 and size + 7 |
| FreeList.NeededSizeAsWritten | jvm/MyAlloc.c:220 | line 220 as written (no contract of its own); NeededSizeWraps and NeededSizeCounterexample state what it does |
| FreeList.NeededSizeWraps | jvm/MyAlloc.c:220 | the expression as written agrees with NeededSize up to 0x7FFFFFF8 and wraps to -2^31 above it |
| FreeList.NeededSizeCounterexample | jvm/MyAlloc.c:220 | at size 0x7FFFFFF9 the expression as written is negative |
| FreeList.Search | jvm/MyAlloc.c:234-258 | a hit is an aligned block in the arena whose plausible size is at least the need; a stop is a bad offset, a bad size or a list that does not end |
| FreeList.SearchSkips | jvm/MyAlloc.c:254-257 | a plausible block that is too small moves on to its link and counts one probe |
| HeapWords.NextOf | jvm/MyAlloc.c:256 | the signed link word after a block's header (no contract of its own) |
| FreeList.ChainAt | jvm/MyAlloc.c:256 | the k-th offset reached along the links (no contract of its own) |
| FreeList.FirstFit | jvm/MyAlloc.c:234-258 | the hit is the first block along the chain that fits: every block probed before it is too small, and prev is its predecessor |
| FreeList.MissMeansNoFit | jvm/MyAlloc.c:236-259 | a miss walked the list to a negative link, and every block it probed was smaller than the need |
| FreeList.Carve | jvm/MyAlloc.c:279-315 | the request is counted with its needed size, and the returned block's link and pattern words are zeroed |
| FreeList.Unlink | jvm/MyAlloc.c:279-287 | the unlink keeps the arena's size, its words 32-bit and the counters; UnlinkSkips states the link |
| FreeList.Split | jvm/MyAlloc.c:288-307 | the same for the split; SplitPlacesRest states its words |
| FreeList.Shrink | jvm/MyAlloc.c:292-298 | the same for shrinking the block; HeapShape.ShrinkWords states its words |
| FreeList.PlaceRest | jvm/MyAlloc.c:299-301 | the same, and the list head is kept; HeapShape.PlaceRestWords states its words |
| FreeList.CarvedSize | jvm/MyAlloc.c:279-292 | the handed-out block keeps the whole size or the need, and at least the need when the block covers it |
| FreeList.ZeroWords | jvm/MyAlloc.c:202-203 | exactly the words lo .. hi - 1 become 0, and words stay 32-bit |
| FreeList.CarveZeroed | jvm/MyAlloc.c:202-315 | Carve, then every word of the handed-out block after its header reads 0; every other word, the list head and the counters are as Carve leaves them |
| FreeList.CarveLeavesStaleWords | jvm/MyAlloc.c:308-313 | a 24-byte block handed out whole keeps, under Carve, the 7 its third data word held; CarveZeroed reads 0 there |
| FreeList.CarveKeepsTotal | jvm/MyAlloc.c:279-307 | a split leaves the block with the need and the leftover with the rest, the old link and the pattern, in the block's place in the list; otherwise the successor takes its place |
| FreeList.SplitPlacesRest | jvm/MyAlloc.c:288-307 | the split case of CarveKeepsTotal |
| FreeList.UnlinkSkips | jvm/MyAlloc.c:279-287 | the unlink case of CarveKeepsTotal |
| FreeList.FreeSpec | jvm/MyAlloc.c:324-369 | a failure is a bad pointer or an invalid block; success needs an aligned pointer in the arena; statistics are untouched |
| FreeList.Adjoins | jvm/MyAlloc.c:346-349 | the test that the freed block starts where the list head ends (no contract of its own) |
| FreeList.FreeMeaning | jvm/MyAlloc.c:324-369 | success exactly for a pointer whose header is plausible; an adjacent block grows the head in place; any other block becomes the head, linked to the old head, with the pattern |
| Collector.IsProbablePointer | jvm/MyAlloc.c:418-438 | a probable pointer is aligned, past the first word, and has a plausible unmarked header |
| Collector.GainsTrans | jvm/MyAlloc.c:441-465 | marking steps compose: marks are only ever added |
| Collector.GainsCount | jvm/MyAlloc.c:441-465 | adding marks never raises the count of unmarked words |
| Collector.MarkOneCount | jvm/MyAlloc.c:454 | setting one mark lowers that count by one |
| Collector.WithMark | jvm/MyAlloc.c:454 | the header gains the mark bit: marks are only added, and one unmarked word fewer |
| Collector.MarkSpec | jvm/MyAlloc.c:441-465 | mark only adds marks, and the block's header ends up marked |
| Collector.ScanLength | jvm/MyAlloc.c:452 | the scan covers (header - 4) / 4 words, with the unsigned wrap for headers below 4 |
| Collector.MarkFrom | jvm/MyAlloc.c:456-461 | the scan loop only adds marks, keeps words 32-bit and never raises the count of unmarked words |
| Collector.MarkFromStep | jvm/MyAlloc.c:456-461 | one turn of the scan marks through the word exactly when it is a probable pointer |
| Collector.MarkedNotProbable | jvm/MyAlloc.c:431-435 | a marked header is never a probable pointer's |
| Collector.NotProbableStable | jvm/MyAlloc.c:418-438 | a word that is not a probable pointer stays so as marks are added |
| Collector.MarkFromClosure | jvm/MyAlloc.c:456-461 | after the scan no scanned word points at an unmarked plausible block |
| Collector.ScannedWordStaysCovered | jvm/MyAlloc.c:458-460 | a scanned word is not a probable pointer once the rest of the scan has run |
| Collector.MarkClosure | jvm/MyAlloc.c:441-465 | mark sets the header bit; an already marked block is left alone; otherwise nothing in the block points at an unmarked plausible block |
| Collector.MarkObjects | jvm/MyAlloc.c:385-396 | marking the unconditional roots only adds marks |
| Collector.MarkStack | jvm/MyAlloc.c:400-406 | marking through the stack values only adds marks |
| Collector.MarkStackCovers | jvm/MyAlloc.c:400-406 | after the stack pass no stack value is a pointer to an unmarked plausible block |
| Collector.SweepStep | jvm/MyAlloc.c:480-500 | one block is freed or unmarked; only the recovery counters change, and a failure is a fault of free |
| Collector.SweepFromStep | jvm/MyAlloc.c:476-506 | after a block the walk moves on by its masked size; a zero or misaligned size stops it |
| Collector.SweepFrom | jvm/MyAlloc.c:476-506 | the walk keeps the arena's size, its words 32-bit and the allocation counters, and fails only with a collector fault |
| Collector.Sweep | jvm/MyAlloc.c:468-507 | the walk starts with an empty list, keeps the allocation counters and fails only with a collector fault |
| Collector.TilesTrans | jvm/MyAlloc.c:476-506 | block walks compose |
| Collector.TilesFrame | jvm/MyAlloc.c:476-506 | a walk is unaffected by stores at or past its end |
| Collector.SweepFreeKeepsInv | jvm/MyAlloc.c:480-495 | freeing an unmarked block keeps the sweep invariant one block further on |
| Collector.SweepMergeKeepsInv | jvm/MyAlloc.c:346-355 | the case where the block merges into the list head |
| Collector.SweepPrependKeepsInv | jvm/MyAlloc.c:362-368 | the case where the block becomes the list head |
| Collector.SweepClearKeepsInv | jvm/MyAlloc.c:497-500 | clearing a mark keeps the invariant one block further on |
| Collector.SweepFromTiles | jvm/MyAlloc.c:476-506 | a walk that completes leaves the arena tiled by unmarked blocks from offset 0 |
| Collector.SweepClearsMarks | jvm/MyAlloc.c:468-507 | after a sweep that succeeds, no header met on the walk carries a mark |
| Collector.GcSpec | jvm/MyAlloc.c:377-414 | gc counts itself once, keeps the other allocation counters and fails only with a collector fault |
| JavaHeap.InitialState | jvm/MyAlloc.c:180-196 | the arena is the size rounded down to a multiple of 4; one free block of that size at 0 ends the list and carries the pattern; all else is zero; the counters are 0 |
| JavaHeap.AllocSpec | jvm/MyAlloc.c:215-316 | an allocation keeps the arena's size and its words 32-bit; a hit is carved by CarveZeroed; the need is the corrected NeededSize; for the sizes where the source's need becomes -2^31, its signed `diff` at line 254 overflows (undefined; negative under the usual wrap-around), and the model takes that wrapping outcome: every block misses, one collection runs and the request gives up |
| JavaHeap.AfterSearch | jvm/MyAlloc.c:259-315 | the same for each search outcome |
| JavaHeap.RetrySpec | jvm/MyAlloc.c:259-275 | the same for the path that collects and retries |
| JavaHeap.AllocMeaning | jvm/MyAlloc.c:215-316 | invalid exactly for sizes outside the bounds; a block is aligned in the arena with cleared link and pattern and is counted with its needed size; at most one gc; exhaustion only after it |
| JavaHeap.AfterSearchMeaning | jvm/MyAlloc.c:259-315 | the same facts for each search outcome |
| JavaHeap.RetryMeaning | jvm/MyAlloc.c:259-275 | the same facts on the retry, with exactly one gc counted on exhaustion |
| JavaHeap.AllocFacts | jvm/MyAlloc.c:215-316 | the facts AllocMeaning gives for any arena (no contract of its own) |
| JavaHeap.CarveFacts | jvm/MyAlloc.c:279-315 | carving a hit gives those facts for the pointer after its header |
| JavaHeap.FreshSearch | jvm/MyAlloc.c:234-258 | on a fresh arena the single block is hit in one probe exactly when it fits |
| JavaHeap.FreshAllocThenFree | jvm/MyAlloc.c:180-369 | the first allocation returns offset 4 and leaves the rest as the only free block; freeing it makes a list of two blocks that still tiles the arena |
| JavaHeap.Heap.constructor | jvm/MyAlloc.c:180-196 | the arena is InitialState of the requested size |
| JavaHeap.Heap.Load | jvm/MyAlloc.c:246 | a read gives At of the words |
| JavaHeap.Heap.Store | jvm/MyAlloc.c:292-301 | a store gives Put of the words |
| JavaHeap.Heap.FindBlock | jvm/MyAlloc.c:234-258 | the loop's result and probe count are Search's |
| JavaHeap.Heap.CarveBlock | jvm/MyAlloc.c:279-315 | the new state is Carve of the old |
| JavaHeap.Heap.UnlinkBlock | jvm/MyAlloc.c:279-287 | the new state is Unlink of the old |
| JavaHeap.Heap.SplitBlock | jvm/MyAlloc.c:288-307 | the new state is Split of the old |
| JavaHeap.Heap.ShrinkBlock | jvm/MyAlloc.c:292-298 | the new state is Shrink of the old |
| JavaHeap.Heap.PlaceRest | jvm/MyAlloc.c:299-301 | the new state is PlaceRest of the old |
| JavaHeap.Heap.ZeroBlock | jvm/MyAlloc.c:202-203 | the words become ZeroWords of the old words |
| JavaHeap.Heap.Free | jvm/MyAlloc.c:324-369 | status and new state are FreeSpec of the old state |
| JavaHeap.Heap.PushFree | jvm/MyAlloc.c:362-368 | the block becomes the head, linked to the old head, with the pattern |
| JavaHeap.Heap.Mark | jvm/MyAlloc.c:441-465 | the words become MarkSpec of the old words |
| JavaHeap.Heap.MarkWords | jvm/MyAlloc.c:456-461 | the words become MarkFrom of the old words |
| JavaHeap.Heap.MarkWord | jvm/MyAlloc.c:458-460 | one turn of the scan advances MarkFrom by one word |
| JavaHeap.Heap.SweepBlock | jvm/MyAlloc.c:480-500 | status and new state are SweepStep of the old state |
| JavaHeap.Heap.SweepAt | jvm/MyAlloc.c:480-503 | one turn of the loop: SweepFrom from the next header equals SweepFrom from this one |
| JavaHeap.Heap.Sweep | jvm/MyAlloc.c:468-507 | status and new state are Sweep of the old state |
| JavaHeap.Heap.MarkObjectRoots | jvm/MyAlloc.c:385-396 | the words become MarkObjects of the old words |
| JavaHeap.Heap.MarkStackRoots | jvm/MyAlloc.c:400-406 | the words become MarkStack of the old words |
| JavaHeap.Heap.Collect | jvm/MyAlloc.c:377-414 | status and new state are GcSpec of the old state |
| JavaHeap.Heap.Allocate | jvm/MyAlloc.c:215-316 | result and new state are AllocSpec of the old state |
| JavaHeap.Heap.FinishAllocation | jvm/MyAlloc.c:259-315 | result and new state are AfterSearch of the old state |
| JavaHeap.Heap.CollectAndRetry | jvm/MyAlloc.c:259-275 | result and new state are RetrySpec of the old state |
| HeapShape.FirstInRange | jvm/MyAlloc.c:235-236 | on a well-formed heap the list head is -1 or the offset of the first listed block, a signed 32-bit value |
| HeapShape.HeaderOf | jvm/MyAlloc.c:206-211 | the header of every block of a well-formed heap holds its size in bytes, and the block lies in the arena |
| HeapShape.LinkOf | jvm/MyAlloc.c:256 | a listed block's link reads back as the next listed block's offset, or -1 after the last |
| HeapShape.HeadLink | jvm/MyAlloc.c:283 | the head block's link, read as a signed offset, is the second listed block or -1 |
| HeapShape.ListedSize | jvm/MyAlloc.c:246-253 | a listed block's header is a plausible size: at least MINBLOCKSIZE, a multiple of 4, a signed 32-bit value |
| HeapShape.FreeAccepts | jvm/MyAlloc.c:329-341 | MyHeapFree accepts the pointer after the header of any block of a well-formed heap |
| HeapShape.PrependList | jvm/MyAlloc.c:362-368 | storing the link and the pattern into a block off the list makes it the head of a list one longer, with every header kept |
| HeapShape.ConsList | jvm/MyAlloc.c:362-368 | a block off the list that carries the pattern and links to the head can be put in front of the list |
| HeapShape.FreePrependShape | jvm/MyAlloc.c:362-368 | freeing a block that does not adjoin the head keeps the blocks and puts the block in front of the list |
| HeapShape.MergeHeaders | jvm/MyAlloc.c:353 | growing a header over the next block removes the boundary between them, and the headers match what is left |
| HeapShape.MergeList | jvm/MyAlloc.c:353 | the same store keeps the list, over the boundaries that are left |
| HeapShape.FreeMergeShape | jvm/MyAlloc.c:346-355 | freeing the block right after the head merges the two blocks and keeps the list |
| HeapShape.FreeKeepsShape | jvm/MyAlloc.c:324-369 | MyHeapFree of any block of a well-formed heap that is not free succeeds and leaves it well formed, the block either the new head or absorbed by the head |
| HeapShape.SingleBlockShape | jvm/MyAlloc.c:180-196 | one free block spanning the arena, linked to -1 and carrying the pattern, is a well-formed heap |
| HeapShape.ShapeSearchable | jvm/MyAlloc.c:236-258 | every block on the list of a well-formed heap passes the search's plausibility checks and links to the next |
| HeapShape.SearchOnList | jvm/MyAlloc.c:236-258 | the search along such a list never faults: a miss means no listed block from there on fits; a hit is the first listed block that fits, reached from the one before it |
| HeapShape.ListShort | jvm/MyAlloc.c:236-258 | the free list is no longer than the arena has words, so the search's bound covers it |
| HeapShape.ListedLinkBefore | jvm/MyAlloc.c:282-298 | the word that reaches a listed block is the head for the first, the previous block's link otherwise |
| HeapShape.ShrinkWords | jvm/MyAlloc.c:292-298 | the header becomes the need and the link that reached the block reaches need bytes further; no other word changes |
| HeapShape.PlaceRestWords | jvm/MyAlloc.c:299-301 | the leftover block gets its size, the old link and the pattern; no other word changes |
| HeapShape.SplitCarve | jvm/MyAlloc.c:288-313 | on a split Carve leaves the two headers, the leftover's link and pattern, and the link that reached the block reaching the leftover |
| HeapShape.SplitCarveFrame | jvm/MyAlloc.c:288-313 | no other word changes |
| HeapShape.SplitList | jvm/MyAlloc.c:293-301 | after a split of listed block k the leftover takes its place on the list, with the boundaries gaining the leftover's start |
| HeapShape.SplitWords | jvm/MyAlloc.c:288-313 | the same after CarveZeroed, with every word of the handed-out block after its header 0 |
| HeapShape.SplitFrame | jvm/MyAlloc.c:288-313 | no other word changes |
| HeapShape.CarveWords | jvm/MyAlloc.c:308-313 | Carve is the unlink or split followed by clearing the link and pattern words |
| HeapShape.UnlinkWords | jvm/MyAlloc.c:279-313 | on an unlink the link that reached the block takes its link, the header keeps the whole size and the rest of the block reads 0; no other word changes |
| HeapShape.UnlinkList | jvm/MyAlloc.c:282-285 | after an unlink the list is the old one without the block |
| HeapShape.SplitShape | jvm/MyAlloc.c:288-307 | a split as Carve stores it leaves a well-formed heap, with a new boundary and the leftover in the block's place on the list |
| HeapShape.UnlinkShape | jvm/MyAlloc.c:279-287 | an unlink as Carve stores it leaves a well-formed heap, with the block off the list |
| HeapShape.CarveSplitShape | jvm/MyAlloc.c:288-313 | carving a listed block large enough to split keeps the heap well formed; the handed-out block has the need in its header, zeros after it, and is off the list |
| HeapShape.CarveUnlinkShape | jvm/MyAlloc.c:279-313 | carving a listed block too small to split keeps the heap well formed; the whole block is handed out with its size, zeros after it, and is off the list |
| HeapShape.GainsMasksHeaders | jvm/MyAlloc.c:441-465 | marking keeps every header's size under the mark bit |
| HeapShape.SweptHeader | jvm/MyAlloc.c:480-503 | the header the sweep meets is the block's size, with or without the mark bit |
| HeapShape.SweepClearShape | jvm/MyAlloc.c:497-500 | a marked block is unmarked and joins the swept blocks; the list is unchanged |
| HeapShape.SweepFreeWords | jvm/MyAlloc.c:480-495 | what freeing an unmarked block stores, for either branch of MyHeapFree |
| HeapShape.SweepPrependShape | jvm/MyAlloc.c:480-495 | an unmarked block that does not adjoin the head becomes the head of the rebuilt list |
| HeapShape.SweepMergeShape | jvm/MyAlloc.c:480-495 | an unmarked block right after the head is absorbed by it |
| HeapShape.SweepStepShape | jvm/MyAlloc.c:480-503 | each block of the sweep succeeds, moves on by the block's size and keeps the sweep invariant |
| HeapShape.SweepStartShape | jvm/MyAlloc.c:472-475 | the sweep starts with an empty list and nothing swept |
| HeapShape.SweepTo | jvm/MyAlloc.c:476-506 | the state after sweeping the blocks from a boundary on keeps the arena's size and its words 32-bit |
| HeapShape.SweepFromNext | jvm/MyAlloc.c:503 | after a block that spans words x to e, the walk goes on from e |
| HeapShape.SweepDoneShape | jvm/MyAlloc.c:476 | at the end of the arena the walk stops and the heap is well formed |
| HeapShape.SweepToShape | jvm/MyAlloc.c:476-506 | sweeping every block leaves a well-formed heap |
| HeapShape.SweepShapeAlong | jvm/MyAlloc.c:476-506 | under the sweep invariant every remaining step succeeds |
| HeapShape.SweepFromTo | jvm/MyAlloc.c:476-506 | the sweep loop visits exactly the blocks and ends without a fault |
| HeapShape.GcKeepsShape | jvm/MyAlloc.c:377-414 | gc on a well-formed heap, with any roots, never faults and leaves the heap well formed |
| HeapInvariant.InitialWellFormed | jvm/MyAlloc.c:180-196 | the arena InitMyAlloc sets up is well formed, its single block being the whole free list |
| HeapInvariant.SearchOnShape | jvm/MyAlloc.c:234-258 | on a well-formed heap the search never faults; it misses exactly when no listed block fits, and a hit is the first listed block that fits |
| HeapInvariant.NoneFits | jvm/MyAlloc.c:236-258 | when every listed block is too small, none fits |
| HeapInvariant.HandedOutIntro | jvm/MyAlloc.c:202-211 | a block off the list, cleared after a header that covers the need, is handed out as the comment promises |
| HeapInvariant.CarveOnShape | jvm/MyAlloc.c:279-315 | carving the hit keeps the heap well formed and hands the block out |
| HeapInvariant.CarveSplitHanded | jvm/MyAlloc.c:288-315 | the split case of CarveOnShape |
| HeapInvariant.CarveUnlinkHanded | jvm/MyAlloc.c:279-315 | the unlink case of CarveOnShape |
| HeapInvariant.ShapeHit | jvm/MyAlloc.c:234-315 | a hit on a well-formed heap is the first listed block that fits, and carving it hands it out |
| HeapInvariant.HitCase | jvm/MyAlloc.c:215-315 | the request then returns the pointer after that block's header, handed out, with no collection |
| HeapInvariant.MissCase | jvm/MyAlloc.c:259-267 | a miss after a collection is exhausted, with the words and the list head unchanged |
| HeapInvariant.AllocSearches | jvm/MyAlloc.c:215-259 | a request of a valid size is the search followed by what is done with its outcome, with the probes counted |
| HeapInvariant.AfterHit | jvm/MyAlloc.c:279-315 | what follows a hit is the carved block and the pointer after its header |
| HeapInvariant.MissRetries | jvm/MyAlloc.c:259-275 | a miss before any collection is the retry |
| HeapInvariant.NoGcOnShape | jvm/MyAlloc.c:215-316 | with no collection due, a request on a well-formed heap takes the first listed block that fits, handed out, or is exhausted when none fits; the heap stays well formed and no collection is counted |
| HeapInvariant.RetryCase | jvm/MyAlloc.c:259-275 | the retry on a well-formed heap counts one collection, leaves the heap well formed and either hands a block out or is exhausted |
| HeapInvariant.AllocOnShape | jvm/MyAlloc.c:202-316 | the allocator with the promised zeroing, on a well-formed heap, keeps it well formed and never finds it corrupt; invalid exactly for sizes out of range; the first listed block that fits is taken without a collection; with none fitting one collection runs before the retry, and after it the request is exhausted; a block returned is handed out, sized at least the need, a multiple of 4, cleared after its header and off the list |

## Left out

- Tracing and printing: `printf` and `fprintf` calls, `printBits`, `printStack`, `printHeap`, `PrintHeapUsageStatistics` and the `print*` helpers of the verifier. They only write output.
- `SafeMalloc`, `SafeCalloc`, `SafeFree` and `trackHeapArea` in `MyAlloc.c`. They wrap the C library's allocator, which is not part of this model.
- The `main` of `stack.c`. It is a demonstration that pushes one pointer and prints it.
- `Verify`, `InitVerifier`, `createInitialState` and the signature-to-initial-state mapping. The initial type array is a parameter of `VerifyMethod`.
- `GetCPItemAsString`, `AnalyzeInvoke` and the least upper bound of two reference types are not part of this model. They are function-valued fields of `ClassFile`.
- BytecodeVerifier.Run: the worklist has no bound in the source. The model takes a `fuel` bound, and running out is the outcome `OutOfFuel`.
- FreeList.Search: the source walks a cyclic list forever. The model stops after one probe more than the arena has words and reports `Unending`.
- HeapWords.At and HeapWords.Put: reads outside the arena give 0 and stores there are dropped. The source reads and writes whatever memory is there.
- Collector.SweepFrom: a block of size 0 makes the source loop forever, and one not a multiple of 4 makes it read misaligned headers. The model stops with `Unending` or `Misaligned`.
- A successor outside the instruction table, which the source updates through an out-of-bounds pointer: the model fails the step.
- TransferObject: invoke* and putstatic/putfield fail when their pops go below the stack. The source has no underflow check there. Since the stack sits right after the locals in the type array, it reads and overwrites the last locals and may accept the method. `InvokeAsWritten` and `PutAsWritten` model the unchecked code on heights down to -maxLocals, `InvokeUnderflowChecked` and `PutUnderflowChecked` state the one difference, and the Findings table records it. Pops past the start of the type array are failures in both.
- TransferObject also fails a getstatic, getfield or invoke* whose push would go past the end of the type array, for the reasons on the PushField line.
- TransferObject: a getstatic or getfield whose constant-pool string has no ':' fails, through AfterColon. The source (`Verifier.c:1356`, `1379`) passes `strchr(...) + 1`, that is `NULL + 1`, to `SafeStrdup`, which dereferences it: undefined behaviour, not a verifier error.
- TransferPut: the same for putstatic and putfield (`Verifier.c:1399`). Besides, it fails when its pops go below the stack, where the source has no underflow check (the TransferObject line above and the third Findings row).
- PushField: a getstatic or getfield whose pushed value would end above `maxStack` fails. The source (`Verifier.c:1358-1365`, `1383-1390`) has no `checkStackOverflow` there and writes past the end of the type array, an out-of-bounds write the model does not describe. That every successful transfer leaves a well-formed frame holds for these opcodes only because of this failure.
- PushReturn: the same for the value an invoke* pushes (`Verifier.c:1448-1460`).
- TransferInvoke: besides the underflow check on the TransferObject line, it fails when the return value's push would go past the end of the type array, which the source performs unchecked.
- LoosePush: the as-written push also fails past the end of the type array, since what the out-of-bounds write does is not modelled; so LoosePushReturn and InvokeAsWritten fail there too.
- Store: an `_n` store whose index lies past the whole type array fails. The source (`Verifier.c:715-774`) writes there unchecked. An index past `maxLocals` but inside the type array is modelled as written (OpcodeFacts.LstoreNWritesPastLocals).
- HasOperands: an opcode whose inline operand bytes would lie past the end of the code fails. The source reads `code[ipos+1]` and `code[ipos+2]` past `code_length`.
- TagAt: a constant-pool index past the tag table reads the invalid tag 0, so the check on it fails. The source reads `cp_tag` past its end.
- TransferArrayLoad: aaload on a tag shorter than two characters (the tag "A", which the reference check accepts as "A[A") fails. The source takes `&stackbase[...][2]`, past the end of that string.
- InitialTable: it requires at least one code byte. With `code_length` 0 the source writes entry 0 of an empty table.
- AllocSpec: for sizes 0x7FFFFFF9 to MAXBLOCKSIZE the source computes `diff` (`MyAlloc.c:254`) with a signed overflow, which C leaves undefined. The model takes the wrap-around outcome, a miss on every block, which is also what the corrected NeededSize gives.
- AllocSpec: a hit is carved by FreeList.CarveZeroed, the corrected zeroing of the second Findings row. The source leaves the words of the block from offset +12 on as they were (`MyAlloc.c:308`, `313`).
- AfterSearch: the same; its hit case uses CarveZeroed.
- JavaHeap.Heap.Allocate: through FinishAllocation it hands out a block cleared after its header, where MyHeapAlloc clears only two words.
- FinishAllocation: on a hit it calls ZeroBlock after the carve, which the source does not do.
- ZeroBlock: it models the promise in the comment at `MyAlloc.c:202-203`, not code of the source.
- AllocMeaning: it holds on any arena of 32-bit words and so does not state the returned block's header or that it is the first fit. Those are stated on a well-formed heap by HeapInvariant.AllocOnShape.
- AfterSearchMeaning: the same; the hit case on a well-formed heap is HeapInvariant.NoGcOnShape.
- RetryMeaning: the same; the retry on a well-formed heap is HeapInvariant.RetryCase.
- JavaHeap.Heap.Valid: the class invariant holds only 32-bit words and the size bound. Well-formedness and its preservation are proved on values, by HeapShape and HeapInvariant about the functions the methods are proved equal to.
- The state after a failure: the source exits the process, so the model does not describe the table or heap left behind.
- BytecodeVerifier.MergeLimit: the loop of `mergeState` (`Verifier.c:157`) tests the current slot's first character before `i < typeArrLen`. So when no slot of the current state is "-", it reads `state[typeArrLen]`, one past the array `copyState` allocates (`Verifier.c:100`). The model stops at the length, and what that read would find is not modelled.
- BytecodeVerifier.FindChangedInstruction: `numchecked` is uninitialised in the source; the model starts it at 0.
- The statistics counters (`long` and `int` in the source) are unbounded integers.
- `REAL_HEAP_POINTER(o)` is taken to be `HeapStart + o`, with `HeapStart` word aligned.
- JavaHeap.Heap.constructor: it requires a heap size from 12 to 0x7FFFFFFF. A failed `calloc` is not modelled.
- JavaHeap.Heap.Allocate: the static `gcAlreadyPerformed` flag is a parameter, false on every call from outside.
- The roots of gc are inputs: `Fake_System_Out` and the loaded class files as `objects`, and the interpreter stack's values, top first, as `stack`.
- Collector.GcSpec: that every root survives a collection is not proved. Only the closure of mark and the clearing of marks by sweep are proved.
- PointerStack: pointers are natural numbers, with 0 as null.

## Findings

| source | as written | input that shows it | evidently intended | confidence | as-written member | corrected member |
|---|---|---|---|---|---|---|
| jvm/MyAlloc.c:220 | `(size + 4 + 3) & 0xfffffffc` is an unsigned 32-bit value stored into an `int`; for sizes from 0x7FFFFFF9 up to MAXBLOCKSIZE it becomes -2^31 | size = 0x7FFFFFF9, which passes the range check of line 224 | the size plus the 4-byte header, rounded up to a multiple of 4 | not executed; follows from the C conversion rules | FreeList.NeededSizeCounterexample | FreeList.NeededSize |
| jvm/MyAlloc.c:202-203 | the comment on `MyHeapAlloc` promises a block "initialized to hold zeros", but lines 308 and 313 clear only the link word and the pattern word; a block that was freed or swept keeps its old contents from its third data word on, and the next allocation hands them out | a free list holding one 24-byte block whose fourth word is 7, and a request of 12 bytes: the block is too small to split, is handed out whole, and its fourth word still reads 7 | every word of the handed-out block after its header reads 0 | not executed; follows from lines 279-313 | FreeList.CarveLeavesStaleWords | FreeList.CarveZeroed |
| jvm/Verifier.c:1396-1466 | putstatic, putfield and invoke* pop their operands with no `checkStackUnderflow`; below height 0 the pops read and overwrite the last local slots, since the stack starts right after the locals | max_locals 1, max_stack 1, initial type array ["I", "-"], code `b8 00 01 b1` (invokestatic of a method taking one int and returning void): the pop leaves height -1 and local 0 overwritten, and the method can be accepted | those opcodes fail when their operands are not all on the stack, as every other opcode does | not executed; follows from lines 1396-1466 and line 282 | OpcodeFacts.UncheckedPopsAccepted | OpcodeFacts.InvokeUnderflowChecked |
