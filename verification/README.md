# Subzero: models and proofs

Dafny models of five parts of the Subzero code generator and of its tools, each proved against a plain
statement of what it is for. `dafny verify dfyconfig.toml` checks everything.

**Branches in the integrated assemblers** (x86, ARM32, MIPS32). A forward branch is emitted before its
target is known; until then its displacement field holds a link to the previous branch to the same label.
`bind` walks that chain and overwrites each link with the real distance. The three back ends encode the
link in three different ways. `BranchEncoding` has the fields and their inverses, `BranchLinking` the
invariant of a growing buffer full of chains, `BranchRuns` the theorems about whole runs, `BranchDecoding` what
a processor decodes of the finished code, and
`AssemblerBuffers`, `Assemblers`, `AssemblersX86`, `AssemblersARM32` and `AssemblersMIPS32` the objects
whose methods change state in place. `Bundles` is the sandboxed x86 emission around them: measure in a
preliminary pass, roll back, pad with nops, emit again. `VectorPseudosARM32` has the ARM pseudo-instructions
that overwrite a vector register in steps.

**AddressSanitizer**. `AsanShadow` gives the shadow encoding its meaning, `AsanMemory` memory as bytes with
the words the runtime keeps in it, `AsanHeap` and `AsanRuntime` the allocator with redzones and a
first-in-first-out quarantine, amid shadow that belongs to others, `AsanInstrumentation` the stack redzones
the compiler poisons and clears again, and `AsanGlobals` the redzones of globals, from the compiler's tables
to the start-up loop that reads them. `AsanPrograms` puts them together: in every run of a program the one
shadow answers whether a byte is in a live object, be it a block, a global or a variable of an active
function. `AsanContents` has what a program finds in those objects: the allocator's own words never get into
them, `calloc` leaves zeros and `realloc` the old bytes. `AsanStaleTail` has the runs for which that fails.

**Bisection**. `Bisection` has the recursive search for a failing set, its loops and recursion as methods,
and what it finds, misses and costs for every oracle.

**Bit vector**. `Words` has machine words, masks and shifts; `BitVectors` the vector in place.

**Bitstream**. `BitCursor` has the buffered word, `Abbreviations` what an abbreviation accepts and what
simplifying keeps, `BitcodeFields` what reading and skipping do, `BitcodeEncoding` the format as an encoder,
written from the LLVM Bitcode File Format ("Variable Width Integers", "Abbreviated Record Encoding",
"DEFINE_ABBREV Encoding"), and `BitstreamReaders` the reader object.

Some claims one would expect are false of the code, and each is replaced by the exact condition under which
it holds. Growing a bit vector loses its contents (`BitVectors.ResizeKeeps`). Poisoning an empty range is not
a no-op (`AsanShadow.EmptyPoisonSpills`). The access check never looks at a second granule
(`AsanShadow.CheckExact`). A freed block over the quarantine limit leaves the tail of the list at memory that
has gone back to the system, and the next free writes a link there: `AsanRuntime.StaleFreeExact` says when
that does no harm to a heap and the objects beside it, `AsanContents.ReleaseExact` when a program may free,
and the inputs are `AsanStaleTail.StaleTailHarms`, where the link breaks another block, and
`AsanStaleTail.LinkOverVariable`, where it overwrites a variable. Padding a bundle can make the code inside
it longer than the bundle (`Bundles.RegionInBundle`, with the input in `Bundles.PaddingMayOverflow`). Asked
for all failures, the bisection's groups need not be minimal (`Bisection.MinimalOnlyForOne`), and it reports
every minimal failing set exactly where those sets lie apart in its halvings (`Bisection.CompleteExactly`),
so on every oracle exactly when there are at most two items (`Bisection.CompleteOnlyForTwo`, with the input
in `Bisection.PairMissed`). On a passing interval that is not empty it never ends (`Bisection.EndsExactly`).

## Model

| member | source | states |
|---|---|---|
| BranchEncoding.ArmDecodeEncode | src/IceAssemblerARM32.cpp:521-538 | Decoding a branch offset inverts encoding it if and only if the encoder's assertions hold: 4-aligned and within 26 signed bits after the bias. |
| BranchEncoding.MipsDecodeEncode | src/IceAssemblerMIPS32.cpp:106-121 | The same for the 16-bit field of MIPS32, with its own bias. |
| BranchEncoding.PatchLands | src/IceAssemblerARM32.cpp:772-783 | A patched branch word targets the bound position if and only if the distance meets the assertion of its instruction set, for all three; condition, opcode and registers are kept in any case. |
| BranchEncoding.LinkReadsBack | src/IceAssemblerMIPS32.cpp:184-205 | A link stored in a branch field reads back if and only if it is encodable and, on MIPS32, is not the distance 0 that ends a chain. |
| BranchLinking.NearLands | src/IceAssemblerX86BaseImpl.h:3855-3861 | A one-byte jump goes to the bound position if and only if the distance fits 8 signed bits. |
| BranchLinking.SlotsAscend | src/IceAssemblerMIPS32.cpp:1191-1240 | Slots of a label never overlap and ascend; on MIPS32 the delay slot keeps them 8 bytes apart, so the terminator is never a link. |
| BranchLinking.PatchHead | src/IceAssemblerARM32.cpp:772-783 | One round of a binding loop: the head of the chain is the latest slot, and after overwriting it the link read before leads to a chain of exactly the remaining slots. |
| BranchLinking.PatchWordsEffect | src/IceAssemblerX86BaseImpl.h:3846-3854 | After the walk each slot holds the displacement for the word it held before, and no other byte has changed. |
| BranchLinking.PatchNearEffect | src/IceAssemblerX86BaseImpl.h:3855-3861 | The same for the one-byte slots. |
| BranchLinking.BindEffect | src/IceAssemblerX86BaseImpl.h:3846-3863 | Binding a label visits exactly the branches to it, wide and near, and changes no byte outside their fields. |
| BranchLinking.BindFrame | src/IceAssembler.h:67-97 | Binding one label changes no field of a branch to any other label, linked or resolved. |
| BranchLinking.BindTarget | src/IceAssemblerX86BaseImpl.h:3846-3863 | After binding, every branch to the label recorded so far lands on it. |
| BranchLinking.StepSound | src/IceAssemblerX86BaseImpl.h:3587-3663 | Every step of every back end that its assertions allow (an instruction, a relocation, a branch, a binding) keeps the whole invariant: chains, landed branches, disjoint fields, unchanged text. |
| BranchRuns.BranchLands | src/IceAssembler.h:67-97 | In every run of every back end, any branch whose label is bound anywhere in the run, before or after it, ends up going to where the label was bound, with the opcode it was emitted with. |
| BranchRuns.PlainBytesStay | src/IceAssemblerX86BaseImpl.h:3846-3863 | In every run each byte outside branch fields ends as it was emitted, whatever is bound later. |
| BranchRuns.FixupsExact | src/IceAssembler.cpp:49-62 | After any run the fixups are the positions of its relocated words, each where it lies in its instruction, in order. |
| BranchRuns.FixupKept | src/IceAssembler.cpp:49-62 | At each of them the finished code has the word that was emitted, whatever was bound since. |
| BranchDecoding.X86JumpDecodes | src/IceAssemblerX86BaseImpl.h:3587-3663 | In every x86 run, decoding the finished bytes at a jump as a processor does gives that jump, with its condition, to its label's position; to a label placed before it takes 2 bytes if and only if 8 bits reach it, to one placed later if and only if it was asked to be near, and otherwise 5 or 6. |
| BranchDecoding.PlacedExactly | src/IceAssemblerX86BaseImpl.h:3846-3861 | Below 2 GB an unplaced label can be placed if and only if every jump to it that was asked to be near is near enough; one that was not asked to be never stops it. |
| BranchDecoding.ArmBranchDecodes | src/IceAssemblerARM32.cpp:886-909 | In every ARM32 run the finished word at a branch decodes to a branch with its condition, linking if and only if asked to, to its label's position. |
| BranchDecoding.MipsBranchDecodes | src/IceAssemblerMIPS32.cpp:1191-1240 | In every MIPS32 run the finished word at a branch decodes to a branch to its label's position, with a nop behind it; it is taken, for any contents of the registers, exactly when its condition holds, if and only if it was given registers that fit the condition (no second one for a test against zero). |
| AssemblerBuffers.AssemblerBuffer.EnsureCapacity | src/IceAssembler.h:148-160 | The code is unchanged and the longest instruction fits without another check. |
| AssemblerBuffers.AssemblerBuffer.ExtendCapacity | src/IceAssembler.cpp:113-139 | A larger area holds the same code; it doubles or grows by a megabyte, whichever is less. |
| AssemblerBuffers.AssemblerBuffer.Emit32 | src/IceAssembler.h:113-117 | Within the room at hand the code is extended by the word's bytes, lowest first. |
| AssemblerBuffers.AssemblerBuffer.Write32 | src/IceAssembler.h:127-131 | Overwrites four bytes of the code at any, also unaligned, position and no others. |
| AssemblerBuffers.AssemblerBuffer.SetSize | src/IceAssembler.h:200-203 | Rolling back leaves exactly the earlier bytes. |
| Assemblers.Label.LinkTo | src/IceAssembler.cpp:38-47 | A link is recorded in the final pass only, and not for an instruction that needs a text fixup; otherwise the label keeps its value. |
| Assemblers.Label.NearLinkTo | src/IceAssemblerX86Base.h:129-135 | The same for near positions. |
| Assemblers.Assembler.EmitInst | src/IceAssembler.h:148-167 | An instruction is appended; in a preliminary pass nothing but the buffer changes. |
| Assemblers.Assembler.EmitReloc | src/IceAssembler.cpp:49-62 | An instruction with a relocated word anywhere in it records its fixup at the word's position, in the final pass only. |
| Assemblers.Assembler.Rollback | src/IceAssembler.h:200-203 | After any preliminary emission, rolling back leaves code, labels and fixups where the run was. |
| AssemblersX86.PatchChain | src/IceAssemblerX86BaseImpl.h:3846-3854 | The first binding loop, following links through the code it overwrites, terminates and patches exactly the slots of the chain. |
| AssemblersX86.PatchNearSlots | src/IceAssemblerX86BaseImpl.h:3855-3861 | The second binding loop patches exactly the near slots and empties the list. |
| AssemblersX86.BindLabel | src/IceAssemblerX86BaseImpl.h:3846-3863 | `bind` is the binding step of the run, and the label becomes bound at the end of the code. |
| AssemblersX86.JumpAllowed | src/IceAssemblerX86BaseImpl.h:3587-3663 | Below 2 GB no jump can violate an assertion: every choice of form is encodable. |
| AssemblersX86.Jump | src/IceAssemblerX86BaseImpl.h:3587-3618 | A jump is one branch step: short or long by distance when bound, linked as asked when not; in a preliminary pass it has the same size and no other effect. |
| AssemblersX86.J | src/IceAssemblerX86BaseImpl.h:3587-3618 | The conditional jump with its two opcodes. |
| AssemblersX86.Jmp | src/IceAssemblerX86BaseImpl.h:3642-3663 | The unconditional jump with its two opcodes. |
| AssemblersARM32.EmitBranch | src/IceAssemblerARM32.cpp:886-909 | A branch is one branch step of 4 bytes, by displacement to a bound label and by stored position to another. |
| AssemblersARM32.PatchChain | src/IceAssemblerARM32.cpp:772-783 | The loop of `bind`, which reads each word's link before overwriting it, patches exactly the chain. |
| AssemblersARM32.BindLabel | src/IceAssemblerARM32.cpp:772-783 | `bind` is the binding step of the run. |
| AssemblersMIPS32.BranchTo | src/IceAssemblerMIPS32.cpp:425-439 | `b`, `bcc` and `bzc` are one branch step of 8 bytes, with a nop in the delay slot. |
| AssemblersMIPS32.EmitTo | src/IceAssemblerMIPS32.cpp:1191-1240 | The branch holds the distance to a bound label, or else the distance to the branch linked before it, and the label is left linked to it in the final pass only. |
| AssemblersMIPS32.EmitBr | src/IceAssemblerMIPS32.cpp:1191-1269 | The branch word is followed by the nop of its delay slot, always. |
| AssemblersMIPS32.PatchChain | src/IceAssemblerMIPS32.cpp:191-205 | The loop of `bind`, led by relative distances and ended by the distance 0, patches exactly the chain. |
| AssemblersMIPS32.BindLabel | src/IceAssemblerMIPS32.cpp:191-205 | `bind` is the binding step of the run. |
| Bundles.Measure | src/IceCfgNode.cpp:1203-1214 | A preliminary pass over any instructions gives the position they would end at and, rolled back, leaves the code, every label and the fixups as they were. |
| Bundles.PadWithNop | src/IceAssemblerX86Base.h:157-164 | Padding of any length is emitted as nops of at most 8 bytes that add up to it. |
| BranchDecoding.PaddingIsNops | src/IceAssemblerX86BaseImpl.h:3508-3568 | Padding of any length decodes, as a processor does, to nothing but nops that add up to it. |
| Bundles.Align | src/IceAssemblerX86BaseImpl.h:3827-3843 | Emits exactly the padding that the least aligning length asks for, as nops, with no other effect. |
| Bundles.AlignPaddingLeast | src/IceAssemblerX86BaseImpl.h:3827-3843 | The padding aligns the position counted from the offset, and no shorter one does. |
| Bundles.EmitBundle | src/IceCfgNode.cpp:1321-1378 | Measuring, rolling back, padding and emitting again makes the same run as emitting the nops and the region outright. |
| BranchDecoding.BundleLayout | src/IceCfgNode.cpp:1321-1378 | The emitted bundle is nops, then the region exactly where the padding puts it, then nops to the end asked for. |
| Bundles.RegionLength | src/IceCfgNode.cpp:1209-1214 | The emitted region is exactly as long as it measures at the position it is emitted at. |
| Bundles.PaddingLeast | src/IceCfgNode.cpp:1218-1251 | Padding is never longer than it has to be: any that keeps a region in one bundle, ending with it if asked to, or that ends a bundle behind it, is at least as long. |
| Bundles.SizesGrow | src/IceAssemblerX86BaseImpl.h:3587-3618 | Further from the labels behind it a region never gets smaller. |
| Bundles.BundleEnds | src/IceCfgNode.cpp:1242-1251 | The code ends behind the region or, if asked for, on a bundle boundary. |
| Bundles.MovedRegion | src/IceAssemblerX86BaseImpl.h:3587-3618 | Some bytes further on, a region takes exactly what its jumps lose more: 4 bytes for each conditional and 3 for each other jump that was in 8-bit reach of its label at its first-pass position and, with what was lost before it, no longer is. |
| Bundles.SizeKept | src/IceAssemblerX86BaseImpl.h:3642-3663 | It keeps its size if and only if no jump in reach at its first-pass position is out of reach that many bytes further on. |
| Bundles.RegionInBundle | src/IceCfgNode.cpp:1218-1241 | A region measured at no more than a bundle lies in one bundle: to end with the bundle, if and only if no jump loses its reach to the padding, and then it ends with it; otherwise if and only if there is no padding or what its jumps lose still leaves it a bundle's size. |
| Bundles.ForwardRegionInBundle | src/IceCfgNode.cpp:1335-1340 | A region whose longest form fits a bundle lies in one; if it cannot grow it also ends with it, asked to. |
| Bundles.NoJumpsInBundle | src/IceCfgNode.cpp:1335-1340 | A region measured at no more than a bundle and without jumps to bound labels always lies in one bundle and, asked to, ends with it. |
| Bundles.SingleInBundle | src/IceCfgNode.cpp:1366-1378 | Any single instruction lies within one bundle, even a jump that the padding lengthened. |
| Bundles.PaddingMayOverflow | src/IceCfgNode.cpp:1333-1340 | The input that fails: two 14-byte instructions and a jump, 30 measured bytes, padded by 16, become 34 because the jump no longer reaches in 8 bits, against the assertion after the second pass. |
| Bundles.OverflowReachable | src/IceCfgNode.cpp:1333-1340 | A run reaches that input. |
| VectorPseudosARM32.VectorAssembler.Vmovlq | src/IceAssemblerARM32.cpp:3551-3568 | For every choice of registers, equal ones included, the destination is the low half of the second source under the high half of the first, and no other register changes. |
| VectorPseudosARM32.VectorAssembler.Vmovhq | src/IceAssemblerARM32.cpp:3570-3587 | The same with the low half of the first and the high half of the second. |
| VectorPseudosARM32.VectorAssembler.Vmovhlq | src/IceAssemblerARM32.cpp:3589-3606 | The same with the high halves of the second and the first. |
| VectorPseudosARM32.VectorAssembler.Vmovlhq | src/IceAssemblerARM32.cpp:3608-3625 | The same with the low halves of the first and the second. |
| VectorPseudosARM32.VectorAssembler.Vzip | src/IceAssemblerARM32.cpp:3480-3519 | For every choice of registers and element size, the destination is the elements of the two low halves in turn. |
| VectorPseudosARM32.InterleavedByte | src/IceAssemblerARM32.cpp:3480-3519 | Interleaving puts the elements of the first source at even places and those of the second at odd ones, in order, each with its bytes together. |
| VectorPseudosARM32.TransposeInterleaves | src/IceAssemblerARM32.cpp:3510-3518 | On two elements the transpose used for 32-bit elements is the interleaving. |
| VectorPseudosARM32.VectorAssembler.Vqmovn2 | src/IceAssemblerARM32.cpp:3878-3925 | For every choice of registers and every way of narrowing, the destination is the first source narrowed under the second; the step order avoids every overwrite. |
| AsanShadow.PoisonMeans | runtime/szrt_asan.c:295-306 | Poisoning makes exactly the bytes of a non-empty range inaccessible, those before it in a shared granule accessible, and touches no other granule. |
| AsanShadow.EmptyPoisonSpills | runtime/szrt_asan.c:295-306 | Poisoning stays within the granules of its range if and only if the range is not empty. |
| AsanShadow.UnpoisonMeans | runtime/szrt_asan.c:308-317 | Clearing a non-empty range makes its granules accessible and touches no other. |
| AsanShadow.ObjectByte | runtime/szrt_asan.c:132-143 | Under an object's shadow exactly the object's bytes are accessible. |
| AsanShadow.CheckIsFirstGranule | runtime/szrt_asan.c:132-143 | The check passes if and only if the bytes of the access in its first granule are accessible. |
| AsanShadow.CheckExact | runtime/szrt_asan.c:132-143 | The check of an address and size answers for every byte on every shadow if and only if the access stays within one granule. |
| AsanShadow.AlignedCheckExact | runtime/szrt_asan.c:132-143 | For a naturally aligned access the check passes if and only if every byte is accessible. |
| AsanShadow.LoadCheckExact | runtime/szrt_asan.c:154-161 | An aligned load check of a word answers for its first byte, of any other size for every byte. |
| AsanShadow.Poison | runtime/szrt_asan.c:295-306 | The stores change the shadow as poisoning a range is specified to. |
| AsanShadow.Unpoison | runtime/szrt_asan.c:308-317 | The same for clearing. |
| AsanHeap.ByteAccess | runtime/szrt_asan.c:197-219 | A byte of a block is accessible if and only if a live block serves it, any other byte as the shadow around the heap says. |
| AsanHeap.BlockLeast | runtime/szrt_asan.c:197-206 | A block is the least whole number of granules that holds its bytes between two redzones. |
| AsanHeap.HeapCheckExact | runtime/szrt_asan.c:132-143 | An aligned strict check of memory the allocator holds passes if and only if live blocks serve all its bytes. |
| AsanHeap.AllocatedShadows | runtime/szrt_asan.c:197-219 | Poisoning the two redzones is enough: because the shadow is clear where blocks are handed out, user bytes need no clearing. |
| AsanHeap.QuarantinedShadows | runtime/szrt_asan.c:249-271 | Poisoning the whole block makes the shadow that of a heap with the block in quarantine. |
| AsanHeap.EvictedShadows | runtime/szrt_asan.c:281-291 | Clearing the oldest block makes the shadow that of a heap without it. |
| AsanHeap.ShadowsUnique | runtime/szrt_asan.c:197-293 | The heap and the shadow around it determine every granule of the shadow. |
| AsanHeap.EvictsNoMoreThanNeeded | runtime/szrt_asan.c:281-291 | Eviction stops at the first moment the rest is within the limit. |
| AsanHeap.NewestSurvives | runtime/szrt_asan.c:281-291 | The block just freed stays in quarantine if it fits the limit by itself, and otherwise the quarantine is emptied. |
| AsanHeap.AllocatedMetadata | runtime/szrt_asan.c:214-218 | The words stored in the redzones record the new block and disturb no other block's words. |
| AsanHeap.EntryMetadata | runtime/szrt_asan.c:265-269 | The entry written into the freed block is a queue of one and disturbs no other block's words. |
| AsanHeap.LinkedMetadata | runtime/szrt_asan.c:273-275 | The link from the block that was last makes the words in the redzones a list of the quarantine, oldest first. |
| AsanHeap.EvictedMetadata | runtime/szrt_asan.c:282-288 | The head's words give its size and the next entry, and dropping it leaves such a list. |
| AsanHeap.DoubleFreeSeen | runtime/szrt_asan.c:253-258 | The first user granule says freed if and only if the block is not live. |
| AsanHeap.UnheldIsHarmless | runtime/szrt_asan.c:273-274 | As far as blocks go, a link written where no block is does no harm. |
| AsanRuntime.RequestHolds | runtime/szrt_asan.c:199-206 | The block asked of the system holds both redzones and all bytes served if and only if the padded sum does not wrap 32 bits. |
| AsanRuntime.MallocSound | runtime/szrt_asan.c:197-219 | In any state that means a heap, a fresh block joins it: shadow, metadata and queue stay the heap's, and no live block's bytes change. |
| AsanRuntime.EvictSound | runtime/szrt_asan.c:281-291 | The loop follows the list in memory, never runs off it, and evicts the oldest blocks and no more. |
| AsanRuntime.FreeSound | runtime/szrt_asan.c:249-293 | Freeing a live block quarantines it, evicts old ones and changes no other live block's bytes, also with a stale tail where that is harmless to blocks; a block over the limit leaves the tail stale. |
| AsanRuntime.FreeOutside | runtime/szrt_asan.c:249-293 | A free changes no byte outside the blocks the allocator holds, but the four at a stale tail. |
| AsanRuntime.DoubleFreeReported | runtime/szrt_asan.c:253-258 | A block in quarantine is reported and nothing changes. |
| AsanRuntime.StaleFreeExact | runtime/szrt_asan.c:265-277 | After a block over the limit was freed, the next free, of any block under 2 GB, keeps all metadata, every live byte and every byte of any objects outside the heap, whatever memory holds, if and only if the four bytes at the stale base are none of those objects', are not the new entry, nor a live block's first word or user bytes, and do not overwrite its size with other bytes. |
| AsanRuntime.CallocSound | runtime/szrt_asan.c:221-226 | A block of the wrapped product joins the heap with all its bytes 0; out of memory the call faults if there is something to clear and otherwise gives null and changes nothing. |
| AsanRuntime.ReallocSound | runtime/szrt_asan.c:228-247 | Size 0 frees, the same size is kept, out of memory changes nothing; otherwise all bytes of the smaller size are copied, the old block released, and no other live block's bytes change. |
| AsanRuntime.ReallocNullSound | runtime/szrt_asan.c:228-230 | `realloc` of null gives a fresh block that joins the heap, and changes no live block's bytes; where memory is out it gives null and changes nothing. |
| AsanRuntime.ReallocOutside | runtime/szrt_asan.c:228-247 | A `realloc` changes no byte outside the blocks the allocator holds and the new one, but the four at a stale tail. |
| AsanRuntime.Runtime.Malloc | runtime/szrt_asan.c:197-219 | The method takes every size and state as the specified call does, and any heap the state means to that heap with the block. |
| AsanRuntime.Runtime.Calloc | runtime/szrt_asan.c:221-226 | The method is the specified call, and gives a zeroed block to any heap the state means. |
| AsanRuntime.CallocServes | runtime/szrt_asan.c:221-226 | All bytes asked for are served if and only if the product fits a `size_t`. |
| AsanRuntime.Runtime.Realloc | runtime/szrt_asan.c:228-247 | The method is the specified call, in every state; of null, in a state that means a heap, it gives a fresh block. |
| AsanRuntime.Runtime.Free | runtime/szrt_asan.c:249-293 | The method is the specified call, in every state, stale tails included; null is ignored and changes nothing; in a state that means a heap it quarantines a live block and evicts. |
| AsanRuntime.Runtime.Evict | runtime/szrt_asan.c:281-291 | The loop over the words in memory is the specified eviction. |
| AsanRuntime.Runtime.Check | runtime/szrt_asan.c:132-143 | In any state that means a heap, amid any other shadow, an aligned check of held memory passes if and only if live blocks serve it. |
| AsanPrograms.AroundByte | src/IceASanInstrumentation.cpp:218-339 | The shadow of globals and of any stack of active frames lets a byte of theirs be accessed if and only if a global or an active variable has it. |
| AsanPrograms.RunMeans | runtime/szrt_asan.c:169-317 | Start-up, then `malloc`, `calloc`, `realloc` of a block or of null, `free`, functions entered and left and bytes of live objects written, in any order: no call gets stuck, and the code's shadow, memory, head, tail and size go on meaning the program's objects. |
| AsanPrograms.RunByteExact | runtime/szrt_asan.c:132-143 | After any run every byte of memory is accessible if and only if it is in a live block, a global or an active variable, or belongs to none of the allocator, the globals and the frames. |
| AsanPrograms.RunCheckExact | runtime/szrt_asan.c:132-143 | After any run the check of an access within a granule passes if and only if that holds of all its bytes. |
| AsanPrograms.QuarantineIsFifo | runtime/szrt_asan.c:265-292 | After any run, following the links in memory from the head visits exactly the latest blocks ended by `free` or `realloc`, in order, of as many bytes as counted, within the limit, ending at the tail. |
| AsanContents.StepKeeps | runtime/szrt_asan.c:197-293 | No call, entry or return changes a byte that is in a live object (block, global or active variable) before and after it; a `realloc` that fails or keeps the size changes none at all. |
| AsanContents.RunKeeps | runtime/szrt_asan.c:197-293 | So in every run, a live byte changes only when the program writes it. |
| AsanContents.RunReads | runtime/szrt_asan.c:197-293 | After any run every live byte has the value that was last written there, or what a global held at the start, 0 where `calloc` made it, or what `realloc` carried over from the old block, through any number of moves; `malloc` and new variables promise nothing until they are written. |
| AsanContents.ReleaseExact | runtime/szrt_asan.c:249-293 | In any state that means a program's objects, freeing a block of the allocator's leaves a state that means the other objects and changes none of their bytes, whatever memory holds, if and only if it is live, under 2 GB, and the word at a stale tail is harmless to other blocks and in no global or active variable. |
| AsanStaleTail.ReusedRun | runtime/szrt_asan.c:273-277 | A program can free a block over the limit and be handed its memory again, and then the next free is not harmless. |
| AsanStaleTail.StaleTailHarms | runtime/szrt_asan.c:249-293 | The run that fails: two frees of live blocks from there leave byte 500, which neither block has, poisoned. |
| AsanStaleTail.OverlaidRun | runtime/szrt_asan.c:273-277 | A program can also enter a function with a variable where that block was: the next link would harm no block, and still the free is not permitted. |
| AsanStaleTail.LinkOverVariable | runtime/szrt_asan.c:273-274 | The run that fails: from there freeing a block at 2000 leaves the word 2000 in the live variable at 1000. |
| AsanInstrumentation.AllocaBytesHold | src/IceASanInstrumentation.cpp:278-280 | The 32-bit alloca size holds the variable and its redzone if and only if the sum does not wrap. |
| AsanInstrumentation.AllocaLeast | src/IceASanInstrumentation.cpp:274-284 | A variable's alloca is the least multiple of the redzone size that holds it and a redzone. |
| AsanInstrumentation.VariableEntriesExpand | src/IceASanInstrumentation.cpp:285-292 | Where it does not wrap, the runs pushed for a variable expand to its shadow. |
| AsanInstrumentation.VariableRuns | src/IceASanInstrumentation.cpp:285-292 | No run is empty, even where it wraps. |
| AsanInstrumentation.TakeWord | src/IceASanInstrumentation.cpp:311-322 | The inner loop takes the next four values off the runs, decrementing them in place, and pads with 0. |
| AsanInstrumentation.PackEntries | src/IceASanInstrumentation.cpp:308-337 | The loop consumes every run exactly and gives the stores of the packed shadow. |
| AsanInstrumentation.PackStores | src/IceASanInstrumentation.cpp:308-337 | There is one store for each word of the shadow that is not 0, and none for the others. |
| AsanInstrumentation.PackOrdered | src/IceASanInstrumentation.cpp:308-337 | The stores are at ascending word offsets. |
| AsanInstrumentation.PackWrites | src/IceASanInstrumentation.cpp:323-336 | Over a clear shadow the stores give every granule its value although zero words are skipped. |
| AsanInstrumentation.ClearedRestores | src/IceASanInstrumentation.cpp:460-469 | The stores replayed at a return clear all of it, although only the stored words are cleared. |
| AsanInstrumentation.InstrumentFuncStart | src/IceASanInstrumentation.cpp:218-339 | For any 32-bit sizes the new allocas and stores are those of the runs, and where no size wraps those of the frame's layout; a function without constant allocas is left alone. |
| AsanInstrumentation.VariablePlaced | src/IceASanInstrumentation.cpp:218-309 | Placed in order at their alignment, the new allocas are the left redzone and then each variable's, where its shadow is made for. |
| AsanInstrumentation.VariablesApart | src/IceASanInstrumentation.cpp:274-284 | Every variable has at least a whole redzone on both sides, within the allocas. |
| AsanInstrumentation.FramePoisoned | src/IceASanInstrumentation.cpp:218-339 | From entry to return: a byte of the frame is accessible if and only if it belongs to a variable, no other shadow changes, and the return restores the shadow. |
| AsanGlobals.InstrumentGlobals | src/IceASanInstrumentation.cpp:104-193 | The loop lays out one left redzone, global and right redzone each, and the table of their sizes. |
| AsanGlobals.TriplePlaced | src/IceASanInstrumentation.cpp:174-189 | Placed in order from any address, each at its own alignment, the declarations of a global are its left redzone, itself and its right redzone, at the addresses and of the sizes that start-up poisons. |
| AsanGlobals.TriplesAligned | src/IceASanInstrumentation.cpp:111-114 | Every triple is a multiple of 32 bytes, so each starts aligned. |
| AsanGlobals.Init | runtime/szrt_asan.c:189-194 | The start-up loop poisons the listed ranges in order. |
| AsanGlobals.InitMeetsLayout | runtime/szrt_asan.c:189-194 | On the compiler's tables every call meets the assertions of `__asan_poison`, and together they poison each triple's redzones. |
| AsanGlobals.GlobalsPoisoned | runtime/szrt_asan.c:170-195 | Afterwards a byte of the globals' memory is accessible if and only if it belongs to a global, and no other shadow has changed. |
| Bisection.FindMinimal | pydir/bisection-tool.py:87-125 | Asked for one failure, on a monotone oracle, the result fails with the includes and no proper part of it does. |
| Bisection.MinimalExactly | pydir/bisection-tool.py:87-125 | It is minimal if and only if the includes alone pass or there is at most one item. |
| Bisection.FindAscends | pydir/bisection-tool.py:87-125 | Every reported item is in the interval and reported once, in ascending order. |
| Bisection.FindCost | pydir/bisection-tool.py:87-125 | It makes at most 2 k (ceil(log2 n) + 1) runs for k reported items out of n. |
| Bisection.LogLeast | pydir/bisection-tool.py:87-125 | The logarithm in the bounds is the exponent of the least power of two that is enough. |
| Bisection.SinglesExactly | pydir/bisection-tool.py:112-125 | Asked for all, an item is reported by itself if and only if it fails alone with the includes. |
| Bisection.FindAll | pydir/bisection-tool.py:87-125 | Asked for all, every node fails, nodes share no item, and no item of a group fails alone. |
| Bisection.MinimalOnlyForOne | pydir/bisection-tool.py:101-110 | Every node is minimal for every monotone oracle if and only if one failure is asked for. |
| Bisection.OneCauseExact | pydir/bisection-tool.py:87-125 | Where what fails in the interval is what holds one set, the search reports exactly that set, in one node, bare if it is one item, whether all failures are asked for or one, and however the oracle behaves elsewhere when one is. |
| Bisection.CompleteExactly | pydir/bisection-tool.py:87-125 | Asked for all failures of a monotone oracle, every minimal failing set in the interval is some node's items if and only if the includes pass by themselves and the smallest intervals of the search that hold any two such sets have no item in common. |
| Bisection.CompleteOnlyForTwo | pydir/bisection-tool.py:87-125 | It reports every minimal failing set of every monotone oracle, with any includes that pass, if and only if there are at most two items. |
| Bisection.PairMissed | pydir/bisection-tool.py:112-125 | The input that fails for any longer interval: the first item of the second half fails, and so do the first item and the one after that together; the pair is not reported. |
| Bisection.FindEnds | pydir/bisection-tool.py:87-125 | On a failing interval the recursion ends within ceil(log2 n) + 2 nested calls, with the specified result. |
| Bisection.EndsExactly | pydir/bisection-tool.py:87-125 | On a monotone oracle it ends if and only if the interval is empty or fails with the includes. |
| Bisection.IncludedItems | pydir/bisection-tool.py:108-109 | A mixed list of items and ranges includes the items and what the ranges include. |
| Bisection.FlattenNodes | pydir/bisection-tool.py:78-85 | The recursive flattening lists the items in order. |
| Bisection.FindFailures | pydir/bisection-tool.py:87-125 | On any oracle and interval on which the recursion ends, failing or not, it returns the specified search's result and counts exactly its runs. |
| Bisection.Bisect | pydir/bisection-tool.py:180-184 | From the initial range: a passing one costs one run and reports nothing; on a failing one the search's result is reported with one run more, on a monotone oracle as a failing set, and asked for one failure a minimal one within the bound. |
| Words.WordFits | src/IceBitVector.h:248-253 | A number is a machine word if and only if masking to 64 bits keeps it. |
| Words.CombineBit | src/IceBitVector.h:474-476 | Each bit of a bitwise operation is the operation on the operands' bits. |
| Words.RangeMaskBit | src/IceBitVector.h:470-473 | The difference of two shifted ones has exactly the bits between them. |
| Words.HighMaskBit | src/IceBitVector.h:478-479 | All ones shifted left has exactly the bits from the shift on. |
| BitVectors.BitVector.constructor | src/IceBitVector.h:314-321 | All bits below the size have the value asked for. |
| BitVectors.BitVector.SetRange | src/IceBitVector.h:461-488 | Setting or resetting a range by masks and whole words changes exactly the bits of the range (the resetting form is at 501-528). |
| BitVectors.BitVector.SetUnusedBits | src/IceBitVector.h:746-764 | Exactly the bits from the size to the end of the capacity get the value. |
| BitVectors.BitVector.Resize | src/IceBitVector.h:422-441 | Remaining bits are kept and new ones have the value given, except that past the capacity the old bits become what the allocated words held. |
| BitVectors.BitVector.Grow | src/IceBitVector.h:766-776 | The vector ends with the contents of the allocated words below the size and zeros above: the copy goes the wrong way. |
| BitVectors.CapacityLeast | src/IceBitVector.h:766-771 | Growing at least doubles the capacity and holds the new size, and takes no more than that. |
| BitVectors.ResizeKeeps | src/IceBitVector.h:422-441 | Resizing keeps the remaining bits whatever the allocator returns if and only if it stays within the capacity or the vector was empty. |
| BitVectors.BitVector.Count | src/IceBitVector.h:355-360 | Adding up the words' set bits gives the number of members. |
| BitVectors.CountedMembers | src/IceBitVector.h:355-360 | The words' set bits are as many as the listed members. |
| BitVectors.BitVector.FindFirst | src/IceBitVector.h:388-393 | The smallest member, or -1 if there is none. |
| BitVectors.BitVector.FindNext | src/IceBitVector.h:397-416 | The smallest member after the given index, or -1. |
| BitVectors.NextListed | src/IceBitVector.h:386-416 | Asking for the next member from each one found lists all members. |
| BitVectors.ListedExactly | src/IceBitVector.h:386-416 | The list has exactly the members. |
| BitVectors.ListedAscends | src/IceBitVector.h:386-416 | The list ascends, so none is repeated. |
| BitVectors.BitVector.Any | src/IceBitVector.h:363-368 | True if and only if there is a member. |
| BitVectors.BitVector.All | src/IceBitVector.h:371-382 | True if and only if every index below the size is a member, whatever the size's remainder. |
| BitVectors.BitVector.Flip | src/IceBitVector.h:530-535 | The complement below the size. |
| BitVectors.BitVector.AnyCommon | src/IceBitVector.h:557-564 | True if and only if the sets meet, for any two sizes. |
| BitVectors.BitVector.Equals | src/IceBitVector.h:567-586 | True if and only if the sets are equal, for any two sizes. |
| BitVectors.BitVector.Test | src/IceBitVector.h:619-632 | True if and only if the set is not a subset of the other, for any two sizes. |
| BitVectors.BitVector.AndWith | src/IceBitVector.h:591-605 | Intersection, also of different sizes and with itself. |
| BitVectors.BitVector.ResetAll | src/IceBitVector.h:608-615 | Difference, also of different sizes and with itself. |
| BitVectors.BitVector.JoinWith | src/IceBitVector.h:634-648 | Union and symmetric difference, at the larger size, of what resizing leaves. |
| BitVectors.BitVector.Assign | src/IceBitVector.h:651-684 | The other's size and members. |
| BitVectors.BitVector.ApplyMask | src/IceBitVector.h:782-813 | Sets or clears exactly the bits below the size that the 32-bit mask words have, or have not, and keeps the rest. |
| BitVectors.BitVector.SetBitsInMask | src/IceBitVector.h:718-720 | The union with the mask, below the size. |
| BitVectors.BitVector.ClearBitsInMask | src/IceBitVector.h:724-726 | The members that the mask has not. |
| BitVectors.BitVector.SetBitsNotInMask | src/IceBitVector.h:730-732 | Adds the indices below the size that the mask covers and has not. |
| BitVectors.BitVector.ClearBitsNotInMask | src/IceBitVector.h:736-738 | Of the indices that the mask covers, the members that it has. |
| BitCursor.ReadIsBits | pnacl-llvm/include/llvm/Bitcode/NaCl/NaClBitstreamReader.h:660-719 | With n bits left, reading through the buffered word returns exactly the next n bits of the stream and moves over them, wherever words begin; it moves by n exactly then and never back. |
| BitCursor.ReadPastEnd | pnacl-llvm/include/llvm/Bitcode/NaCl/NaClBitstreamReader.h:681-719 | With fewer bits left a read gives 0 and drops those before the next word, or at the end of the stream repeats the buffered bits if they are enough for what is missing. |
| BitCursor.BytesBits | pnacl-llvm/include/llvm/Bitcode/NaCl/NaClBitstreamReader.h:672-677 | A word read little-endian has as digits the stream's bits in order. |
| Abbreviations.IsValid | pnacl-llvm/NaClBitCodes.cpp:119-131 | Valid if and only if not empty and an array can only be second to last. |
| Abbreviations.Simplify | pnacl-llvm/NaClBitCodes.cpp:101-117 | The nested loops remove exactly the copies of the element operand in front of the array. |
| Abbreviations.SimplifyStable | pnacl-llvm/NaClBitCodes.cpp:101-131 | The result is valid, keeps its array, and simplifying again changes nothing. |
| Abbreviations.NoCopyLeft | pnacl-llvm/NaClBitCodes.cpp:101-117 | No copy of the element operand is left in front of the array. |
| Abbreviations.CopiesVanish | pnacl-llvm/NaClBitCodes.cpp:101-117 | Abbreviations that differ in the number of those copies have one simplified form. |
| Abbreviations.SimplifyKeepsRecords | pnacl-llvm/include/llvm/Bitcode/NaCl/NaClBitCodes.h:278-316 | An abbreviation accepts exactly the records of its simplified form that are not shorter than its own minimum. |
| Abbreviations.EquivalentAbbrevs | pnacl-llvm/include/llvm/Bitcode/NaCl/NaClBitCodes.h:278-280 | Abbreviations with one simplified form, by which they are recognised as equivalent, encode the same records from the longer minimum on. |
| Abbreviations.SimplifiedIsShortest | pnacl-llvm/NaClBitCodes.cpp:101-117 | No abbreviation with the same simplified form is shorter. |
| BitcodeFields.AlignLands | pnacl-llvm/include/llvm/Bitcode/NaCl/NaClBitstreamReader.h:760-771 | Dropping buffered bits moves to the next byte boundary of the stream. |
| BitcodeFields.DefinitionSkipped | pnacl-llvm/NaClBitstreamReader.cpp:257-331 | Where reading a definition reports no bad encoding or width, skipping it ends at the same bit; where an unknown encoding stops reading, it stops skipping. |
| BitcodeFields.DefinedIsReadable | pnacl-llvm/NaClBitstreamReader.cpp:257-315 | Every abbreviation read has widths from 1 to 32 and exactly one, non-array, operand after an array, so the unreachable arms are unreachable and the element operand exists. |
| BitcodeEncoding.PiecesRead | pnacl-llvm/include/llvm/Bitcode/NaCl/NaClBitstreamReader.h:739-757 | A value of any size written in chunks reads back, with the cursor right behind it. |
| BitcodeEncoding.VbrRead | pnacl-llvm/include/llvm/Bitcode/NaCl/NaClBitstreamReader.h:721-757 | In a register it reads back its low bits, so itself if and only if it fits. |
| BitcodeEncoding.Char6Decodes | pnacl-llvm/include/llvm/Bitcode/NaCl/NaClBitCodes.h:165-190 | Encoding a character inverts decoding it, for each of the 64 codes. |
| BitcodeEncoding.FieldRead | pnacl-llvm/NaClBitstreamReader.cpp:151-192 | Every value an operand accepts reads back. |
| BitcodeEncoding.OperandsMatch | pnacl-llvm/NaClBitstreamReader.cpp:151-243 | Whatever the stream, reading with an abbreviation gives a record that the abbreviation accepts. |
| BitcodeEncoding.RecordRead | pnacl-llvm/NaClBitstreamReader.cpp:202-243 | Every record an abbreviation accepts, or an unabbreviated one, reads back value for value from any bit of a stream, and the cursor ends behind it, rounded up to a byte where records are aligned. |
| BitcodeEncoding.ValueCut | pnacl-llvm/NaClBitstreamReader.cpp:165-167 | A value too large for its register is cut to 64 bits. |
| BitcodeEncoding.ArrayCut | pnacl-llvm/NaClBitstreamReader.cpp:158-161 | The number of elements of an array is cut to 32 bits. |
| BitcodeEncoding.RecordCut | pnacl-llvm/NaClBitstreamReader.cpp:204-211 | The code and the number of values of an unabbreviated record are cut to 32 bits. |
| BitcodeEncoding.DefinitionRead | pnacl-llvm/NaClBitstreamReader.cpp:257-315 | Every valid abbreviation reads back from its definition. |
| BitcodeEncoding.WrittenRead | pnacl-llvm/NaClBitstreamReader.cpp:257-309 | Every operand of a definition as anyone may write it is read to its end and for what it means: a width of 0 is a literal 0, widths go up to 32, there are five encodings, and numbers are cut to their registers. |
| BitcodeEncoding.FaultRead | pnacl-llvm/NaClBitstreamReader.cpp:257-309 | The first operand that is not acceptable ends the reading and decides the fault. |
| BitcodeEncoding.WrittenSkipped | pnacl-llvm/NaClBitstreamReader.cpp:317-331 | Skipping goes over every operand with a known encoding, whatever its width. |
| BitcodeEncoding.DefinitionCut | pnacl-llvm/NaClBitstreamReader.cpp:260 | The number of operands is cut to 32 bits. |
| BitstreamReaders.BitstreamCursor.Read | pnacl-llvm/include/llvm/Bitcode/NaCl/NaClBitstreamReader.h:681-719 | The method changes the cursor as specified, past the end too. |
| BitstreamReaders.BitstreamCursor.ReadVBR | pnacl-llvm/include/llvm/Bitcode/NaCl/NaClBitstreamReader.h:721-757 | The loop ends for every stream and gives the joined chunks cut to the register. |
| BitstreamReaders.BitstreamCursor.ReadRecord | pnacl-llvm/NaClBitstreamReader.cpp:202-243 | Yields the record's first value as its code and the others as its values, and fails if and only if an array that should hold the code is empty. |
| BitstreamReaders.BitstreamCursor.SkipRecord | pnacl-llvm/NaClBitstreamReader.cpp:112-149 | For every stream and usable abbreviation the cursor ends where reading the record ends. |
| BitstreamReaders.BitstreamCursor.ReadAbbrevRecord | pnacl-llvm/NaClBitstreamReader.cpp:257-315 | Yields the definition, or the first fault in it. |
| BitstreamReaders.BitstreamCursor.SkipAbbrevRecord | pnacl-llvm/NaClBitstreamReader.cpp:317-331 | Ends where skipping the definition is specified to end, and fails only at an unknown encoding. |

## Left out

Assemblers

- All other instructions and operand encodings: they enter a run as bytes that are not branch fields.
- Hybrid text assembly, ELF relocations and printing; a relocation is the position it is recorded at, and the emitters modelled never need a text fixup.
- The range assertions of `bind` and of the encoders are conditions of a step (`BranchLinking.Allowed`), as is a buffer under 2^31 bytes; for x86 jumps the other conditions are shown to hold.
- Labels of nodes and local labels share one vector; their two tables differ only in who numbers them.
- AssemblersMIPS32.BranchTo: does not model a branch without a condition, which the source ends with a fatal error.
- A bundle region does not place labels; the source places them outside or, in a preliminary pass, not at all.
- Bundles are modelled for x86 with 32 bytes; the 16-byte bundles of the other two pad with fixed-size nops.
- Encoding the vector pseudo-instructions into words, and what narrowing computes: any function of the quadword is allowed.

AddressSanitizer

- `char` is signed, and pointers and `size_t` are 32 bits wide.
- `posix_memalign` gives an aligned block apart from the others, of the size asked for, or fails; the lemmas about heaps take sizes whose block exists in the address space.
- AsanRuntime.EvictStep: does not follow the loop past an entry whose size is 0 or more than the whole queue's; no permitted run has one.
- AsanRuntime.Runtime.Malloc: like the other methods, is specified where no assertion of the source fails and no access leaves the shadowed memory.
- Where the system has no memory, `malloc` is no event of a run, and `calloc` faults (`AsanRuntime.CallocSound`).
- Threads, the lock, error reports and aborting; freeing a pointer that no block has.
- Loads, stores and calls that the compiler wraps in checks; the choice of checks it leaves out.
- The allocas of a frame are laid out one after another from an aligned address, and so are the global triples; functions left other than by returning.
- Replacing allocator pointers in global initialisers.

Bisection

- Starting the command, time-outs and output; a run is the oracle's answer for the included set.
- Bisection.FindFailures: is stated where the recursion ends, as is `Bisect`; `EndsExactly` says where that is for a monotone oracle, and for others it may also end.

Bit vector

- `SmallBitVector`, moving and swapping, single-bit operations, and words of 32 bits.
- BitVectors.BitVector.Assign: does not model growing from a nonzero capacity, which the source asserts against.

Bitstream

- BitstreamReaders.BitstreamCursor.Read: past the end it does what the code does without assertions; the assertion that stops a second read there is not modelled.
- BitstreamReaders.BitstreamCursor.ReadVBR: chunks beyond the register are dropped; shifting by the register's width or more is undefined in the source.
- Operands of width 0, which no definition yields, blocks, block information, listeners, jumping to a bit and the choice of an abbreviation by number.
- Memory objects, the header, and the parser on top of the reader.
