# Verified model of the NativeLib hook engine and its helpers

`NativeLib` patches functions of a running 32-bit Windows process. To hook a function it follows
jumps to where the code really starts, counts off whole instructions with a length decoder until
the hook fits, copies those instructions into a trampoline with their relative branches corrected,
and overwrites them with a transfer to the hook. Restoring puts the saved bytes back. This project
models that engine and proves that it does what it is for: the trampoline does what the
overwritten code did, the hook reaches its target, and taking all hooks out again gives back the
original program. Where the code falls short of that, there is a concrete instance and the
exact condition under which it does not.

Around the engine it models what the engine stands on or what shares its file: the growable array
that lists the trampolines, Knuth-Morris-Pratt search, intrusive circular lists, the lock-free
tick-count reader, the command-line splitter, and the import lookup by hash.

The 32-bit (x86) branch of the source is modelled throughout. Addresses and displacements are
words modulo 2^32.

## How it is laid out

- `Words`, `OpcodeTable`, `OpcodeGrid`, `Lde`, `Assembler`: bytes and words; the packed opcode table
  against a declarative opcode map and the printed maps; the length decoder, the laws of instruction
  streams, and the assembler whose instructions the decoder takes, all of them and no others.
- `Branches`, `Relocation`, `Simulation`: the relative branches of the instruction set, the copier, and
  the theorem that a stub simulates its site.
- `HookSite`, `HookCode`, `Processor`, `NakedTrampoline`: finding the site, the bytes written over
  it, a small stack machine, and the frame that saves and restores all registers.
- `GrowableArray`, `PatchState`, `RestoreOrder`, `PatchManager`: the list of trampolines, runs of
  installs and restores, restoring in any order, and the manager class.
- `HookedProgram`, `HookedMachine`: what a hooked program does, on any processor and on one with its
  memory in its state.
- `Kmp`, `ListEntry`, `TickCount`, `CommandLine`, `ImportTable`, `LoadedImage`: the rest.

Loops and in-place updates of the source are methods over arrays and classes here, each proved
against a function or predicate, and the properties are lemmas about those. Main results:
`Simulation.StubSimulatesSite`, `HookedProgram.TrampolineStandsIn`, `PatchState.CleanRunsUndo`,
`RestoreOrder.AnyOrderRestores`, `PatchManager.NakedKeepsOriginal`,
`HookedMachine.NakedHookStandsInOnMachine`, `Lde.LdeGetOpCodeSize32` with
`Assembler.AssembledIsDecoded` and `Lde.CutRecoversBoundaries`, `LoadedImage.FoundSlotIsBound`,
`HookSite.FoundIffUsable`, `Kmp.Search`, `TickCount.AgreeingReadIsGenuine`.

## How the environment appears

- Code memory is one array of bytes from address 0; reading past its end is a fault, which the
  model reports instead of crashing. An instruction counts as readable only with all its bytes.
- Page protection, the heap for records and the heap's growth of the list are answers passed in
  with each call. A heap block for a record is at an address not in use. What the stack holds in the
  local buffer for the hook is passed in too; it shows where the filler routine writes nothing.
- The growable array asks for its first block by reallocating a null block
  (`my.h:2877`). That this call can succeed is assumed; every Add to an empty array rests on it.
- The trampoline and the saved code are neighbours in one block in the model, as in
  `TRAMPOLINE_DATA`, because the source does not keep one from running into the other.
- Instructions other than the recognised branches are a parameter of the simulation (`Cpu`); the
  theorem asks of each that it acts alike at either address (`PositionFree`). That leaves out
  LOOP, JECXZ and prefixed branches, which the copier copies verbatim. The jump back has to go to the
  end of the site only in states that the caller describes, such as those in which the cell it reads
  holds that address; throughout its run, the overwritten code must keep to such states
  (`Throughout`). On `HookedMachine.MachineCpu`, for sites of instructions it knows and with the record
  in memory, all there is left to ask is that the site leave that cell alone.
- Data memory is kept apart from code, in cells of four bytes that never overlap, whatever their
  addresses. "Another cell" on the small processor stands for four bytes that have none in common.
- The processor's limit of 15 bytes to an instruction (Intel SDM volume 2A, section 2.3.11) is a
  precondition of the size bounds. The install itself asks for less: that the site keep within the
  source's own buffers (`WithinBuffers`), which such instructions do
  (`PatchManager.FoundIsWithinBuffers`).
- The kernel's order of stores to the tick counter (High2Time, LowPart, High1Time) is an
  assumption; the writer is not in the repository. For the retry loop to return, some
  attempt must find the high parts equal.
- What linker and loader put in memory for the imports is described by predicates
  (`LoadedImage.Describes`, `LoadedImage.IsBound`).
- The case-insensitive comparison of module names is a parameter of the import lookup.

## Where code and expectation differ

- A short branch over a widened one misses its target in the trampoline
  (`Simulation.WidenedBetweenMissesTarget`, found by the search: `HookedProgram.WidenedSiteIsFound`;
  exact condition in `Simulation.StayingBranchLands`).
- LOOP and JECXZ that leave the site are copied verbatim and go somewhere else, for every copy that
  stands anywhere else (`Relocation.LoopIsNotRelocated`).
- A naked trampoline can be longer than its buffer and overwrite the saved code
  (`HookedProgram.NakedTrampolineOverflows`; exact condition on the site in `PatchManager.Fits` and
  `PatchManager.NakedKeepsOriginal`, counted by `Simulation.GrowthCounts`). `my.cpp:3165-3168`
  notices and does nothing.
- When page protection fails after a record was listed, the record is freed and stays listed
  (`PatchState.ListIsRecordsAndRefusals`; exact condition in `PatchState.ListIsExactUnlessRefused`,
  with the freed block handed out again: `HookedProgram.RefusedThenReused`). The caller is handed the
  freed address all the same (`HookedProgram.RefusedHandsOutFreed`).
- A call hook over a site more than seven bytes longer than the hook returns into whatever the stack
  held (exact condition in `HookedProgram.CallReturnsSafely`, a site in
  `HookedProgram.LongSiteIsFound`).
- A call hook over a five-byte site has its trampoline turned into a jump whatever the site holds
  (`HookedProgram.PrologueIsLost`; exact condition in `HookedProgram.TailJumpSurvives`).
- Hooks whose sites overlap restore the original program in some orders only (exact condition in
  `RestoreOrder.AnyOrderRestores`; a site hooked twice and restored in install order:
  `HookedProgram.HookedTwice`).
- Every register hook kind loads and jumps through eax, because the register number computed from
  the kind has only its top bits set (`HookCode.HookBytesAreOps`). A naked trampoline reached that
  way saves an eax that is already its own address: the callback does not see the original one, and
  the code behind it runs without it (`HookedMachine.NakedHookRoundTrip`).
- `GenerateJumpBack` advances the trampoline pointer by eight for six bytes written.
- The search for a hook site does not return on a cycle of jumps (`HookSite.JumpToItself`; exact
  condition in `HookSite.SettlesUnlessCycle`).
- The opcode table lacks the three-byte opcode maps and some later two-byte opcodes
  (`Lde.ThreeByteMapsAreCutShort`, `Lde.PopcntIsCutShort`). The declarative map says what this table
  says, for all opcodes (`OpcodeTable.TableIsOpcodeMap`).

## Model

| member | source | states |
|---|---|---|
| OpcodeTable.FirstLevelInBounds | source/SiglusExtract/NativeLib/my.cpp:696-738 | Every first-level entry of the packed table points into its second level with room for all four flags of its group, so no opcode index reads outside the table. |
| OpcodeTable.TableIsOpcodeMap | source/SiglusExtract/NativeLib/my.cpp:696-738 | For all 512 opcodes the two-level packed table yields exactly the flags of a declarative opcode map (which opcodes are prefixes, have ModR/M, immediates of each kind, relative operands). |
| OpcodeTable.FlagBits | source/SiglusExtract/NativeLib/my.cpp:683-691 | Read back bit by bit, a flag byte says of an opcode exactly what the map says: prefix, ModR/M, operand-sized immediate, byte immediate, and the size in its low three bits. |
| OpcodeTable.GetOpCodeFlags32 | source/SiglusExtract/NativeLib/my.cpp:735-738 | The table lookup answers with the flags of the opcode map. |
| OpcodeGrid.GridIsOpcodeMap | source/SiglusExtract/NativeLib/my.cpp:696-738 | For all 512 opcodes the flags of the decoder say what the printed opcode maps say, row by row: prefix, escape, ModR/M, and which immediates follow. |
| Lde.LdeGetOpCodeSize32 | source/SiglusExtract/NativeLib/my.cpp:753-882 | The decoder loop, with its mutable prefix flags and sizes, returns the prefix count plus the body length of the declarative ModR/M, SIB, displacement and immediate tables, and the opcode position; or nothing when a byte it must look at is not readable. |
| Assembler.OperandLength | source/SiglusExtract/NativeLib/my.cpp:820-871 | For every register and memory operand of both address sizes, SIB without base included, the displacement tables give the length of its encoding. |
| Assembler.AssembledIsDecoded | source/SiglusExtract/NativeLib/my.cpp:753-882 | Every instruction an assembler can make of prefixes, an opcode of the maps, an operand and immediates, F6, F7 and A0-A3 included, is decoded with exactly its length, whatever follows it. |
| Assembler.DecodedIsAssembled | source/SiglusExtract/NativeLib/my.cpp:753-882 | And whatever the decoder takes for an instruction is one of those. |
| Lde.PrefixesThenBody | source/SiglusExtract/NativeLib/my.cpp:753-882 | An accepted length splits into a run of prefixes that ends at the first non-prefix byte, and a body of 1 to 11 bytes. |
| Lde.SelfDelimiting | source/SiglusExtract/NativeLib/my.cpp:753-882 | The decoder inspects only bytes it counts: any code that agrees with the instruction on its own bytes has the same length. |
| Lde.NoProperPrefix | source/SiglusExtract/NativeLib/my.cpp:753-882 | No accepted encoding is a proper prefix of another. |
| Lde.CutRecoversBoundaries | source/SiglusExtract/NativeLib/my.cpp:753-882 | Decoding a concatenation of instructions, whatever follows it, gives back exactly those instructions. |
| Lde.CutLosesNothing | source/SiglusExtract/NativeLib/my.cpp:753-882 | Conversely, any cut that succeeds consists of whole instructions whose concatenation is the input. |
| Lde.ThreeByteMapsAreCutShort | source/SiglusExtract/NativeLib/my.cpp:696-738 | Code that starts with 0F 38 or 0F 3A always decodes to the two bytes of the escape. |
| Lde.PopcntIsCutShort | source/SiglusExtract/NativeLib/my.cpp:696-738 | popcnt (F3 0F B8) decodes without the ModR/M byte that belongs to it. |
| Relocation.RecognisedBranches | source/SiglusExtract/NativeLib/my.cpp:2839-2873 | The first-byte tests of the copier find exactly the instructions with a relative operand, except prefixed ones and LOOP/JECXZ. |
| Relocation.LongFormDecodes | source/SiglusExtract/NativeLib/my.cpp:2847-2873 | The long form written for a branch is one instruction, of the same kind and condition, with the displacement stored in it. |
| Relocation.CopyOneOpCode | source/SiglusExtract/NativeLib/my.cpp:2815-2953 | Writing in place, the copier stores the copy of the first instruction (rewritten or verbatim), returns both lengths, touches nothing else, and does nothing when the instruction is not fully readable. |
| Relocation.CopyKeepsMeaning | source/SiglusExtract/NativeLib/my.cpp:2891-2942 | A copy is one whole instruction; if rewritten it is the same branch to the same absolute address modulo 2^32 in long form, otherwise it is byte-identical. |
| Relocation.FormIsControl | source/SiglusExtract/NativeLib/my.cpp:2847-2873 | What the copier takes an instruction for, with its condition and destination, is what the instruction set says of its opcode bytes. |
| Relocation.CopyInBytes | source/SiglusExtract/NativeLib/my.cpp:2847-2873 | A rewritten branch in bytes: 70-7F become 0F 80-8F of the same low digit, EB and E9 become E9, E8 and 0F 8x keep their opcode. |
| Relocation.CopyControls | source/SiglusExtract/NativeLib/my.cpp:2920-2942 | By the instruction set, a rewritten branch does at its new place what the original did at its own. |
| Relocation.CopyGrowth | source/SiglusExtract/NativeLib/my.cpp:2891-2942 | A copy never shrinks, grows by at most four bytes and threefold, and grows exactly when a two-byte branch is rewritten. |
| Relocation.LoopIsNotRelocated | source/SiglusExtract/NativeLib/my.cpp:2862-2888 | LOOP and JECXZ are always copied verbatim, and the copy goes where the instruction went if and only if it stands where the instruction stood. |
| Relocation.CopyTrampolineStub | source/SiglusExtract/NativeLib/my.cpp:3744-3768 | The copying loop emits the concatenated copies of the instructions scanned, at the right place, and reports whether it finished, met a near return or ran out of code. |
| Relocation.TakeIsInstructions | source/SiglusExtract/NativeLib/my.cpp:3752-3765 | The scan takes whole instructions from the front of the code, none a near return, and stops at a return only where there is one. |
| Relocation.TakeIsShortest | source/SiglusExtract/NativeLib/my.cpp:3752-3765 | The scan succeeds exactly when it has enough bytes, and without its last instruction it would not have had. |
| Relocation.TakeFinds | source/SiglusExtract/NativeLib/my.cpp:3752-3765 | Conversely, whenever enough non-return instructions lie at the front of the code, the scan finds exactly those. |
| Relocation.StubGrowth | source/SiglusExtract/NativeLib/my.cpp:3744-3768 | The stub of any site is between one and three times its length, and at most three times all but the last instruction plus 15 bytes. |
| Relocation.StubIsSmall | source/SiglusExtract/NativeLib/my.cpp:3744-3768 | The stub of the shortest site of at least n bytes has at most 3(n-1)+15 bytes, and the site at most n-1+15. |
| Relocation.StubLength | source/SiglusExtract/NativeLib/my.cpp:3744-3768 | The exact length of a stub: the site and the growth of its leaving short branches, independent of where site and stub lie. |
| Simulation.TestIsExact | source/SiglusExtract/NativeLib/my.cpp:2908-2918 | The displacement test is exact: for a site below 2 GB it says "leaves" precisely when the 32-bit destination address lies outside the site (or on its first byte, seen from further down). |
| Simulation.StubAt | source/SiglusExtract/NativeLib/my.cpp:3749-3765 | The k-th copy is made with its own source and target address and with forward and backward sizes moved by its offset, so that they always add up to the size of the site. |
| Simulation.CopyAt | source/SiglusExtract/NativeLib/my.cpp:3744-3768 | Every instruction of a stub, wherever it lies: same branch to the same absolute address if it leaves the site, otherwise byte-identical, and longer exactly if it is a two-byte branch that leaves. |
| Simulation.StubInBytes | source/SiglusExtract/NativeLib/my.cpp:2815-2953 | The whole stub in terms of opcode bytes and addresses alone: which instructions are rewritten (destination outside the site, or on its first byte from further down), into which bytes, and where they go; all others are byte-identical. |
| Simulation.GrowthCounts | source/SiglusExtract/NativeLib/my.cpp:2891-2942 | That growth is four bytes for every two-byte jcc whose destination address lies outside the site and three for every such two-byte jmp. |
| Simulation.StayingBranchLands | source/SiglusExtract/NativeLib/my.cpp:2908-2918 | A branch that stays in the site is copied verbatim and lands on the copy of its original target if and only if no instruction in between was widened. |
| Simulation.WidenedBetweenMissesTarget | source/SiglusExtract/NativeLib/my.cpp:2908-2918 | A concrete site (a je over a jne that leaves), at any two addresses, whose copied je misses the copy of its target. |
| Simulation.StraightSiteIsRelocatable | source/SiglusExtract/NativeLib/my.cpp:2875-2888 | A site without recognised branches is copied byte for byte and meets the condition of the theorem at any two addresses. |
| Simulation.StubSimulatesSite | source/SiglusExtract/NativeLib/my.cpp:3744-3768 | From any instruction, over any number of steps: the stub with its jump back passes through the same states as the site, calls the same places, and leaves to the same addresses. The processor is any, and so is the description of states under which its jump back goes to the end of the site and its other instructions do not depend on where they stand; throughout the run of the site states are as described, and branches inside the site satisfy the condition above. |
| Simulation.BareStubSimulatesSite | source/SiglusExtract/NativeLib/my.cpp:3744-3768 | Without a jump back the same holds up to the end of the site, where control reaches the byte behind the stub in the state in which the site would have run on. |
| Simulation.KeptThroughout | source/SiglusExtract/NativeLib/my.cpp:3744-3768 | A description of states that every instruction of the site keeps holds throughout its run. |
| HookSite.GetHookAddressAndSize | source/SiglusExtract/NativeLib/my.cpp:3770-3838 | The search loop with its restarts answers with the end of the chain of jumps and the bytes of the shortest run of instructions that fits the hook, or with the failure the source reports. |
| HookSite.FoundIffUsable | source/SiglusExtract/NativeLib/my.cpp:3770-3838 | The search succeeds, with a given address and size, if and only if a usable site of that size lies where the chain of jumps ends: whole instructions, just enough, none beginning with C2 or C3, and no EB or FF 25 in the middle. |
| HookSite.TooSmallIff | source/SiglusExtract/NativeLib/my.cpp:3783-3821 | It answers too small if and only if, of the instructions it would take, one is an EB or FF 25 in the middle, or they are too few and C2 or C3 follows. |
| HookSite.StopsAtReturn | source/SiglusExtract/NativeLib/my.cpp:3752-3765 | The scan stops at a return exactly when behind what it took, and before it has enough, there is a byte C2 or C3; it takes no instruction that begins with one. |
| HookSite.ReturnIsTooSmall | source/SiglusExtract/NativeLib/my.cpp:3783-3784 | Code that begins with C2 or C3 is too small for every hook. |
| HookSite.FollowsShortJump | source/SiglusExtract/NativeLib/my.cpp:3789-3799 | From a short jump, forward or back, the search answers what it answers from where the jump goes. |
| HookSite.FollowsPointer | source/SiglusExtract/NativeLib/my.cpp:3805-3818 | From an indirect jump, for a longer hook, it answers what it answers from the address the pointer cell holds; an unreadable cell is a fault; a hook of at most six bytes takes the jump as its site. |
| HookSite.FoundSiteIsCopied | source/SiglusExtract/NativeLib/my.cpp:3770-3838 | On a found site the copier takes the same instructions and ends with exactly zero bytes left; the size is at least the hook size and exceeds it by less than the last instruction. |
| HookSite.ChainEndIsUnique | source/SiglusExtract/NativeLib/my.cpp:3781-3828 | Where the chain of jumps ends does not depend on how far one is prepared to follow it, and it ends at an instruction that is not followed. |
| HookSite.CyclesNeverSettle | source/SiglusExtract/NativeLib/my.cpp:3781-3828 | From an address in a set that following jumps never leaves, no bound makes the search end. |
| HookSite.SettlesUnlessCycle | source/SiglusExtract/NativeLib/my.cpp:3781-3828 | The chain of jumps from an address comes to rest if and only if the address lies in no such set, so what the search asks of its caller excludes no input on which the source returns. |
| HookSite.JumpToItself | source/SiglusExtract/NativeLib/my.cpp:3789-3799 | A short jump to itself, at any address, is such a set. |
| HookCode.GenerateHookCode | source/SiglusExtract/NativeLib/my.cpp:3193-3235 | The hook bytes of every accepted kind are written at the front of the buffer and nothing else changes; other kinds are refused and change nothing. |
| HookCode.KindsOfFlags | source/SiglusExtract/NativeLib/my.h:2940-2951 | Which hook kind, of which size, the top four bits of the flags name. |
| HookCode.HookBytesAreOps | source/SiglusExtract/NativeLib/my.cpp:3193-3235 | Those bytes are the encodings of the instructions meant, for every kind a flag word can name; every register kind encodes eax. |
| HookCode.HookReachesTarget | source/SiglusExtract/NativeLib/my.cpp:3193-3235 | Run as code at the site, the hook of every kind brings control to the target, address wrap-around included; what it does to the stack and to registers is stated for each kind. |
| HookCode.CallDestinationIsTarget | source/SiglusExtract/NativeLib/my.h:949-963 | Read at a patched site, the destination of a call or jump hook is the target. |
| HookCode.PatchNop | source/SiglusExtract/NativeLib/my.cpp:2965-3021 | The overlapping stores for each case come to the filler of that length; above seven bytes nothing is written. |
| HookCode.NopIsInstructions | source/SiglusExtract/NativeLib/my.cpp:2965-3021 | The filler of every length up to seven is a sequence of whole instructions ending at its last byte. |
| HookCode.NopDoesNothing | source/SiglusExtract/NativeLib/my.cpp:2965-3021 | Each of them is nop, a mov of a register to itself, or a lea of a register from an address that is always the register. |
| HookCode.GenerateJumpBack | source/SiglusExtract/NativeLib/my.cpp:3732-3742 | Writes jmp [address] and leaves the trampoline pointer two bytes behind what it wrote. |
| Processor.FetchEncode | source/SiglusExtract/NativeLib/my.cpp:3193-3235 | Each instruction the engine emits is read back from its bytes, whatever follows them. |
| Processor.OpIsAssembled | source/SiglusExtract/NativeLib/my.cpp:3193-3235 | Each is the assembler's encoding of that opcode and operand, and one instruction to the decoder. |
| Processor.RunIsExecAll | source/SiglusExtract/NativeLib/my.cpp:3295-3379 | Running emitted bytes in place executes the emitted instructions one after another. |
| NakedTrampoline.GenerateNakedTrampoline | source/SiglusExtract/NativeLib/my.cpp:3281-3730 | The generator writes frame, stub and jump back (or stub and frame) with the return address patched in afterwards, and reports the copier's failure. |
| NakedTrampoline.FrameBytesAreOps | source/SiglusExtract/NativeLib/my.cpp:3326-3379 | The bytes of the frame are the encodings of the pushes, the callback call and the pops. |
| NakedTrampoline.FrameRuns | source/SiglusExtract/NativeLib/my.cpp:3326-3379 | Running the frame's bytes from its first byte executes the entry; running them from where the callback returns executes the exit. |
| NakedTrampoline.PushesStore | source/SiglusExtract/NativeLib/my.cpp:3326-3340 | Any list of register pushes leaves each register in its own cell below the old stack pointer and nothing else changed, wrap-around of the stack pointer included. |
| NakedTrampoline.PopsLoad | source/SiglusExtract/NativeLib/my.cpp:3368-3376 | Any list of pops of distinct registers reloads them in order and nothing else. |
| NakedTrampoline.ContextFields | source/SiglusExtract/NativeLib/my.h:2954-3009 | The offset of every field of the context. |
| NakedTrampoline.EntryPresentsContext | source/SiglusExtract/NativeLib/my.h:2954-3009 | From any machine state, the callback is entered with ecx pointing to a structure that holds each register, the flags and the return address in its own field, with only the eleven cells around it written. |
| NakedTrampoline.ExitReloadsContext | source/SiglusExtract/NativeLib/my.cpp:3368-3379 | From any context, edited or not, the exit reloads every register and the flags from it and returns through the stack it names. |
| NakedTrampoline.RoundTrip | source/SiglusExtract/NativeLib/my.cpp:3295-3379 | As lists of instructions: entry, a callback that brings the stack pointer back, exit. The edited context decides every register and the return; with an unedited context every register is as before, for a call hook with its return address popped. |
| NakedTrampoline.FrameRoundTrip | source/SiglusExtract/NativeLib/my.cpp:3295-3379 | The same in the bytes that run, from the first byte of the frame to the callback and from the word on the stack it returns to; of memory, the way there changes only eleven cells and the way back nothing. |
| Growable.GrowableArray.SetSizeInternal | source/SiglusExtract/NativeLib/my.h:2848-2887 | Exactly when growing is refused, out of memory or done, what the new capacity is, and that the old elements survive; a failure changes nothing. |
| Growable.GrowableArray.RequestDoesNotWrap | source/SiglusExtract/NativeLib/my.h:2871-2877 | The multiplication left unchecked by the source never wraps in a 32-bit process. |
| Growable.GrowableArray.Add | source/SiglusExtract/NativeLib/my.h:2647-2673 | Appends, or changes nothing; it succeeds exactly when there is room or the heap makes it. |
| Growable.GrowableArray.Insert | source/SiglusExtract/NativeLib/my.h:2675-2704 | Inserts at the index by shifting in place, or changes nothing; refuses exactly the indices beyond the end. |
| Growable.GrowableArray.SetAt | source/SiglusExtract/NativeLib/my.h:2706-2714 | Replaces one element, or refuses an index out of range and changes nothing. |
| Growable.GrowableArray.IndexOf | source/SiglusExtract/NativeLib/my.h:2746-2775 | The first position of a value, or none exactly when it is absent. |
| Growable.GrowableArray.Remove | source/SiglusExtract/NativeLib/my.h:2808-2824 | Removes one element by shifting in place, or refuses an index out of range and changes nothing. |
| Growable.GrowableArray.RemoveAll | source/SiglusExtract/NativeLib/my.h:2826-2829 | Leaves the empty sequence and no block. |
| Growable.GrowableArray.AddsAreCheap | source/SiglusExtract/NativeLib/my.h:2862-2884 | An array filled by n Adds from empty has moved fewer than 2n elements in reallocations. |
| PatchState.DisjointOrLatestIsFree | source/SiglusExtract/NativeLib/my.cpp:3983-3991 | Any hook of a pairwise disjoint set may be restored at any time, and the latest of overlapping ones always. |
| PatchState.UndoOneEarly | source/SiglusExtract/NativeLib/my.cpp:3983-3991 | Restoring one hook out of order changes nothing about restoring them all, if it is apart from every later one. |
| PatchState.CleanKeepsConsistent | source/SiglusExtract/NativeLib/my.cpp:3087-3191 | Every successful install or restore keeps the invariant: list and records agree, each once, and taking all hooks out gives the initial code. |
| PatchState.CleanRunsUndo | source/SiglusExtract/NativeLib/my.cpp:3940-3991 | Over any run of such steps, memory differs from the initial code only inside sites of listed hooks, the list holds exactly the live records, and with all hooks restored memory is the initial code. |
| PatchState.ListIsLiveUnlessRefused | source/SiglusExtract/NativeLib/my.cpp:3178-3183 | As long as no address still in the list is handed out again, the list holds only live records if and only if no recorded and listed install was refused page protection: the source frees the record but leaves it listed. |
| PatchState.ListIsRecordsAndRefusals | source/SiglusExtract/NativeLib/my.cpp:3175-3183 | Over any run, with freed addresses handed out again or not, the list holds every live record once, less those it had no room for, and one entry more for every refused install it had listed. |
| PatchState.ListIsExactUnlessRefused | source/SiglusExtract/NativeLib/my.cpp:3175-3183 | So from an empty manager it ends up with exactly the live records, each once, if and only if the refused and the unlisted ones are the same, in particular if there are none. |
| PatchState.ReuseRevivesStaleEntry | source/SiglusExtract/NativeLib/my.cpp:3175-3183 | For any later install at the address of a refused and listed record: the stale entry looks alive, and the record is listed twice. |
| PatchState.FirstInFirstOut | source/SiglusExtract/NativeLib/my.cpp:3983-3991 | What such an order does to memory alone, for any two pieces written over it. |
| RestoreOrder.AnyOrderRestores | source/SiglusExtract/NativeLib/my.cpp:3983-3991 | From any state a clean run leads to, restoring all hooks in any order empties the list, and gives the initial code back if and only if at every address the hook restored last had found there the same byte as the hook installed first. |
| RestoreOrder.LatestFirstRestores | source/SiglusExtract/NativeLib/my.cpp:3983-3991 | It does whenever of two hooks whose sites overlap the one installed later is restored earlier. |
| RestoreOrder.TwoInInstallOrder | source/SiglusExtract/NativeLib/my.cpp:3983-3991 | Two hooks restored in the order they were installed, as a run of the manager: it ends up empty, and the initial code is back if and only if the first hook had changed nothing in the second site. |
| RestoreOrder.SameSiteInInstallOrder | source/SiglusExtract/NativeLib/my.cpp:3983-3991 | For one site hooked twice, if and only if the first hook was byte for byte the code it replaced. |
| RestoreOrder.RestoresRun | source/SiglusExtract/NativeLib/my.cpp:3983-3991 | Restoring every listed hook once, in any order, is a run of the manager that empties list and heap and writes the saved bytes in that order. |
| PatchManager.RecordKeepsOriginal | source/SiglusExtract/NativeLib/my.h:3063-3072 | For one record: it remembers the original bytes if and only if what its trampoline wrote behind its own part is what was saved there. |
| PatchManager.Fits | source/SiglusExtract/NativeLib/my.h:2911-2915 | For a found site of processor instructions and every hook kind: nothing overruns a buffer; a plain trampoline keeps to its own part of the record; a naked one does if and only if site size plus growth is at most 64 less its frame and jump back. |
| PatchManager.TrampolineSizes | source/SiglusExtract/NativeLib/my.cpp:3137-3163 | The exact length of every kind of trampoline, by its site and hook kind alone, wherever the heap puts the record. |
| PatchManager.NakedKeepsOriginal | source/SiglusExtract/NativeLib/my.cpp:3133-3168 | The record keeps the original code at every address the heap may give it, if and only if size and growth of the site leave room for frame and jump back; or, where the frame comes last, if the site begins with the very bytes of the frame that fall on it. |
| PatchManager.FoundIsWithinBuffers | source/SiglusExtract/NativeLib/my.cpp:3104-3119 | A found site of instructions of at most 15 bytes keeps within all buffers of the install. |
| PatchManager.BuildRecord | source/SiglusExtract/NativeLib/my.cpp:3124-3163 | The record filled in place holds the original code, the trampoline over it, and the address behind the site. |
| PatchManager.JumpBackReadsRecord | source/SiglusExtract/NativeLib/my.h:3063-3072 | Every trampoline with a jump back ends in FF 25 and the address of a cell that lies in the record itself, byte for byte laid out, and the record holds there the address behind the site. |
| PatchManager.BuildHook | source/SiglusExtract/NativeLib/my.cpp:3113-3119 | The bytes for the site are the hook and behind it the filler, or, above seven bytes, whatever the stack held in the local buffer. |
| PatchManager.MemoryPatchManager.Prepare | source/SiglusExtract/NativeLib/my.cpp:3113-3176 | Makes hook and record, hands out the trampoline address, lists the record exactly when the list accepts it, and touches no code memory. |
| PatchManager.MemoryPatchManager.PatchSite | source/SiglusExtract/NativeLib/my.cpp:3113-3191 | With a site given: every outcome, what it answers, and the whole new state of memory, list and heap as one event of a run. |
| PatchManager.MemoryPatchManager.HandleFunctionPatch | source/SiglusExtract/NativeLib/my.cpp:3087-3191 | Case by case, the status, the trampoline address and the event: null target, invalid source, unknown kind, no site, no memory, no protection, success. |
| PatchManager.MemoryPatchManager.RestoreMemory | source/SiglusExtract/NativeLib/my.cpp:3983-3991 | Puts the saved bytes back and takes the record out of list and heap; with an empty site or the invalid address it does so without writing; with protection refused or a site outside memory it changes nothing. |
| HookedProgram.InstallIsClean | source/SiglusExtract/NativeLib/my.cpp:3087-3191 | A recorded install that was refused nothing is a step the run theorems speak of if and only if its record keeps the original code. |
| HookedProgram.PatchesWhereAsked | source/SiglusExtract/NativeLib/my.cpp:3094-3111 | A patch that was carried out lies where the search leads from the source, or for a relative patch from the base and the source together. |
| HookedProgram.OptionsDecide | source/SiglusExtract/NativeLib/my.cpp:3121-3176 | Whether a record was made and its address handed out, by the options of the caller. |
| HookedProgram.InstalledHookReaches | source/SiglusExtract/NativeLib/my.cpp:3113-3186 | An installed hook, run in the memory it was installed in, brings control to the target, or for a naked hook to the trampoline of its record. |
| HookedProgram.JumpBackIsPlain | source/SiglusExtract/NativeLib/my.cpp:3732-3742 | The jump back decodes as one instruction and is not one of the rewritten branches. |
| HookedProgram.StubStandsIn | source/SiglusExtract/NativeLib/my.cpp:3744-3768 | The stub made of a site, with a jump back behind it, does what the site's code in memory did. |
| HookedProgram.TrampolineStandsIn | source/SiglusExtract/NativeLib/my.cpp:3139-3150 | The code of the record of a plain hook, run from its first byte, does what the overwritten code did, for any processor, state and number of steps, as long as the site's own run keeps to states in which the jump back works. |
| HookedProgram.NakedTrampolineStandsIn | source/SiglusExtract/NativeLib/my.cpp:3718-3727 | A naked trampoline starts with the frame, and the code its frame returns to does what the overwritten code did. |
| HookedProgram.NakedTrampolineRunsSiteFirst | source/SiglusExtract/NativeLib/my.cpp:3287-3291 | A naked trampoline that executes the site first does what the site did and then reaches its frame in that state; the frame returns behind the site. |
| HookedProgram.TailJumpSurvives | source/SiglusExtract/NativeLib/my.cpp:3142-3145 | For any five-byte site, of one instruction or several, the trampoline goes where the copy of the site's first instruction goes if and only if that instruction is a near call or jump, or a short jump out of the site; leaving the site, it goes where the site went; no other instruction of five bytes is a branch. |
| HookedProgram.PrologueIsLost | source/SiglusExtract/NativeLib/my.cpp:3142-3145 | The usual patchable prologue (mov edi, edi; push ebp; mov ebp, esp), at any address, is found as a site of five bytes, and its trampoline is a jump made of its operand bytes. |
| HookedProgram.WidenedSiteIsFound | source/SiglusExtract/NativeLib/my.cpp:3770-3838 | The site whose je misses its target is what the search finds for a push hook, at any address. |
| HookedProgram.HookedSiteIsFound | source/SiglusExtract/NativeLib/my.cpp:3770-3838 | A site that holds a jump hook is found again as a site. |
| HookedProgram.HookedTwice | source/SiglusExtract/NativeLib/my.cpp:3087-3191 | So a site is hooked twice by two installs; restoring them in install order gives the initial code back if and only if it was the first hook, byte for byte. |
| HookedProgram.RefusedHandsOutFreed | source/SiglusExtract/NativeLib/my.cpp:3172-3183 | An install hands out the address of a record that does not exist if and only if it was refused protection after making one whose address the caller had asked for. |
| HookedProgram.RefusedThenReused | source/SiglusExtract/NativeLib/my.cpp:3175-3183 | A refused install and then one that gets its block leave the list with the record twice. |
| HookedProgram.CallReturnsSafely | source/SiglusExtract/NativeLib/my.cpp:3185 | Whatever the stack held, the bytes a call hook returns to are whole instructions up to the end of the site if and only if there are at most seven of them. |
| HookedProgram.LongSiteIsFound | source/SiglusExtract/NativeLib/my.cpp:3770-3838 | A concrete site, at any address, that the search finds with nine bytes behind a call hook. |
| HookedProgram.NakedTrampolineOverflows | source/SiglusExtract/NativeLib/my.cpp:3151-3168 | A concrete site, at any address, that the search finds and whose naked trampoline is 65 bytes long; its record keeps the original code if and only if it happens to lie at an address with a certain top byte. |
| HookedMachine.JumpsThroughMemory | source/SiglusExtract/NativeLib/my.cpp:3732-3742 | On a processor with its memory in its state, the jump back goes to the end of the site in every state whose cell holds that address. |
| HookedMachine.JumpFollowsCell | source/SiglusExtract/NativeLib/my.cpp:3732-3742 | And only in those. |
| HookedMachine.LoadedRecordJumpsBack | source/SiglusExtract/NativeLib/my.cpp:3732-3742 | In memory that holds the record word by word, the cell its own jump back names holds the address behind the site. |
| HookedMachine.TrampolineStandsInOnMachine | source/SiglusExtract/NativeLib/my.cpp:3139-3150 | On that processor, with the record in memory, the trampoline does what the overwritten code did, for every site of its instructions and recognised branches, as long as the site's own run leaves the cell alone that the trampoline's jump names. |
| HookedMachine.PushingSite | source/SiglusExtract/NativeLib/my.cpp:3139-3150 | An instance with nothing assumed of the run: a site that pushes a constant, run from its trampoline with the record in memory. |
| HookedMachine.NakedHookRoundTrip | source/SiglusExtract/NativeLib/my.cpp:3151-3163 | A naked hook in the bytes that run, from the site over hook, record, frame and callback to the stub: what the callback finds, what it decides, and that an unedited context brings every register back; under the register kinds of hook eax is the trampoline's address by then. Memory changes only in eleven cells below the stack and by the callback. |
| HookedMachine.NakedHookStandsInOnMachine | source/SiglusExtract/NativeLib/my.cpp:3151-3163 | And on to the end of the site: after a callback that leaves its context and the record alone, the stub does what the site's own code does from those registers and that memory. |
| Kmp.InitNext | source/SiglusExtract/NativeLib/my.h:879-910 | The table holds, for every position of the keyword, the longest border after which the keyword goes on differently, or -1; independent of the byte read behind the keyword. |
| Kmp.NextOfPrefix | source/SiglusExtract/NativeLib/my.h:879-910 | An entry depends on the keyword up to its own index only. |
| Kmp.ExtendStep | source/SiglusExtract/NativeLib/my.h:892-902 | Extending keeps the longest candidate border and writes a right entry, also where it copies an earlier one. |
| Kmp.FallBackStep | source/SiglusExtract/NativeLib/my.h:903-906 | Falling back to an earlier entry skips no border that could go on. |
| Kmp.MismatchStep | source/SiglusExtract/NativeLib/my.h:936-939 | Falling back in the search skips no occurrence. |
| Kmp.Search | source/SiglusExtract/NativeLib/my.h:912-946 | The leftmost occurrence of the keyword, or none exactly when there is none or the source is empty, in at most twice the source length rounds, whatever byte lies behind the keyword. |
| Lists.LinksAreInverse | source/SiglusExtract/NativeLib/ntrtl.h:8-106 | On a list both links of every node undo each other and stay on the list. |
| Lists.ListIsUnique | source/SiglusExtract/NativeLib/ntrtl.h:8-106 | The links alone decide the entries and their order. |
| Lists.Rotate | source/SiglusExtract/NativeLib/ntrtl.h:95-106 | Any node of a ring may be taken as its head, so a ring without a head can be appended from any of its nodes. |
| Lists.InitializeListHead | source/SiglusExtract/NativeLib/ntrtl.h:8-13 | Makes an empty list. |
| Lists.IsListEmpty | source/SiglusExtract/NativeLib/ntrtl.h:15-20 | True exactly for the empty list. |
| Lists.RemoveEntryList | source/SiglusExtract/NativeLib/ntrtl.h:22-35 | Takes out the entry between any two parts of a list, leaves its own links alone, and returns true exactly when only the head remains. |
| Lists.RemoveHeadList | source/SiglusExtract/NativeLib/ntrtl.h:37-50 | Takes the first entry; an empty list yields its head and stays empty. |
| Lists.RemoveTailList | source/SiglusExtract/NativeLib/ntrtl.h:52-65 | Takes the last entry; an empty list yields its head and stays empty. |
| Lists.InsertTailList | source/SiglusExtract/NativeLib/ntrtl.h:67-79 | Appends a new entry. |
| Lists.InsertHeadList | source/SiglusExtract/NativeLib/ntrtl.h:81-93 | Prepends a new entry. |
| Lists.AppendTailList | source/SiglusExtract/NativeLib/ntrtl.h:95-106 | Splices a disjoint ring, seen from the node given, behind the last entry of a list. |
| TickCount.MemoryAt | source/SiglusExtract/NativeLib/ntexapi.h:3692-3701 | What shared memory holds after any number of the writer's stores: each part shows the value whose store of that part came last. |
| TickCount.AgreeingReadIsGenuine | source/SiglusExtract/NativeLib/ntexapi.h:3692-3701 | For every interleaving, if the two high parts read agree, the three reads make up the value the counter held when the low part was read. |
| TickCount.UncheckedReadTears | source/SiglusExtract/NativeLib/ntexapi.h:3697-3698 | Without the comparison a read can yield a value the counter never held. |
| TickCount.ReadTickCount | source/SiglusExtract/NativeLib/ntexapi.h:3719-3728 | The retry loop ends with the first attempt that finds the high parts equal and returns the value the counter held during it, when the low part was read. |
| TickCount.Scale64IsMilliseconds | source/SiglusExtract/NativeLib/ntexapi.h:3705-3706 | The split-word expression is the product shifted right by 24, modulo 2^64, for all ticks and multipliers. |
| TickCount.Scale32IsMilliseconds | source/SiglusExtract/NativeLib/ntexapi.h:3713-3731 | Both expressions for the 32-bit count give its low 32 bits. |
| TickCount.NtGetTickCount64 | source/SiglusExtract/NativeLib/ntexapi.h:3682-3707 | The scaled value of a count the counter really held, modulo 2^64. |
| TickCount.NtGetTickCount | source/SiglusExtract/NativeLib/ntexapi.h:3709-3734 | The same modulo 2^32. |
| CommandLine.CmdLineToArgvWorkerW | source/SiglusExtract/NativeLib/my.cpp:2708-2752 | Counting and filling passes report the same number of arguments and the length of the text plus one; filling stores where each argument begins and leaves NULs exactly at their ends, although it overwrites the text it reads. |
| CommandLine.CmdLineToArgvW | source/SiglusExtract/NativeLib/my.cpp:2754-2773 | The vector ends in null; each entry before it points into the copied buffer at the NUL-terminated text of its argument; the caller's text is untouched; null exactly when memory is refused. |
| CommandLine.TokensAreApart | source/SiglusExtract/NativeLib/my.cpp:2717-2746 | Arguments lie in the text in order with a separator between any two. |
| CommandLine.NothingIsLost | source/SiglusExtract/NativeLib/my.cpp:2717-2746 | Every character that is no blank, tab or quote belongs to an argument. |
| CommandLine.TokensAreDelimited | source/SiglusExtract/NativeLib/my.cpp:2719-2743 | A quoted argument runs to the next quote, any other to the next blank after its first character. |
| CommandLine.ArgumentsFollowEachOther | source/SiglusExtract/NativeLib/my.cpp:2717-2746 | The first argument starts with the text, even at a blank; every other one at the first character that is neither blank nor tab behind the separator of the one before; behind the last there are only blanks and tabs. |
| CommandLine.ArgumentsSurvive | source/SiglusExtract/NativeLib/my.cpp:2734-2737 | In the filled buffer the string at each argument's start is that argument, unharmed by the NULs written for the others. |
| ImportTable.HashAPI | source/SiglusExtract/NativeLib/my.cpp:1101-1111 | The loop computes the rotate-and-xor fold of the name up to its NUL. |
| ImportTable.HashOfName | source/SiglusExtract/NativeLib/my.cpp:1101-1111 | The hash is the exclusive-or of all bytes of the name, each rotated left by 13 as often as there are bytes behind it. |
| ImportTable.HashOfTwo | source/SiglusExtract/NativeLib/my.cpp:1101-1111 | The hash of "ab" is 0C2062h. |
| ImportTable.NeighboursNeverCollide | source/SiglusExtract/NativeLib/my.cpp:1101-1111 | Different names of one length that differ only within two neighbouring positions never share a hash. |
| ImportTable.TwoApartCanCollide | source/SiglusExtract/NativeLib/my.cpp:1101-1111 | Two positions apart they can. |
| ImportTable.Callback | source/SiglusExtract/NativeLib/my.cpp:1270-1298 | What the callback answers, settles and finds for one thunk, case by case. |
| ImportTable.WalkThunks | source/SiglusExtract/NativeLib/my.h:3303-3339 | Over one descriptor the walk finds its first hit and settles on its name, or passes it over, or ends the walk. |
| ImportTable.LookupImportTable | source/SiglusExtract/NativeLib/my.cpp:1260-1303 | The stateful walk finds the slot paired with the first hash-matching named thunk of the descriptors searched, or nothing. |
| ImportTable.OneIsSearched | source/SiglusExtract/NativeLib/my.cpp:1271-1286 | With distinct name pointers just one descriptor is searched: the first visited one whose name compares equal. |
| LoadedImage.FindsAnywhere | source/SiglusExtract/NativeLib/my.cpp:1260-1303 | In an image as linker and loader left it, a lookup without library name finds the address table slot of the first function whose name has the hash, in the first library that has one. |
| LoadedImage.FindsInLibrary | source/SiglusExtract/NativeLib/my.cpp:1260-1303 | With one, that of the first such function in the first library of that name from which anything is imported. |
| LoadedImage.FoundSlotIsBound | source/SiglusExtract/NativeLib/my.h:3303-3329 | The word in memory at the address found is the one the loader resolved for a function with the hash asked for, in a library of the name asked for. |
| LoadedImage.TableEnds | source/SiglusExtract/NativeLib/my.h:3276 | A descriptor without name or without address table ends the walk. |
| LoadedImage.SkippedByOffsets | source/SiglusExtract/NativeLib/my.h:3280-3301 | Which descriptors of a damaged image are passed over, by their offsets. |

## Left out

- The AMD64 branches: the 64-bit decoder, hooks and naked trampoline.
- HookedProgram.TrampolineStandsIn: excludes the call hook whose site is exactly five bytes, where the source turns the trampoline into a tail jump and writes no jump back; `HookedProgram.TailJumpSurvives` says what that does.
- HookedProgram.NakedTrampolineStandsIn: speaks of the stub the frame returns to; with hook, frame and callback in front it is `HookedMachine.NakedHookStandsInOnMachine`.
- HookedMachine.NakedHookStandsInOnMachine: follows naked trampolines that return to their stub; for those that run the site first, `HookedProgram.NakedTrampolineRunsSiteFirst` and `NakedTrampoline.FrameRoundTrip` are the two parts.
- HookSite.GetHookAddressAndSize: asks for a chain of jumps that settles, because the source does not return otherwise.
- PatchManager.MemoryPatchManager.HandleFunctionPatch: asks, besides that, for a site within the source's own buffers, beyond which the source writes past them, and for a fresh heap block.
- PatchManager.MemoryPatchManager.RestoreMemory: takes records in the heap whose saved size is at most that of their buffer; the general data-patch path of HandleMemoryPatch with its eight-byte backup, and the batch loop of PatchMemory, are not modelled.
- TickCount.ReadTickCount: asks that some attempt finds the high parts equal, because the source spins until one does.
- The change of page protection back after a patch, instruction-cache flushing, and the identity of real heaps.
- Privileged bits of the flags register: flags are one word that push and pop move whole.
- GrowableArray: element constructors and destructors, LastIndexOf, IndexOf from a start other than zero, shrinking with SetSize, and requests of half the address space or more, which no 32-bit heap grants.
- Lists: the singly linked lists of the same header.
- ImportTable: validation of the image headers, bounds of the directory, and lookups in the export table.
- CommandLine: the byte-character variant of the same two functions.
- Process creation, DLL injection, files, number parsing, bitmap headers, path and console helpers.
